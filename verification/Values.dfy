/** Attribute values taken apart into single (type, value) items and put back together. */
module Values {
  import opened Octets
  import opened OrderedKeys
  import opened Entries

  function PushValue(attributes: Attributes, kind: Text, value: Text): Attributes {
    attributes[kind := (if kind in attributes then attributes[kind] else []) + [value]]
  }

  /** Values appended to what a type already has; nothing at all when there are none. */
  function Append(attributes: Attributes, kind: Text, values: seq<Text>): Attributes {
    if values == [] then attributes
    else attributes[kind := (if kind in attributes then attributes[kind] else []) + values]
  }

  lemma AppendMore(attributes: Attributes, kind: Text, values: seq<Text>)
    requires values != []
    ensures Append(attributes, kind, values) == Append(PushValue(attributes, kind, values[0]), kind, values[1..])
  {
    var held := if kind in attributes then attributes[kind] else [];
    assert held + [values[0]] + values[1..] == held + values;
    if values[1..] == [] {
      assert values == [values[0]];
    }
  }

  /** The listed types that have values. */
  function KeptOf(attributes: Attributes, kinds: seq<Text>): Attributes
    requires forall k <- kinds :: k in attributes
  {
    map k | k in kinds && attributes[k] != [] :: attributes[k]
  }

  lemma KeptOneMore(attributes: Attributes, init: seq<Text>, k: Text)
    requires k in attributes && k !in init && forall x <- init :: x in attributes
    ensures KeptOf(attributes, init + [k]) == Append(KeptOf(attributes, init), k, attributes[k])
  {
    assert forall x :: x in init + [k] <==> x in init || x == k;
    assert [] + attributes[k] == attributes[k];
    var before, after := KeptOf(attributes, init), KeptOf(attributes, init + [k]);
    assert k !in before;
    assert after.Keys == before.Keys + if attributes[k] == [] then {} else {k};
  }

  function Kept(attributes: Attributes): Attributes {
    map k | k in attributes && attributes[k] != [] :: attributes[k]
  }

  predicate HasAllValues(attributes: Attributes) {
    forall k <- attributes :: attributes[k] != []
  }

  lemma KeptAll(attributes: Attributes)
    ensures Kept(attributes) == attributes <==> forall k <- attributes :: attributes[k] != []
  {
    if Kept(attributes) == attributes {
      assert forall k <- attributes :: k in Kept(attributes);
    }
  }

  lemma DistinctKeys(keys: set<Text>)
    ensures forall i, j :: 0 <= i < j < |SortedKeys(keys)| ==> SortedKeys(keys)[i] != SortedKeys(keys)[j]
  {
    hide SortedKeys;
    var ks := SortedKeys(keys);
    forall i, j | 0 <= i < j < |ks| ensures ks[i] != ks[j] {
      LexTrichotomy(ks[i], ks[j]);
    }
  }

  lemma KeptOfSorted(attributes: Attributes)
    ensures KeptOf(attributes, SortedKeys(attributes.Keys)) == Kept(attributes)
  {
    hide LexLess, SortedKeys;
  }
}
