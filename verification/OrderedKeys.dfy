/** Iteration order of `std::map<std::string, V>`: keys in byte-wise lexicographic order. */
module OrderedKeys {
  import opened Octets

  predicate LexLess(a: Text, b: Text) {
    if b == [] then false
    else if a == [] then true
    else a[0] < b[0] || (a[0] == b[0] && LexLess(a[1..], b[1..]))
  }

  lemma {:induction false} LexTrichotomy(a: Text, b: Text)
    ensures LexLess(a, b) || a == b || LexLess(b, a)
    ensures !(LexLess(a, b) && LexLess(b, a))
    ensures !LexLess(a, a)
  {
    if a != [] && b != [] {
      LexTrichotomy(a[1..], b[1..]);
      LexTrichotomy(a[1..], a[1..]);
      if a[0] == b[0] {
        assert a == [a[0]] + a[1..] && b == [b[0]] + b[1..];
      }
    } else if a != [] {
      LexTrichotomy(a[1..], a[1..]);
    }
  }

  lemma {:induction false} LexTransitive(a: Text, b: Text, c: Text)
    requires LexLess(a, b) && LexLess(b, c)
    ensures LexLess(a, c)
  {
    if a != [] && a[0] == b[0] == c[0] {
      LexTransitive(a[1..], b[1..], c[1..]);
    }
  }

  predicate IsLeast(k: Text, keys: set<Text>) {
    k in keys && forall j :: j in keys ==> j == k || LexLess(k, j)
  }

  lemma LeastExists(keys: set<Text>)
    requires keys != {}
    ensures exists k :: IsLeast(k, keys)
    decreases |keys|
  {
    var x :| x in keys;
    var others := keys - {x};
    if others == {} {
      assert forall j :: j in keys ==> j == x || j in others;
      assert IsLeast(x, keys);
    } else {
      LeastExists(others);
      var m :| IsLeast(m, others);
      LexTrichotomy(x, m);
      var least := if LexLess(x, m) then x else m;
      forall j | j in keys
        ensures j == least || LexLess(least, j)
      {
        if j != x && j != m && least == x {
          LexTransitive(x, m, j);
        }
      }
      assert IsLeast(least, keys);
    }
  }

  function Least(keys: set<Text>): (k: Text)
    requires keys != {}
    ensures k in keys
    ensures forall j :: j in keys ==> j == k || LexLess(k, j)
  {
    LeastExists(keys);
    assert forall a, b :: IsLeast(a, keys) && IsLeast(b, keys) ==> a == b by {
      forall a, b | IsLeast(a, keys) && IsLeast(b, keys) ensures a == b {
        LexTrichotomy(a, b);
      }
    }
    var k :| k in keys && IsLeast(k, keys);
    k
  }

  ghost predicate Ascending(ks: seq<Text>) {
    forall i, j :: 0 <= i < j < |ks| ==> LexLess(ks[i], ks[j])
  }

  function SortedKeys(keys: set<Text>): (ks: seq<Text>)
    ensures Ascending(ks)
    ensures forall k :: k in ks <==> k in keys
    ensures |ks| == |keys|
    decreases |keys|
  {
    if keys == {} then []
    else
      var k := Least(keys);
      var rest := SortedKeys(keys - {k});
      assert forall j :: 0 <= j < |rest| ==> rest[j] in keys - {k};
      [k] + rest
  }

  lemma AscendingHead(keys: set<Text>, ks: seq<Text>)
    requires Ascending(ks) && ks != []
    requires forall k :: k in ks <==> k in keys
    ensures ks[0] in keys && ks[0] == Least(keys)
  {
    hide LexLess;
    assert ks[0] in ks;
    var k := Least(keys);
    var i :| 0 <= i < |ks| && ks[i] == k;
    LexTrichotomy(ks[0], k);
  }

  /** The listing is determined by its order and its elements. */
  lemma {:induction false} SortedKeysUnique(keys: set<Text>, ks: seq<Text>)
    requires Ascending(ks)
    requires forall k :: k in ks <==> k in keys
    ensures ks == SortedKeys(keys)
    decreases |keys|
  {
    hide LexLess;
    if ks == [] {
      assert forall k :: k in keys ==> k in ks;
    } else {
      AscendingHead(keys, ks);
      var k, rest := ks[0], ks[1..];
      assert ks == [k] + rest;
      forall j | 0 <= j < |rest| ensures rest[j] != k && rest[j] in keys {
        assert rest[j] == ks[j + 1] && ks[j + 1] in ks;
        LexTrichotomy(k, k);
      }
      SortedKeysUnique(keys - {k}, rest);
    }
  }

  /** The first key, in map order, that equals `name` up to case (the `find_if` loops of the daemon). */
  function FindKey(keys: set<Text>, name: Text): (r: Option<Text>)
    ensures r.Some? ==> r.value in keys && IEquals(r.value, name)
    ensures r.Some? ==> forall k :: k in keys && IEquals(k, name) ==> k == r.value || LexLess(r.value, k)
    ensures r.None? ==> forall k :: k in keys ==> !IEquals(k, name)
  {
    var matching := set k | k in keys && IEquals(k, name);
    assert forall k :: k in keys && IEquals(k, name) ==> k in matching;
    if matching == {} then None else Some(Least(matching))
  }

  /** The scanning loop the daemon writes wherever it looks a name up case-insensitively. */
  method FirstMatch(keys: set<Text>, name: Text) returns (r: Option<Text>)
    ensures r == FindKey(keys, name)
  {
    var ks := SortedKeys(keys);
    var i := 0;
    while i < |ks|
      invariant 0 <= i <= |ks|
      invariant forall j :: 0 <= j < i ==> !IEquals(ks[j], name)
    {
      if IEquals(ks[i], name) {
        FoundIsFirst(keys, name, i);
        return Some(ks[i]);
      }
      i := i + 1;
    }
    assert forall k :: k in keys ==> k in ks;
    return None;
  }

  lemma FoundIsFirst(keys: set<Text>, name: Text, i: nat)
    requires i < |SortedKeys(keys)| && IEquals(SortedKeys(keys)[i], name)
    requires forall j :: 0 <= j < i ==> !IEquals(SortedKeys(keys)[j], name)
    ensures FindKey(keys, name) == Some(SortedKeys(keys)[i])
  {
    hide LexLess, SortedKeys, IEquals;
    var ks := SortedKeys(keys);
    assert ks[i] in ks;
    var found := FindKey(keys, name);
    assert found.value in ks;
    var m :| 0 <= m < |ks| && ks[m] == found.value;
    LexTrichotomy(ks[i], ks[m]);
  }

  ghost predicate UniqueUpToCase(keys: set<Text>) {
    forall a, b :: a in keys && b in keys && IEquals(a, b) ==> a == b
  }
}
