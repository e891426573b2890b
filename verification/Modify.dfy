/** Attribute modification of one entry (section 4.6 of RFC 4511). */
module Modify {
  import opened Octets
  import opened OrderedKeys
  import opened Entries

  /** The outcome of changing an entry in place: on failure the entry keeps what was done so far. */
  datatype Applied<T> = Applied(code: ResultCode, after: T)

  /** The index of the first value equal to `wanted` up to case, or `|values|`. */
  function ValueIndex(values: seq<Text>, wanted: Text): (i: nat)
    ensures i <= |values|
    ensures i < |values| ==> IEquals(values[i], wanted)
    ensures forall j :: 0 <= j < i ==> !IEquals(values[j], wanted)
  {
    if values == [] || IEquals(values[0], wanted) then 0 else 1 + ValueIndex(values[1..], wanted)
  }

  function AddValues(existing: seq<Text>, values: seq<Text>): Applied<seq<Text>>
    decreases |values|
  {
    if values == [] then Applied(SUCCESS, existing)
    else if ValueIndex(existing, values[0]) < |existing| then Applied(ATTRIBUTE_OR_VALUE_EXISTS, existing)
    else AddValues(existing + [values[0]], values[1..])
  }

  function RemoveAt(values: seq<Text>, i: nat): (r: seq<Text>)
    requires i < |values|
    ensures |r| == |values| - 1
  {
    values[..i] + values[i + 1..]
  }

  function DeleteValues(existing: seq<Text>, values: seq<Text>): Applied<seq<Text>>
    decreases |values|
  {
    if values == [] then Applied(SUCCESS, existing)
    else
      var i := ValueIndex(existing, values[0]);
      if i == |existing| then Applied(NO_SUCH_ATTRIBUTE, existing)
      else DeleteValues(RemoveAt(existing, i), values[1..])
  }

  function ApplyOne(attributes: Attributes, change: AttributeModification): Applied<Attributes> {
    if change.attribute == [] then Applied(INVALID_ATTRIBUTE_SYNTAX, attributes)
    else
      var found := FindKey(attributes.Keys, change.attribute);
      if change.op == ADD then
        match found
        case None => Applied(SUCCESS, attributes[change.attribute := change.values])
        case Some(k) =>
          var r := AddValues(attributes[k], change.values);
          Applied(r.code, attributes[k := r.after])
      else if change.op == DELETE then
        match found
        case None => Applied(NO_SUCH_ATTRIBUTE, attributes)
        case Some(k) =>
          if change.values == [] then Applied(SUCCESS, attributes - {k})
          else
            var r := DeleteValues(attributes[k], change.values);
            Applied(r.code, if r.code == SUCCESS && r.after == [] then attributes - {k} else attributes[k := r.after])
      else if change.op == REPLACE then
        match found
        case None => Applied(SUCCESS, if change.values == [] then attributes
                                      else attributes[change.attribute := change.values])
        case Some(k) => Applied(SUCCESS, if change.values == [] then attributes - {k} else attributes[k := change.values])
      else Applied(SUCCESS, attributes)
  }

  function ApplyAll(attributes: Attributes, changes: seq<AttributeModification>): Applied<Attributes>
    decreases |changes|
  {
    if changes == [] then Applied(SUCCESS, attributes)
    else
      var r := ApplyOne(attributes, changes[0]);
      if r.code != SUCCESS then r else ApplyAll(r.after, changes[1..])
  }

  // ---------- the entry as a map from folded type to a set of folded values ----------

  type Folded = map<Text, set<Text>>

  function FoldSet(values: seq<Text>): set<Text> {
    set v | v in values :: Lower(v)
  }

  predicate DistinctUpToCase(values: seq<Text>) {
    forall i, j :: 0 <= i < j < |values| ==> !IEquals(values[i], values[j])
  }

  ghost predicate CaseUnique(attributes: Attributes) {
    && UniqueUpToCase(attributes.Keys)
    && forall k :: k in attributes ==> DistinctUpToCase(attributes[k])
  }

  function FoldKeys(keys: set<Text>): set<Text> {
    set k | k in keys :: Lower(k)
  }

  /** `m` is the folded view of the attributes. */
  ghost predicate Represents(attributes: Attributes, m: Folded) {
    && m.Keys == FoldKeys(attributes.Keys)
    && forall k :: k in attributes ==> m[Lower(k)] == FoldSet(attributes[k])
  }

  lemma FoldedOnce(keys: set<Text>)
    requires UniqueUpToCase(keys)
    ensures forall a, b :: a in keys && b in keys && Lower(a) == Lower(b) ==> a == b
  {
    assert forall a, b :: a in keys && b in keys && Lower(a) == Lower(b) ==> IEquals(a, b);
  }

  /** The folded view of an entry with types unique up to case. */
  function FoldedView(attributes: Attributes): (m: Folded)
    requires UniqueUpToCase(attributes.Keys)
  {
    FoldedOnce(attributes.Keys);
    map k | k in attributes :: Lower(k) := FoldSet(attributes[k])
  }

  lemma FoldedViewRepresents(attributes: Attributes)
    requires UniqueUpToCase(attributes.Keys)
    ensures Represents(attributes, FoldedView(attributes))
  {
    hide FoldSet, Lower;
    FoldedOnce(attributes.Keys);
  }

  lemma OneView(attributes: Attributes, m: Folded)
    requires UniqueUpToCase(attributes.Keys) && Represents(attributes, m)
    ensures m == FoldedView(attributes)
  {
    hide FoldSet, Lower;
    FoldedViewRepresents(attributes);
    var view := FoldedView(attributes);
    assert m.Keys == view.Keys;
    forall f | f in m ensures m[f] == view[f] {
      var k :| k in attributes && Lower(k) == f;
    }
  }

  /** What one change means on the folded map. */
  function MeaningOf(m: Folded, op: ModifyOp, f: Text, values: set<Text>): Applied<Folded> {
    if f == [] then Applied(INVALID_ATTRIBUTE_SYNTAX, m)
    else if op == ADD then
      if f !in m then Applied(SUCCESS, m[f := values])
      else if m[f] * values != {} then Applied(ATTRIBUTE_OR_VALUE_EXISTS, m)
      else Applied(SUCCESS, m[f := m[f] + values])
    else if op == DELETE then
      if f !in m then Applied(NO_SUCH_ATTRIBUTE, m)
      else if values == {} then Applied(SUCCESS, m - {f})
      else if !(values <= m[f]) then Applied(NO_SUCH_ATTRIBUTE, m)
      else Applied(SUCCESS, if m[f] == values then m - {f} else m[f := m[f] - values])
    else if op == REPLACE then
      Applied(SUCCESS, if values == {} then m - {f} else m[f := values])
    else Applied(SUCCESS, m)
  }

  function MeaningOfAll(m: Folded, changes: seq<AttributeModification>): Applied<Folded>
    decreases |changes|
  {
    if changes == [] then Applied(SUCCESS, m)
    else
      var c := changes[0];
      var r := MeaningOf(m, c.op, Lower(c.attribute), FoldSet(c.values));
      if r.code != SUCCESS then r else MeaningOfAll(r.after, changes[1..])
  }

  // ---------- value lists ----------

  lemma ValueIndexFinds(values: seq<Text>, wanted: Text)
    ensures ValueIndex(values, wanted) < |values| <==> Lower(wanted) in FoldSet(values)
  {
    if Lower(wanted) in FoldSet(values) {
      var v :| v in values && Lower(v) == Lower(wanted);
      var i :| 0 <= i < |values| && values[i] == v;
      assert IEquals(values[i], wanted);
    }
  }

  lemma FoldSetConcat(a: seq<Text>, b: seq<Text>)
    ensures FoldSet(a + b) == FoldSet(a) + FoldSet(b)
  {
    forall f ensures f in FoldSet(a + b) <==> f in FoldSet(a) + FoldSet(b) {
      if f in FoldSet(a) {
        var v :| v in a && Lower(v) == f;
        assert v in a + b;
      }
      if f in FoldSet(b) {
        var v :| v in b && Lower(v) == f;
        assert v in a + b;
      }
    }
  }

  lemma HeadNotRepeated(values: seq<Text>)
    requires values != [] && DistinctUpToCase(values)
    ensures Lower(values[0]) !in FoldSet(values[1..])
  {
    forall i | 0 <= i < |values[1..]|
      ensures Lower(values[1..][i]) != Lower(values[0])
    {
      assert !IEquals(values[0], values[i + 1]);
    }
  }

  lemma FoldSetHead(values: seq<Text>)
    requires values != []
    ensures FoldSet(values) == {Lower(values[0])} + FoldSet(values[1..])
  {
    FoldSetConcat([values[0]], values[1..]);
    assert values == [values[0]] + values[1..];
  }

  lemma DistinctAppend(values: seq<Text>, v: Text)
    requires DistinctUpToCase(values) && Lower(v) !in FoldSet(values)
    ensures DistinctUpToCase(values + [v])
    ensures FoldSet(values + [v]) == FoldSet(values) + {Lower(v)}
  {
    hide Lower;
    FoldSetConcat(values, [v]);
    forall i | 0 <= i < |values| ensures !IEquals(values[i], v) {
      assert Lower(values[i]) in FoldSet(values);
    }
  }

  lemma {:induction false} AddValuesMeaning(existing: seq<Text>, values: seq<Text>)
    requires DistinctUpToCase(existing) && DistinctUpToCase(values)
    ensures var r := AddValues(existing, values);
            if FoldSet(existing) * FoldSet(values) == {}
            then r == Applied(SUCCESS, existing + values) && DistinctUpToCase(existing + values)
            else r.code == ATTRIBUTE_OR_VALUE_EXISTS
    decreases |values|
  {
    hide FoldSet, Lower;
    if values == [] {
      assert existing + values == existing;
      assert FoldSet(values) == {} by {
        EmptyFoldSet(values);
      }
    } else {
      var v, rest := values[0], values[1..];
      FoldSetHead(values);
      ValueIndexFinds(existing, v);
      if Lower(v) !in FoldSet(existing) {
        DistinctAppend(existing, v);
        HeadNotRepeated(values);
        AddValuesMeaning(existing + [v], rest);
        assert existing + [v] + rest == existing + values;
        assert FoldSet(existing + [v]) * FoldSet(rest) == FoldSet(existing) * FoldSet(values);
      } else {
        assert Lower(v) in FoldSet(existing) * FoldSet(values);
      }
    }
  }

  lemma RemoveAtMeaning(values: seq<Text>, i: nat)
    requires i < |values| && DistinctUpToCase(values)
    ensures DistinctUpToCase(RemoveAt(values, i))
    ensures FoldSet(RemoveAt(values, i)) == FoldSet(values) - {Lower(values[i])}
  {
    hide Lower;
    var a, b := values[..i], values[i + 1..];
    assert values == a + ([values[i]] + b);
    FoldSetConcat(a, [values[i]] + b);
    FoldSetConcat([values[i]], b);
    FoldSetConcat(a, b);
    assert FoldSet([values[i]]) == {Lower(values[i])};
    assert Lower(values[i]) !in FoldSet(a) && Lower(values[i]) !in FoldSet(b);
  }

  lemma {:induction false} DeleteValuesMeaning(existing: seq<Text>, values: seq<Text>)
    requires DistinctUpToCase(existing) && DistinctUpToCase(values)
    ensures var r := DeleteValues(existing, values);
            if FoldSet(values) <= FoldSet(existing)
            then r.code == SUCCESS && DistinctUpToCase(r.after) && FoldSet(r.after) == FoldSet(existing) - FoldSet(values)
            else r.code == NO_SUCH_ATTRIBUTE
    decreases |values|
  {
    if values != [] {
      var v, rest := values[0], values[1..];
      assert values == [v] + rest;
      FoldSetConcat([v], rest);
      assert FoldSet([v]) == {Lower(v)};
      ValueIndexFinds(existing, v);
      var i := ValueIndex(existing, v);
      if i < |existing| {
        RemoveAtMeaning(existing, i);
        DeleteValuesMeaning(RemoveAt(existing, i), rest);
        HeadNotRepeated(values);
      }
    }
  }

  // ---------- one change ----------

  lemma FoldAt(attributes: Attributes, m: Folded, name: Text)
    requires UniqueUpToCase(attributes.Keys) && Represents(attributes, m)
    ensures var found, f := FindKey(attributes.Keys, name), Lower(name);
            && (found.Some? <==> f in m)
            && (found.Some? ==> Lower(found.value) == f && m[f] == FoldSet(attributes[found.value]))
  {
    hide FoldSet;
    if Lower(name) in m {
      var k :| k in attributes && Lower(k) == Lower(name);
      assert IEquals(k, name);
    }
  }

  lemma FoldKeysAdd(keys: set<Text>, k: Text)
    ensures FoldKeys(keys + {k}) == FoldKeys(keys) + {Lower(k)}
  {
    hide Lower;
    forall j | j in keys + {k} ensures Lower(j) in FoldKeys(keys) + {Lower(k)} {
    }
    assert k in keys + {k};
  }

  lemma FoldKeysRemove(keys: set<Text>, k: Text)
    requires UniqueUpToCase(keys) && k in keys
    ensures FoldKeys(keys - {k}) == FoldKeys(keys) - {Lower(k)}
  {
    hide Lower;
    forall j | j in keys - {k} ensures Lower(j) in FoldKeys(keys) - {Lower(k)} {
      assert !IEquals(j, k);
    }
  }

  /** Writing one list under the key that stands for a folded type writes one set. */
  lemma FoldPut(attributes: Attributes, m: Folded, k: Text, values: seq<Text>)
    requires CaseUnique(attributes) && Represents(attributes, m) && DistinctUpToCase(values)
    requires k in attributes || FindKey(attributes.Keys, k).None?
    ensures CaseUnique(attributes[k := values])
    ensures Represents(attributes[k := values], m[Lower(k) := FoldSet(values)])
  {
    hide FoldSet, FoldKeys, DistinctUpToCase, Lower;
    var after := attributes[k := values];
    assert after.Keys == attributes.Keys + {k};
    FoldKeysAdd(attributes.Keys, k);
    forall j | j in attributes && j != k ensures !IEquals(j, k) {
    }
    assert UniqueUpToCase(after.Keys);
  }

  lemma FoldDrop(attributes: Attributes, m: Folded, k: Text)
    requires CaseUnique(attributes) && Represents(attributes, m) && k in attributes
    ensures CaseUnique(attributes - {k})
    ensures Represents(attributes - {k}, m - {Lower(k)})
  {
    hide FoldSet, DistinctUpToCase, Lower;
    var after := attributes - {k};
    assert after.Keys == attributes.Keys - {k};
    FoldKeysRemove(attributes.Keys, k);
    var left := m - {Lower(k)};
    assert left.Keys == m.Keys - {Lower(k)};
    forall j | j in after
      ensures Lower(j) in left && left[Lower(j)] == FoldSet(after[j])
    {
      assert !IEquals(j, k);
      assert Lower(j) in FoldKeys(after.Keys);
    }
  }

  lemma ApplyOneMeaning(attributes: Attributes, m: Folded, change: AttributeModification)
    requires CaseUnique(attributes) && Represents(attributes, m) && DistinctUpToCase(change.values)
    ensures var r := ApplyOne(attributes, change);
            var meant := MeaningOf(m, change.op, Lower(change.attribute), FoldSet(change.values));
            && r.code == meant.code
            && (r.code == SUCCESS ==> CaseUnique(r.after) && Represents(r.after, meant.after))
  {
    hide FoldSet, AddValues, DeleteValues, DistinctUpToCase, CaseUnique, Represents;
    var name, values := change.attribute, change.values;
    assert UniqueUpToCase(attributes.Keys) by {
      CaseUniqueKeys(attributes);
    }
    FoldAt(attributes, m, name);
    EmptyFoldSet(values);
    match FindKey(attributes.Keys, name)
    case None =>
      if change.op == ADD || (change.op == REPLACE && values != []) {
        FoldPut(attributes, m, name, values);
      }
      assert m - {Lower(name)} == m;
    case Some(k) =>
      if change.op == ADD {
        assert DistinctUpToCase(attributes[k]) by {
          CaseUniqueValues(attributes, k);
        }
        AddValuesMeaning(attributes[k], values);
        FoldSetConcat(attributes[k], values);
        var r := AddValues(attributes[k], values);
        if r.code == SUCCESS {
          FoldPut(attributes, m, k, r.after);
        }
      } else if change.op == DELETE {
        FoldDrop(attributes, m, k);
        assert DistinctUpToCase(attributes[k]) by {
          CaseUniqueValues(attributes, k);
        }
        DeleteValuesMeaning(attributes[k], values);
        var r := DeleteValues(attributes[k], values);
        EmptyFoldSet(r.after);
        var f, gone := Lower(name), FoldSet(values);
        if r.code == SUCCESS {
          AllGone(m[f], gone);
          FoldPut(attributes, m, k, r.after);
        }
      } else if change.op == REPLACE {
        FoldDrop(attributes, m, k);
        FoldPut(attributes, m, k, values);
      }
  }

  lemma AllGone(all: set<Text>, gone: set<Text>)
    requires gone <= all
    ensures all - gone == {} <==> all == gone
  {
    assert all == gone + (all - gone);
  }

  lemma CaseUniqueKeys(attributes: Attributes)
    requires CaseUnique(attributes)
    ensures UniqueUpToCase(attributes.Keys)
  {
  }

  lemma CaseUniqueValues(attributes: Attributes, k: Text)
    requires CaseUnique(attributes) && k in attributes
    ensures DistinctUpToCase(attributes[k])
  {
  }

  lemma EmptyFoldSet(values: seq<Text>)
    ensures values == [] <==> FoldSet(values) == {}
  {
    if values != [] {
      assert values[0] in values;
      assert Lower(values[0]) in FoldSet(values);
    }
  }

  lemma {:induction false} RepresentedMeaning(attributes: Attributes, m: Folded, changes: seq<AttributeModification>)
    requires CaseUnique(attributes) && Represents(attributes, m)
    requires forall i :: 0 <= i < |changes| ==> DistinctUpToCase(changes[i].values)
    ensures var r, meant := ApplyAll(attributes, changes), MeaningOfAll(m, changes);
            && r.code == meant.code
            && (r.code == SUCCESS ==> CaseUnique(r.after) && Represents(r.after, meant.after))
    decreases |changes|
  {
    hide ApplyOne, MeaningOf, Represents, FoldSet, Lower, CaseUnique, DistinctUpToCase;
    if changes != [] {
      var c := changes[0];
      ApplyOneMeaning(attributes, m, c);
      var r := ApplyOne(attributes, c);
      if r.code == SUCCESS {
        RepresentedMeaning(r.after, MeaningOf(m, c.op, Lower(c.attribute), FoldSet(c.values)).after, changes[1..]);
      }
    }
  }

  /** The in-place algorithm computes exactly the set-valued meaning, with the same result code,
      and keeps types and values unique up to case. */
  lemma ApplyAllMeaning(attributes: Attributes, changes: seq<AttributeModification>)
    requires CaseUnique(attributes)
    requires forall i :: 0 <= i < |changes| ==> DistinctUpToCase(changes[i].values)
    ensures var r, meant := ApplyAll(attributes, changes), MeaningOfAll(FoldedView(attributes), changes);
            && r.code == meant.code
            && (r.code == SUCCESS ==> CaseUnique(r.after) && FoldedView(r.after) == meant.after)
  {
    hide ApplyAll, MeaningOfAll, FoldedView, Represents, DistinctUpToCase;
    FoldedViewRepresents(attributes);
    RepresentedMeaning(attributes, FoldedView(attributes), changes);
    var r := ApplyAll(attributes, changes);
    if r.code == SUCCESS {
      OneView(r.after, MeaningOfAll(FoldedView(attributes), changes).after);
    }
  }

  // ---------- adding and deleting the same values ----------

  lemma {:induction false} AddValuesAppends(existing: seq<Text>, values: seq<Text>)
    requires AddValues(existing, values).code == SUCCESS
    ensures AddValues(existing, values).after == existing + values
    ensures forall i, j :: 0 <= i < |existing| && 0 <= j < |values| ==> !IEquals(existing[i], values[j])
    decreases |values|
  {
    if values == [] {
      assert existing + values == existing;
    } else {
      var more := existing + [values[0]];
      AddValuesAppends(more, values[1..]);
      assert more + values[1..] == existing + values;
      forall i, j | 0 <= i < |existing| && 0 <= j < |values|
        ensures !IEquals(existing[i], values[j])
      {
        assert more[i] == existing[i];
        if j > 0 {
          assert values[1..][j - 1] == values[j];
        }
      }
    }
  }

  lemma {:induction false} DeleteAppended(existing: seq<Text>, values: seq<Text>)
    requires forall i, j :: 0 <= i < |existing| && 0 <= j < |values| ==> !IEquals(existing[i], values[j])
    ensures DeleteValues(existing + values, values) == Applied(SUCCESS, existing)
    decreases |values|
  {
    hide IEquals;
    if values == [] {
      assert existing + values == existing;
    } else {
      var all, n := existing + values, |existing|;
      assert all[n] == values[0];
      assert IEquals(all[n], values[0]) by {
        SameIsEqual(values[0]);
      }
      var i := ValueIndex(all, values[0]);
      assert i == n by {
        assert forall j :: 0 <= j < n ==> all[j] == existing[j];
      }
      assert RemoveAt(all, n) == existing + values[1..];
      DeleteAppended(existing, values[1..]);
    }
  }

  /** After a successful add, deleting the same values always succeeds; it restores the entry
      exactly when the attribute was absent, or had values and some were added. */
  lemma AddThenDelete(attributes: Attributes, name: Text, values: seq<Text>)
    requires ApplyOne(attributes, AttributeModification(ADD, name, values)).code == SUCCESS
    ensures var added := ApplyOne(attributes, AttributeModification(ADD, name, values)).after;
            var r := ApplyOne(added, AttributeModification(DELETE, name, values));
            var found := FindKey(attributes.Keys, name);
            && r.code == SUCCESS
            && (r.after == attributes <==> found.None? || (values != [] && attributes[found.value] != []))
  {
    hide AddValues, DeleteValues;
    var added := ApplyOne(attributes, AttributeModification(ADD, name, values)).after;
    match FindKey(attributes.Keys, name)
    case None =>
      SameIsEqual(name);
      assert added.Keys == attributes.Keys + {name};
      assert FindKey(added.Keys, name) == Some(name);
      DeleteAppended([], values);
      assert [] + values == values;
      assert added - {name} == attributes;
    case Some(k) =>
      assert added.Keys == attributes.Keys;
      AddValuesAppends(attributes[k], values);
      DeleteAppended(attributes[k], values);
      var r := ApplyOne(added, AttributeModification(DELETE, name, values));
      assert k !in added - {k};
      assert values != [] && attributes[k] != [] ==> r.after == added[k := attributes[k]] == attributes;
  }

  // ---------- the loops, on an entry changed in place ----------

  method AddEach(first: seq<Text>, values: seq<Text>) returns (code: ResultCode, existing: seq<Text>)
    ensures Applied(code, existing) == AddValues(first, values)
  {
    hide ValueIndex;
    existing := first;
    var i := 0;
    assert values[0..] == values;
    while i < |values|
      invariant 0 <= i <= |values|
      invariant AddValues(existing, values[i..]) == AddValues(first, values)
    {
      assert values[i..][1..] == values[i + 1..];
      if ValueIndex(existing, values[i]) < |existing| {
        return ATTRIBUTE_OR_VALUE_EXISTS, existing;
      }
      existing := existing + [values[i]];
      i := i + 1;
    }
    return SUCCESS, existing;
  }

  method DeleteEach(first: seq<Text>, values: seq<Text>) returns (code: ResultCode, existing: seq<Text>)
    ensures Applied(code, existing) == DeleteValues(first, values)
  {
    hide RemoveAt;
    existing := first;
    var i := 0;
    assert values[0..] == values;
    while i < |values|
      invariant 0 <= i <= |values|
      invariant DeleteValues(existing, values[i..]) == DeleteValues(first, values)
    {
      assert values[i..][1..] == values[i + 1..];
      var at := ValueIndex(existing, values[i]);
      if at == |existing| {
        return NO_SUCH_ATTRIBUTE, existing;
      }
      existing := RemoveAt(existing, at);
      i := i + 1;
    }
    return SUCCESS, existing;
  }

  /** An entry being edited. */
  class MutableEntry {
    var attributes: Attributes

    constructor (from: Attributes)
      ensures attributes == from
    {
      attributes := from;
    }

    method ApplyChange(change: AttributeModification) returns (code: ResultCode)
      modifies this
      ensures Applied(code, attributes) == ApplyOne(old(attributes), change)
    {
      hide AddValues, DeleteValues;
      if change.attribute == [] {
        return INVALID_ATTRIBUTE_SYNTAX;
      }
      var found := FirstMatch(attributes.Keys, change.attribute);
      code := SUCCESS;
      if change.op == ADD {
        if found.None? {
          attributes := attributes[change.attribute := change.values];
        } else {
          var after;
          code, after := AddEach(attributes[found.value], change.values);
          attributes := attributes[found.value := after];
        }
      } else if change.op == DELETE {
        if found.None? {
          return NO_SUCH_ATTRIBUTE;
        }
        if change.values == [] {
          attributes := attributes - {found.value};
        } else {
          var after;
          code, after := DeleteEach(attributes[found.value], change.values);
          if code == SUCCESS && after == [] {
            attributes := attributes - {found.value};
          } else {
            attributes := attributes[found.value := after];
          }
        }
      } else if change.op == REPLACE {
        if change.values == [] {
          if found.Some? {
            attributes := attributes - {found.value};
          }
        } else if found.None? {
          attributes := attributes[change.attribute := change.values];
        } else {
          attributes := attributes[found.value := change.values];
        }
      }
    }

    /** `applyModifications`: stops at the first change that fails, keeping what was done so far. */
    method ApplyModifications(changes: seq<AttributeModification>) returns (code: ResultCode)
      modifies this
      ensures Applied(code, attributes) == ApplyAll(old(attributes), changes)
    {
      hide ApplyOne;
      var i := 0;
      assert changes[0..] == changes;
      while i < |changes|
        invariant 0 <= i <= |changes|
        invariant ApplyAll(attributes, changes[i..]) == ApplyAll(old(attributes), changes)
      {
        assert changes[i..][1..] == changes[i + 1..];
        code := ApplyChange(changes[i]);
        if code != SUCCESS {
          return;
        }
        i := i + 1;
      }
      return SUCCESS;
    }
  }
}
