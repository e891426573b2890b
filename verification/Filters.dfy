/** Search filters: the tree, matching against an entry, and the greedy substring scan. */
module Filters {
  import opened Octets
  import opened Entries

  datatype Filter =
    | And(children: seq<Filter>)
    | Or(children: seq<Filter>)
    | Not(children: seq<Filter>)
    | Equality(attribute: Text, value: Text)
    | Present(attribute: Text)
    | Substring(attribute: Text, initial: Text, any: seq<Text>, final: Text)
    | True
    | False

  /** A search filter whose root is used only when `valid`; the display text is not modelled. */
  datatype SearchFilter = SearchFilter(valid: bool, root: Filter)

  const OBJECT_CLASS: Text := Ascii("objectClass")

  // ---------- substring matching ----------

  predicate OccursAt(hay: Text, needle: Text, i: nat) {
    i + |needle| <= |hay| && hay[i..i + |needle|] == needle
  }

  /** `std::string::find`: the leftmost occurrence at or after `pos`. */
  function FindFrom(hay: Text, needle: Text, pos: nat): (r: Option<nat>)
    ensures r.Some? ==> pos <= r.value && OccursAt(hay, needle, r.value)
    ensures r.Some? ==> forall i :: pos <= i < r.value ==> !OccursAt(hay, needle, i)
    ensures r.None? ==> forall i :: pos <= i ==> !OccursAt(hay, needle, i)
    decreases |hay| - pos
  {
    if pos > |hay| then None
    else if OccursAt(hay, needle, pos) then Some(pos)
    else FindFrom(hay, needle, pos + 1)
  }

  /** The rest of the scan: place each middle component as far left as possible, then check the end. */
  predicate ScanFrom(hay: Text, pos: nat, any: seq<Text>, final: Text)
    requires pos <= |hay|
    decreases |any|
  {
    if any == [] then
      final == [] || (|hay| >= pos + |final| && hay[|hay| - |final|..] == final)
    else
      match FindFrom(hay, any[0], pos)
      case None => false
      case Some(i) => ScanFrom(hay, i + |any[0]|, any[1..], final)
  }

  predicate FoldedScan(hay: Text, initial: Text, any: seq<Text>, final: Text) {
    initial <= hay && ScanFrom(hay, |initial|, any, final)
  }

  function LowerAll(parts: seq<Text>): (r: seq<Text>)
    ensures |r| == |parts| && forall i :: 0 <= i < |parts| ==> r[i] == Lower(parts[i])
  {
    seq(|parts|, i requires 0 <= i < |parts| => Lower(parts[i]))
  }

  predicate SubstringScan(value: Text, initial: Text, any: seq<Text>, final: Text) {
    FoldedScan(Lower(value), Lower(initial), LowerAll(any), Lower(final))
  }

  /** gap, any1, gap, any2, ..., gap */
  function Interleave(gaps: seq<Text>, any: seq<Text>): Text
    requires |gaps| == |any| + 1
  {
    if any == [] then gaps[0]
    else gaps[0] + any[0] + Interleave(gaps[1..], any[1..])
  }

  /** The declarative reading of a substring assertion. */
  ghost predicate SplitsAs(value: Text, initial: Text, any: seq<Text>, final: Text) {
    exists gaps: seq<Text> :: |gaps| == |any| + 1 && value == initial + Interleave(gaps, any) + final
  }

  lemma OccursIs(hay: Text, needle: Text, i: nat)
    ensures OccursAt(hay, needle, i) <==> i + |needle| <= |hay| && hay[i..i + |needle|] == needle
  {
  }

  lemma CutTwice(hay: Text, pos: nat, i: nat, next: nat)
    requires pos <= i <= next <= |hay|
    ensures hay[pos..] == hay[pos..i] + (hay[i..next] + hay[next..])
  {
    assert hay[i..] == hay[i..next] + hay[next..];
    assert hay[pos..] == hay[pos..i] + hay[i..];
  }

  lemma Associate(a: Text, b: Text, c: Text, d: Text)
    ensures a + (b + (c + d)) == a + b + c + d
  {
    assert b + (c + d) == b + c + d;
    assert a + (b + c + d) == a + b + c + d;
  }

  lemma InterleaveHead(gap: Text, rest: seq<Text>, any: seq<Text>)
    requires any != [] && |rest| == |any|
    ensures Interleave([gap] + rest, any) == gap + any[0] + Interleave(rest, any[1..])
  {
    assert ([gap] + rest)[1..] == rest;
  }

  lemma GapBefore(hay: Text, pos: nat, i: nat, next: nat, rest: seq<Text>, any: seq<Text>, final: Text)
    requires pos <= i <= next <= |hay| && any != [] && |rest| == |any| && hay[i..next] == any[0]
    requires hay[next..] == Interleave(rest, any[1..]) + final
    ensures hay[pos..] == Interleave([hay[pos..i]] + rest, any) + final
  {
    hide Interleave;
    CutTwice(hay, pos, i, next);
    Associate(hay[pos..i], any[0], Interleave(rest, any[1..]), final);
    InterleaveHead(hay[pos..i], rest, any);
  }

  lemma LastGap(hay: Text, pos: nat, final: Text)
    requires pos <= |hay| && ScanFrom(hay, pos, [], final)
    ensures pos <= |hay| - |final| && hay[pos..] == Interleave([hay[pos..|hay| - |final|]], []) + final
  {
  }

  lemma {:induction false} ScanFindsGaps(hay: Text, pos: nat, any: seq<Text>, final: Text) returns (gaps: seq<Text>)
    requires pos <= |hay| && ScanFrom(hay, pos, any, final)
    ensures |gaps| == |any| + 1 && hay[pos..] == Interleave(gaps, any) + final
    decreases |any|
  {
    hide Interleave, OccursAt, FindFrom;
    if any == [] {
      LastGap(hay, pos, final);
      gaps := [hay[pos..|hay| - |final|]];
    } else {
      var i := FindFrom(hay, any[0], pos).value;
      var next := i + |any[0]|;
      OccursIs(hay, any[0], i);
      var rest := ScanFindsGaps(hay, next, any[1..], final);
      gaps := [hay[pos..i]] + rest;
      GapBefore(hay, pos, i, next, rest, any, final);
    }
  }

  /** Starting further left never loses a match, so leftmost placement is enough. */
  lemma {:induction false} GapsPassScan(hay: Text, pos: nat, start: nat, gaps: seq<Text>, any: seq<Text>, final: Text)
    requires pos <= start <= |hay| && |gaps| == |any| + 1
    requires hay[start..] == Interleave(gaps, any) + final
    ensures ScanFrom(hay, pos, any, final)
    decreases |any|
  {
    hide OccursAt;
    if any == [] {
      assert hay[|hay| - |final|..] == hay[start..][|gaps[0]|..];
    } else {
      var at := start + |gaps[0]|;
      var next := at + |any[0]|;
      assert hay[start..] == gaps[0] + (any[0] + (Interleave(gaps[1..], any[1..]) + final));
      assert hay[at..next] == hay[start..][|gaps[0]|..|gaps[0]| + |any[0]|] == any[0];
      OccursIs(hay, any[0], at);
      var i := FindFrom(hay, any[0], pos).value;
      OccursIs(hay, any[0], i);
      assert hay[next..] == hay[start..][next - start..];
      GapsPassScan(hay, i + |any[0]|, next, gaps[1..], any[1..], final);
    }
  }

  /** The leftmost-greedy scan accepts exactly the values that can be split at all. */
  lemma SubstringScanIsExact(value: Text, initial: Text, any: seq<Text>, final: Text)
    ensures SubstringScan(value, initial, any, final)
       <==> SplitsAs(Lower(value), Lower(initial), LowerAll(any), Lower(final))
  {
    hide Lower, LowerAll, ScanFrom, Interleave;
    var hay, first, middle, last := Lower(value), Lower(initial), LowerAll(any), Lower(final);
    if FoldedScan(hay, first, middle, last) {
      var gaps := ScanFindsGaps(hay, |first|, middle, last);
      assert hay == first + hay[|first|..];
      assert hay == first + Interleave(gaps, middle) + last;
    }
    if gaps: seq<Text> :| |gaps| == |middle| + 1 && hay == first + Interleave(gaps, middle) + last {
      assert hay == first + (Interleave(gaps, middle) + last);
      assert hay[|first|..] == Interleave(gaps, middle) + last;
      GapsPassScan(hay, |first|, |first|, gaps, middle, last);
    }
  }

  /** The scanning loop: `pos` moves past each component in turn. */
  method SubstringMatches(value: Text, initial: Text, any: seq<Text>, final: Text) returns (matched: bool)
    ensures matched == SubstringScan(value, initial, any, final)
    ensures matched <==> SplitsAs(Lower(value), Lower(initial), LowerAll(any), Lower(final))
  {
    hide FindFrom, SplitsAs, OccursAt;
    SubstringScanIsExact(value, initial, any, final);
    var hay := Lower(value);
    var pos: nat := 0;
    if initial != [] {
      var first := Lower(initial);
      if |hay| < |first| || hay[..|first|] != first {
        return false;
      }
      pos := |first|;
    }
    ghost var folded, last := LowerAll(any), Lower(final);
    ghost var answer := ScanFrom(hay, pos, folded, last);
    var i := 0;
    assert folded[0..] == folded;
    while i < |any|
      invariant 0 <= i <= |any| && pos <= |hay|
      invariant ScanFrom(hay, pos, folded[i..], last) == answer
    {
      var needle := Lower(any[i]);
      assert folded[i..][0] == needle && folded[i..][1..] == folded[i + 1..];
      var found := FindFrom(hay, needle, pos);
      if found.None? {
        return false;
      }
      FoundInside(hay, needle, pos);
      pos := found.value + |needle|;
      i := i + 1;
    }
    if final != [] {
      var end := Lower(final);
      return |hay| >= pos + |end| && hay[|hay| - |end|..] == end;
    }
    return true;
  }

  lemma FoundInside(hay: Text, needle: Text, pos: nat)
    ensures var r := FindFrom(hay, needle, pos); r.Some? ==> r.value + |needle| <= |hay|
  {
  }

  // ---------- matching ----------

  predicate Matches(node: Filter, entry: DirectoryEntry) {
    match node
    case True => true
    case False => false
    case And(children) => forall c | c in children :: Matches(c, entry)
    case Or(children) => exists c | c in children :: Matches(c, entry)
    case Not(children) => |children| == 1 && !Matches(children[0], entry)
    case Present(attribute) => ValuesNamed(entry.attributes, attribute).Some?
    case Equality(attribute, value) =>
      var values := ValuesNamed(entry.attributes, attribute);
      values.Some? && exists v | v in values.value :: IEquals(v, value)
    case Substring(attribute, initial, any, final) =>
      var values := ValuesNamed(entry.attributes, attribute);
      values.Some? && exists v | v in values.value :: SubstringScan(v, initial, any, final)
  }

  predicate FilterMatches(filter: SearchFilter, entry: DirectoryEntry) {
    filter.valid && Matches(filter.root, entry)
  }
}
