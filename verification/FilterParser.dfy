/** The filter parser as it runs: one position moving through the text. */
module FilterParser {
  import opened Octets
  import opened Filters
  import opened FilterText

  /** Splits a value at its bare stars, octet by octet. */
  method SplitValue(value: Text) returns (parts: seq<Text>)
    ensures parts == SplitAtStars(value, [])
  {
    parts := [];
    var current: Text := [];
    var i := 0;
    assert value[0..] == value;
    assert [] + SplitAtStars(value, []) == SplitAtStars(value, []);
    while i < |value|
      invariant 0 <= i <= |value|
      invariant parts + SplitAtStars(value[i..], current) == SplitAtStars(value, [])
    {
      SplitStep(value, i, current);
      if value[i] == BACKSLASH && i + 1 < |value| {
        current := current + [value[i]] + [value[i + 1]];
        i := i + 2;
      } else if value[i] == STAR {
        assert parts + ([current] + SplitAtStars(value[i + 1..], [])) == parts + [current] + SplitAtStars(value[i + 1..], []);
        parts := parts + [current];
        current := [];
        i := i + 1;
      } else {
        current := current + [value[i]];
        i := i + 1;
      }
    }
    parts := parts + [current];
  }

  lemma SplitStep(value: Text, i: nat, current: Text)
    requires i < |value|
    ensures SplitAtStars(value[i..], current)
         == if value[i] == BACKSLASH && i + 1 < |value| then SplitAtStars(value[i + 2..], current + [value[i]] + [value[i + 1]])
            else if value[i] == STAR then [current] + SplitAtStars(value[i + 1..], [])
            else SplitAtStars(value[i + 1..], current + [value[i]])
  {
    var s := value[i..];
    assert s[1..] == value[i + 1..];
    if |s| > 1 {
      assert s[2..] == value[i + 2..];
      assert current + s[..2] == current + [value[i]] + [value[i + 1]];
    }
  }

  method TrimName(name: Text) returns (trimmed: Text)
    ensures trimmed == TrimRight(name)
  {
    trimmed := name;
    while trimmed != [] && IsSpace(trimmed[|trimmed| - 1])
      invariant TrimRight(trimmed) == TrimRight(name)
    {
      trimmed := trimmed[..|trimmed| - 1];
    }
  }

  class Parser {
    const text: Text
    var pos: nat

    ghost predicate Valid()
      reads this
    {
      pos <= |text|
    }

    ghost function Rest(): Text
      requires Valid()
      reads this
    {
      text[pos..]
    }

    constructor (input: Text)
      ensures Valid() && text == input && pos == 0
    {
      text, pos := input, 0;
    }

    method SkipSpaces()
      requires Valid()
      modifies this
      ensures Valid() && pos >= old(pos) && Rest() == SkipSpace(old(Rest()))
    {
      while pos < |text| && IsSpace(text[pos])
        invariant Valid() && pos >= old(pos)
        invariant SkipSpace(Rest()) == SkipSpace(old(Rest()))
      {
        assert Rest()[1..] == text[pos + 1..];
        pos := pos + 1;
      }
    }

    /** The octets before the first of `=`, `(` and `)`. */
    method ReadName() returns (name: Text)
      requires Valid()
      modifies this
      ensures Valid() && pos >= old(pos)
      ensures var n := NameLength(old(Rest())); name == old(Rest())[..n] && Rest() == old(Rest())[n..]
    {
      ghost var s := Rest();
      var start := pos;
      while pos < |text| && text[pos] !in [EQUALS, OPEN, CLOSE]
        invariant Valid() && pos >= start
        invariant forall i :: start <= i < pos ==> text[i] !in [EQUALS, OPEN, CLOSE]
      {
        pos := pos + 1;
      }
      NameEnds(s, pos - start);
      name := text[start..pos];
    }

    /** The octets before the closing parenthesis. */
    method ReadValue() returns (value: Text)
      requires Valid()
      modifies this
      ensures Valid() && pos >= old(pos)
      ensures var n := IndexOf(old(Rest()), CLOSE); value == old(Rest())[..n] && Rest() == old(Rest())[n..]
    {
      ghost var s := Rest();
      var start := pos;
      while pos < |text| && text[pos] != CLOSE
        invariant Valid() && pos >= start
        invariant forall i :: start <= i < pos ==> text[i] != CLOSE
      {
        pos := pos + 1;
      }
      IndexOfUnique(s, CLOSE, pos - start);
      value := text[start..pos];
    }

    method ReadItem() returns (r: bool, node: Filter)
      requires Valid()
      modifies this
      ensures Valid() && pos >= old(pos)
      ensures ParseItem(old(Rest())) == if r then Some((node, Rest())) else None
    {
      hide NameLength, IndexOf, TrimRight, ItemOf;
      ghost var s := Rest();
      node := True;
      var name := ReadName();
      if pos >= |text| || text[pos] != EQUALS {
        return false, True;
      }
      assert Rest()[1..] == text[pos + 1..];
      pos := pos + 1;
      assert Rest() == s[|name| + 1..];
      var value := ReadValue();
      var attribute := TrimName(name);
      if attribute == [] {
        return false, True;
      }
      node := BuildItem(attribute, value);
      return true, node;
    }

    method ReadList() returns (r: bool, children: seq<Filter>)
      requires Valid()
      modifies this
      ensures Valid() && pos >= old(pos)
      ensures ParseList(old(Rest())) == if r then Some((children, Rest())) else None
      decreases |text| - pos, 2
    {
      hide ParseFilter, ParseList;
      children := [];
      ListBefore([], ParseList(Rest()));
      while pos < |text| && text[pos] == OPEN
        invariant Valid() && pos >= old(pos)
        invariant Following(children, ParseList(Rest())) == ParseList(old(Rest()))
        decreases |text| - pos
      {
        ListStep(Rest());
        var child;
        r, child := ReadFilter();
        if !r {
          return;
        }
        ListFollows(children, child, ParseList(Rest()));
        children := children + [child];
      }
      ListStep(Rest());
      ListBefore(children, Some(([], Rest())));
      return true, children;
    }

    /** Between the parentheses: a composite, a negation, or an item. */
    method ReadInside() returns (r: bool, node: Filter)
      requires Valid()
      modifies this
      ensures Valid() && pos >= old(pos)
      ensures ParseInside(old(Rest())) == if r then Some((node, Rest())) else None
      decreases |text| - pos, 0
    {
      hide ParseFilter, ParseList, ParseItem;
      node := True;
      if pos >= |text| {
        return false, True;
      }
      var symbol := text[pos];
      if symbol == AMPERSAND || symbol == BAR {
        assert Rest()[1..] == text[pos + 1..];
        pos := pos + 1;
        var children;
        r, children := ReadList();
        if !r || children == [] {
          return false, True;
        }
        node := if symbol == AMPERSAND then And(children) else Or(children);
      } else if symbol == BANG {
        assert Rest()[1..] == text[pos + 1..];
        pos := pos + 1;
        var child;
        r, child := ReadFilter();
        node := Not([child]);
      } else {
        r, node := ReadItem();
      }
    }

    /** `parseFilter`: what is accepted, the tree and the position are exactly `ParseFilter`'s. */
    method ReadFilter() returns (r: bool, node: Filter)
      requires Valid()
      modifies this
      ensures Valid() && (r ==> pos > old(pos)) && pos >= old(pos)
      ensures ParseFilter(old(Rest())) == if r then Some((node, Rest())) else None
      decreases |text| - pos, 1
    {
      hide SkipSpace, ParseInside;
      node := True;
      SkipSpaces();
      if pos >= |text| || text[pos] != OPEN {
        return false, True;
      }
      assert Rest()[1..] == text[pos + 1..];
      pos := pos + 1;
      SkipSpaces();
      r, node := ReadInside();
      if !r {
        return false, True;
      }
      SkipSpaces();
      if pos >= |text| || text[pos] != CLOSE {
        return false, True;
      }
      assert Rest()[1..] == text[pos + 1..];
      pos := pos + 1;
      return true, node;
    }
  }

  lemma NameEnds(s: Text, n: nat)
    requires n <= |s| && (n < |s| ==> s[n] in [EQUALS, OPEN, CLOSE])
    requires forall i :: 0 <= i < n ==> s[i] !in [EQUALS, OPEN, CLOSE]
    ensures NameLength(s) == n
  {
  }

  method BuildItem(attribute: Text, value: Text) returns (node: Filter)
    ensures node == ItemOf(attribute, value)
  {
    hide SplitAtStars;
    if value == [STAR] {
      return Present(attribute);
    }
    var parts := SplitValue(value);
    if |parts| == 1 {
      return Equality(attribute, value);
    }
    var any: seq<Text> := [];
    var i := 1;
    ghost var middle := parts[1..|parts| - 1];
    assert middle[..0] == [];
    while i + 1 < |parts|
      invariant 1 <= i < |parts|
      invariant any == DropEmpty(middle[..i - 1])
    {
      assert middle[..i] == middle[..i - 1] + [parts[i]];
      DropEmptyPush(middle[..i - 1], parts[i]);
      if parts[i] != [] {
        any := any + [parts[i]];
      }
      i := i + 1;
    }
    assert middle[..i - 1] == middle;
    return Substring(attribute, parts[0], any, parts[|parts| - 1]);
  }

  lemma {:induction false} DropEmptyPush(parts: seq<Text>, part: Text)
    ensures DropEmpty(parts + [part]) == DropEmpty(parts) + if part == [] then [] else [part]
    decreases |parts|
  {
    if parts != [] {
      assert (parts + [part])[1..] == parts[1..] + [part];
      DropEmptyPush(parts[1..], part);
    }
  }

  /** What `ParseList` gives once `done` has been read before it. */
  ghost function Following(done: seq<Filter>, more: Option<(seq<Filter>, Text)>): Option<(seq<Filter>, Text)> {
    if more.None? then None else Some((done + more.value.0, more.value.1))
  }

  lemma ListBefore(done: seq<Filter>, more: Option<(seq<Filter>, Text)>)
    ensures Following([], more) == more
    ensures more.Some? && more.value.0 == [] ==> Following(done, more) == Some((done, more.value.1))
  {
    if more.Some? {
      assert [] + more.value.0 == more.value.0;
      assert done + [] == done;
    }
  }

  lemma ListFollows(done: seq<Filter>, child: Filter, more: Option<(seq<Filter>, Text)>)
    ensures Following(done, Following([child], more)) == Following(done + [child], more)
  {
    if more.Some? {
      assert done + ([child] + more.value.0) == done + [child] + more.value.0;
    }
  }

  lemma ListStep(s: Text)
    ensures s == [] || s[0] != OPEN ==> ParseList(s) == Some(([], s))
    ensures s != [] && s[0] == OPEN ==>
              var child := ParseFilter(s);
              ParseList(s) == if child.None? then None else Following([child.value.0], ParseList(child.value.1))
  {
    hide ParseFilter;
  }

  /** `SearchFilter::parse`. */
  method Parse(text: Text) returns (filter: SearchFilter)
    ensures filter == ParseSearchFilter(text)
  {
    hide ParseFilter, SkipSpace;
    var parser := new Parser(text);
    assert parser.Rest() == text;
    var ok, root := parser.ReadFilter();
    if !ok {
      return SearchFilter(false, True);
    }
    parser.SkipSpaces();
    return SearchFilter(parser.pos == |text|, root);
  }
}
