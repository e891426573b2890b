/** The string form of search filters (the subset of section 3 of RFC 4515 the daemon parses). */
module FilterText {
  import opened Octets
  import opened Filters

  const OPEN: byte := '(' as int
  const CLOSE: byte := ')' as int
  const AMPERSAND: byte := '&' as int
  const BAR: byte := '|' as int
  const BANG: byte := '!' as int
  const STAR: byte := '*' as int
  const BACKSLASH: byte := '\\' as int

  // ---------- parsing ----------

  function SkipSpace(s: Text): (r: Text)
    ensures |r| <= |s|
  {
    if s != [] && IsSpace(s[0]) then SkipSpace(s[1..]) else s
  }

  function TrimRight(s: Text): Text {
    if s != [] && IsSpace(s[|s| - 1]) then TrimRight(s[..|s| - 1]) else s
  }

  /** The length of the run of octets before the first of `=`, `(` and `)`. */
  function NameLength(s: Text): (n: nat)
    ensures n <= |s|
    ensures n < |s| ==> s[n] in [EQUALS, OPEN, CLOSE]
    ensures forall i :: 0 <= i < n ==> s[i] !in [EQUALS, OPEN, CLOSE]
  {
    if s == [] || s[0] in [EQUALS, OPEN, CLOSE] then 0 else 1 + NameLength(s[1..])
  }

  /** Splits a value at the stars that no backslash precedes; escapes are kept as written. */
  function SplitAtStars(value: Text, current: Text): (parts: seq<Text>)
    ensures parts != []
    decreases |value|
  {
    if value == [] then [current]
    else if value[0] == BACKSLASH && |value| > 1 then SplitAtStars(value[2..], current + value[..2])
    else if value[0] == STAR then [current] + SplitAtStars(value[1..], [])
    else SplitAtStars(value[1..], current + [value[0]])
  }

  function DropEmpty(parts: seq<Text>): seq<Text> {
    if parts == [] then []
    else (if parts[0] == [] then [] else [parts[0]]) + DropEmpty(parts[1..])
  }

  function ItemOf(attribute: Text, value: Text): Filter {
    var parts := SplitAtStars(value, []);
    if value == [STAR] then Present(attribute)
    else if |parts| == 1 then Equality(attribute, value)
    else Substring(attribute, parts[0], DropEmpty(parts[1..|parts| - 1]), parts[|parts| - 1])
  }

  function ParseItem(s: Text): (r: Option<(Filter, Text)>)
    ensures r.Some? ==> |r.value.1| < |s|
  {
    var n := NameLength(s);
    if n == |s| || s[n] != EQUALS then None
    else
      var after := s[n + 1..];
      var end := IndexOf(after, CLOSE);
      var attribute := TrimRight(s[..n]);
      if attribute == [] then None
      else Some((ItemOf(attribute, after[..end]), after[end..]))
  }

  function ParseList(s: Text): (r: Option<(seq<Filter>, Text)>)
    ensures r.Some? ==> |r.value.1| <= |s|
    decreases |s|, 2
  {
    if s == [] || s[0] != OPEN then Some(([], s))
    else
      var (child, rest) :- ParseFilter(s);
      var (children, more) :- ParseList(rest);
      Some(([child] + children, more))
  }

  /** What follows the opening parenthesis, up to but not including the closing one. */
  function ParseInside(s: Text): (r: Option<(Filter, Text)>)
    ensures r.Some? ==> |r.value.1| < |s|
    decreases |s|, 0
  {
    if s == [] then None
    else if s[0] == AMPERSAND || s[0] == BAR then
      var (children, rest) :- ParseList(s[1..]);
      if children == [] then None
      else Some((if s[0] == AMPERSAND then And(children) else Or(children), rest))
    else if s[0] == BANG then
      var (child, rest) :- ParseFilter(s[1..]);
      Some((Not([child]), rest))
    else ParseItem(s)
  }

  function ParseFilter(s: Text): (r: Option<(Filter, Text)>)
    ensures r.Some? ==> |r.value.1| < |s|
    decreases |s|, 1
  {
    var start := SkipSpace(s);
    if start == [] || start[0] != OPEN then None
    else
      var (node, rest) :- ParseInside(SkipSpace(start[1..]));
      var end := SkipSpace(rest);
      if end == [] || end[0] != CLOSE then None else Some((node, end[1..]))
  }

  function ParseSearchFilter(text: Text): SearchFilter {
    match ParseFilter(text)
    case None => SearchFilter(false, True)
    case Some((root, rest)) => SearchFilter(SkipSpace(rest) == [], root)
  }

  // ---------- printing ----------

  function PrintAll(nodes: seq<Filter>): Text
    decreases nodes
  {
    if nodes == [] then [] else Print(nodes[0]) + PrintAll(nodes[1..])
  }

  function StarAfterEach(any: seq<Text>): Text {
    if any == [] then [] else any[0] + [STAR] + StarAfterEach(any[1..])
  }

  function ValueText(node: Filter): Text
    requires node.Present? || node.Equality? || node.Substring?
  {
    match node
    case Present(_) => [STAR]
    case Equality(_, value) => value
    case Substring(_, initial, any, final) => initial + ([STAR] + (StarAfterEach(any) + final))
  }

  function Print(node: Filter): Text
    decreases node
  {
    match node
    case And(children) => [OPEN, AMPERSAND] + (PrintAll(children) + [CLOSE])
    case Or(children) => [OPEN, BAR] + (PrintAll(children) + [CLOSE])
    case Not(children) => [OPEN, BANG] + (PrintAll(children) + [CLOSE])
    case True => []
    case False => []
    case _ => [OPEN] + (node.attribute + ([EQUALS] + (ValueText(node) + [CLOSE])))
  }

  // ---------- what the printer can express ----------

  predicate NameOk(name: Text) {
    && name != []
    && NameLength(name) == |name|
    && name[0] !in [AMPERSAND, BAR, BANG]
    && !IsSpace(name[0])
    && !IsSpace(name[|name| - 1])
  }

  /** No bare star, and no backslash left open at the end. */
  predicate Closed(c: Text) {
    if c == [] then true
    else if c[0] == BACKSLASH then |c| > 1 && Closed(c[2..])
    else c[0] != STAR && Closed(c[1..])
  }

  predicate NoBareStar(c: Text) {
    if c == [] then true
    else if c[0] == BACKSLASH && |c| > 1 then NoBareStar(c[2..])
    else c[0] != STAR && NoBareStar(c[1..])
  }

  predicate Printable(node: Filter) {
    match node
    case And(children) => children != [] && forall c | c in children :: Printable(c)
    case Or(children) => children != [] && forall c | c in children :: Printable(c)
    case Not(children) => |children| == 1 && Printable(children[0])
    case Present(attribute) => NameOk(attribute)
    case Equality(attribute, value) => NameOk(attribute) && CLOSE !in value && NoBareStar(value)
    case Substring(attribute, initial, any, final) =>
      && NameOk(attribute)
      && CLOSE !in initial && Closed(initial)
      && (forall i :: 0 <= i < |any| ==> any[i] != [] && CLOSE !in any[i] && Closed(any[i]))
      && CLOSE !in final && NoBareStar(final)
      && !(initial == [] && any == [] && final == [])
    case True => false
    case False => false
  }

  // ---------- the parser inverts the printer ----------

  lemma {:induction false} SplitClosed(c: Text, rest: Text, current: Text)
    requires Closed(c)
    ensures SplitAtStars(c + rest, current) == SplitAtStars(rest, current + c)
    decreases |c|
  {
    if c == [] {
      assert c + rest == rest && current + c == current;
    } else if c[0] == BACKSLASH {
      assert (c + rest)[2..] == c[2..] + rest && (c + rest)[..2] == c[..2];
      SplitClosed(c[2..], rest, current + c[..2]);
      assert current + c[..2] + c[2..] == current + c;
    } else {
      assert (c + rest)[1..] == c[1..] + rest;
      SplitClosed(c[1..], rest, current + [c[0]]);
      assert current + [c[0]] + c[1..] == current + c;
    }
  }

  lemma {:induction false} SplitNoBareStar(c: Text, current: Text)
    requires NoBareStar(c)
    ensures SplitAtStars(c, current) == [current + c]
    decreases |c|
  {
    if c == [] {
      assert current + c == current;
    } else if c[0] == BACKSLASH && |c| > 1 {
      SplitNoBareStar(c[2..], current + c[..2]);
      assert current + c[..2] + c[2..] == current + c;
    } else {
      SplitNoBareStar(c[1..], current + [c[0]]);
      assert current + [c[0]] + c[1..] == current + c;
    }
  }

  lemma {:induction false} SplitMiddle(any: seq<Text>, final: Text)
    requires forall i :: 0 <= i < |any| ==> any[i] != [] && Closed(any[i])
    requires NoBareStar(final)
    ensures SplitAtStars(StarAfterEach(any) + final, []) == any + [final]
    decreases |any|
  {
    hide Closed, NoBareStar;
    if any == [] {
      assert StarAfterEach(any) + final == final && [] + final == final;
      SplitNoBareStar(final, []);
    } else {
      var more := StarAfterEach(any[1..]) + final;
      assert StarAfterEach(any) + final == any[0] + ([STAR] + more);
      SplitClosed(any[0], [STAR] + more, []);
      assert [] + any[0] == any[0];
      assert ([STAR] + more)[1..] == more;
      SplitMiddle(any[1..], final);
      assert any + [final] == [any[0]] + (any[1..] + [final]);
    }
  }

  lemma {:induction false} DropEmptyKeeps(parts: seq<Text>)
    requires forall i :: 0 <= i < |parts| ==> parts[i] != []
    ensures DropEmpty(parts) == parts
  {
    if parts != [] {
      DropEmptyKeeps(parts[1..]);
      assert parts == [parts[0]] + parts[1..];
    }
  }

  lemma {:induction false} NoCloseInMiddle(any: seq<Text>)
    requires forall i :: 0 <= i < |any| ==> CLOSE !in any[i]
    ensures CLOSE !in StarAfterEach(any)
  {
    if any != [] {
      NoCloseInMiddle(any[1..]);
    }
  }

  /** The value text of a printable leaf is classified back as the same leaf. */
  lemma LeafValue(node: Filter)
    requires (node.Present? || node.Equality? || node.Substring?) && Printable(node)
    ensures CLOSE !in ValueText(node) && ItemOf(node.attribute, ValueText(node)) == node
  {
    hide SplitAtStars, StarAfterEach, DropEmpty, NameOk;
    match node
    case Present(_) =>
    case Equality(_, value) =>
      SplitNoBareStar(value, []);
      assert [] + value == value;
    case Substring(attribute, initial, any, final) =>
      var value := ValueText(node);
      var more := StarAfterEach(any) + final;
      NoCloseInMiddle(any);
      assert value == initial + ([STAR] + more);
      SplitSubstring(initial, any, final);
      var parts := [initial] + any + [final];
      assert parts[1..|parts| - 1] == any;
      DropEmptyKeeps(any);
      if value == [STAR] {
        assert |initial| == 0 && |more| == 0;
        assert |final| == 0 && |StarAfterEach(any)| == 0;
        StarAfterEachNonEmpty(any);
        assert false;
      }
  }

  lemma StarAfterEachNonEmpty(any: seq<Text>)
    ensures StarAfterEach(any) == [] ==> any == []
  {
  }

  lemma SplitSubstring(initial: Text, any: seq<Text>, final: Text)
    requires Closed(initial) && NoBareStar(final)
    requires forall i :: 0 <= i < |any| ==> any[i] != [] && Closed(any[i])
    ensures SplitAtStars(initial + ([STAR] + (StarAfterEach(any) + final)), []) == [initial] + any + [final]
  {
    hide StarAfterEach, Closed, NoBareStar;
    var more := StarAfterEach(any) + final;
    SplitClosed(initial, [STAR] + more, []);
    assert [] + initial == initial && ([STAR] + more)[1..] == more;
    SplitMiddle(any, final);
    assert [initial] + any + [final] == [initial] + (any + [final]);
  }

  lemma NameLengthStops(name: Text, rest: Text)
    requires NameLength(name) == |name| && rest != [] && rest[0] in [EQUALS, OPEN, CLOSE]
    ensures NameLength(name + rest) == |name|
  {
    assert forall i :: 0 <= i < |name| ==> (name + rest)[i] == name[i];
    assert (name + rest)[|name|] == rest[0];
  }

  lemma LeafRoundTrip(node: Filter, tail: Text)
    requires (node.Present? || node.Equality? || node.Substring?) && Printable(node)
    ensures ParseItem(node.attribute + ([EQUALS] + (ValueText(node) + ([CLOSE] + tail)))) == Some((node, [CLOSE] + tail))
  {
    hide ItemOf, ValueText, NameLength, IndexOf;
    var name, value := node.attribute, ValueText(node);
    var after := value + ([CLOSE] + tail);
    var s := name + ([EQUALS] + after);
    LeafValue(node);
    NameLengthStops(name, [EQUALS] + after);
    assert s[|name| + 1..] == after && s[..|name|] == name && s[|name|] == EQUALS;
    IndexOfUnique(after, CLOSE, |value|);
    assert after[..|value|] == value && after[|value|..] == [CLOSE] + tail;
  }

  lemma SkipNone(s: Text)
    requires s == [] || !IsSpace(s[0])
    ensures SkipSpace(s) == s
  {
  }

  function Symbol(node: Filter): byte {
    if node.And? then AMPERSAND else if node.Or? then BAR else BANG
  }

  lemma SinglePrint(node: Filter)
    ensures PrintAll([node]) == Print(node)
  {
    assert PrintAll([node][1..]) == [];
  }

  lemma {:induction false} CompositeInside(node: Filter, close: Text)
    requires (node.And? || node.Or? || node.Not?) && Printable(node)
    requires close != [] && close[0] == CLOSE
    ensures ParseInside([Symbol(node)] + (PrintAll(node.children) + close)) == Some((node, close))
    decreases node, 0
  {
    hide ParseItem, ParseList, ParseFilter, Print, PrintAll;
    var inside := PrintAll(node.children) + close;
    assert ([Symbol(node)] + inside)[1..] == inside;
    if node.Not? {
      var child := node.children[0];
      assert node.children == [child];
      SinglePrint(child);
      PrintedFilterParses(child, close);
    } else {
      PrintedListParses(node.children, close);
    }
  }

  /** One printed filter, whatever follows it, parses to that filter and leaves exactly what follows. */
  lemma {:induction false} PrintedFilterParses(node: Filter, tail: Text)
    requires Printable(node)
    ensures ParseFilter(Print(node) + tail) == Some((node, tail))
    decreases node, 1
  {
    hide ValueText, ParseInside, PrintAll, NameOk, SkipSpace;
    var close := [CLOSE] + tail;
    var s := Print(node) + tail;
    SkipNone(close);
    SkipNone(s);
    assert close[1..] == tail;
    if node.And? || node.Or? || node.Not? {
      CompositeInside(node, close);
      assert s[1..] == [Symbol(node)] + (PrintAll(node.children) + close);
      SkipNone(s[1..]);
    } else {
      LeafInside(node, tail);
      assert s[1..] == node.attribute + ([EQUALS] + (ValueText(node) + close));
    }
  }

  lemma LeafInside(node: Filter, tail: Text)
    requires (node.Present? || node.Equality? || node.Substring?) && Printable(node)
    ensures var inside := node.attribute + ([EQUALS] + (ValueText(node) + ([CLOSE] + tail)));
            SkipSpace(inside) == inside && ParseInside(inside) == Some((node, [CLOSE] + tail))
  {
    hide ValueText, ParseItem, ParseFilter, ParseList;
    LeafRoundTrip(node, tail);
    var inside := node.attribute + ([EQUALS] + (ValueText(node) + ([CLOSE] + tail)));
    assert inside[0] == node.attribute[0];
    SkipNone(inside);
  }

  lemma {:induction false} PrintedListParses(nodes: seq<Filter>, tail: Text)
    requires forall c | c in nodes :: Printable(c)
    requires tail != [] && tail[0] == CLOSE
    ensures ParseList(PrintAll(nodes) + tail) == Some((nodes, tail))
    decreases nodes, 0
  {
    hide ParseFilter, Print;
    if nodes == [] {
      assert PrintAll(nodes) + tail == tail;
    } else {
      var more := PrintAll(nodes[1..]) + tail;
      assert PrintAll(nodes) + tail == Print(nodes[0]) + more;
      PrintedFilterParses(nodes[0], more);
      PrintedStart(nodes[0]);
      PrintedListParses(nodes[1..], tail);
      assert nodes == [nodes[0]] + nodes[1..];
    }
  }

  lemma PrintedStart(node: Filter)
    requires Printable(node)
    ensures Print(node) != [] && Print(node)[0] == OPEN
  {
  }

  /** `SearchFilter::parse` inverts the printer and consumes the whole text. */
  lemma PrintedTextParses(node: Filter)
    requires Printable(node)
    ensures ParseSearchFilter(Print(node)) == SearchFilter(true, node)
  {
    PrintedFilterParses(node, []);
    assert Print(node) + [] == Print(node);
  }
}
