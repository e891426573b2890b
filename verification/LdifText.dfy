/** LDIF text: lines, trimming, the attribute line, and the one printer both LDIF files share. */
module LdifText {
  import opened Octets
  import opened OrderedKeys
  import opened Entries

  const NEWLINE: byte := '\n' as int
  const RETURN: byte := '\r' as int
  const SPACE: byte := ' ' as int
  const TAB: byte := '\t' as int
  const COLON: byte := ':' as int
  const HASH: byte := '#' as int
  const DN: Text := ['d' as int, 'n' as int]

  // ---------- reading ----------

  /** What repeated `getline` returns: a last piece only when it is not empty. */
  function Lines(text: Text): seq<Text>
    decreases |text|
  {
    if text == [] then []
    else
      var end := IndexOf(text, NEWLINE);
      [text[..end]] + if end == |text| then [] else Lines(text[end + 1..])
  }

  predicate Blank(b: byte) {
    b == SPACE || b == TAB
  }

  function TrimBack(s: Text): Text {
    if s != [] && (s[|s| - 1] == RETURN || Blank(s[|s| - 1])) then TrimBack(s[..|s| - 1]) else s
  }

  function TrimFront(s: Text): Text {
    if s != [] && Blank(s[0]) then TrimFront(s[1..]) else s
  }

  function Trim(s: Text): Text {
    TrimFront(TrimBack(s))
  }

  datatype Item = Item(name: Text, value: Text)

  function SplitLine(line: Text): Option<Item> {
    var colon := IndexOf(line, COLON);
    if colon == |line| then None
    else Some(Item(Trim(line[..colon]), Trim(line[colon + 1..])))
  }

  // ---------- printing ----------

  function AttributeLine(name: Text, value: Text): Text {
    name + [COLON, SPACE] + value
  }

  function ValueLines(name: Text, values: seq<Text>): seq<Text> {
    if values == [] then []
    else [AttributeLine(name, values[0])] + ValueLines(name, values[1..])
  }

  function PairLines(attributes: Attributes, kinds: seq<Text>): seq<Text>
    requires forall k <- kinds :: k in attributes
  {
    if kinds == [] then []
    else
      var k := kinds[|kinds| - 1];
      PairLines(attributes, kinds[..|kinds| - 1]) + ValueLines(k, attributes[k])
  }

  function BodyLines(entry: DirectoryEntry): seq<Text> {
    PairLines(entry.attributes, SortedKeys(entry.attributes.Keys))
  }

  /** A DN line, a line per value, an empty line. */
  function EntryLines(entry: DirectoryEntry): seq<Text> {
    [AttributeLine(DN, entry.dn)] + BodyLines(entry) + [[]]
  }

  function AllLines(entries: seq<DirectoryEntry>): seq<Text> {
    if entries == [] then []
    else AllLines(entries[..|entries| - 1]) + EntryLines(entries[|entries| - 1])
  }

  function Unlines(lines: seq<Text>): Text {
    if lines == [] then [] else lines[0] + [NEWLINE] + Unlines(lines[1..])
  }

  function FormatLdif(entries: seq<DirectoryEntry>): Text {
    Unlines(AllLines(entries))
  }

  // ---------- representable names and values ----------

  predicate Trimmed(s: Text) {
    s == [] || (!Blank(s[0]) && !Blank(s[|s| - 1]) && s[|s| - 1] != RETURN)
  }

  /** No newline inside and no blanks around. */
  predicate ValueOk(v: Text) {
    Trimmed(v) && NEWLINE !in v
  }

  predicate NameOk(name: Text) {
    ValueOk(name) && COLON !in name && (name == [] || name[0] != HASH)
  }

  predicate AttributesFit(attributes: Attributes) {
    forall k <- attributes :: NameOk(k) && k != DN && forall v <- attributes[k] :: ValueOk(v)
  }

  predicate EntryFits(e: DirectoryEntry) {
    e.dn != [] && ValueOk(e.dn) && AttributesFit(e.attributes)
  }

  // ---------- lines come back ----------

  lemma LinesHead(line: Text, rest: Text)
    requires NEWLINE !in line
    ensures Lines(line + [NEWLINE] + rest) == [line] + Lines(rest)
  {
    var text := line + [NEWLINE] + rest;
    assert forall i :: 0 <= i < |line| ==> text[i] in line;
    IndexOfUnique(text, NEWLINE, |line|);
    assert text[..|line|] == line;
    assert text[|line| + 1..] == rest;
  }

  lemma {:induction false} LinesRoundTrip(lines: seq<Text>)
    requires forall l <- lines :: NEWLINE !in l
    ensures Lines(Unlines(lines)) == lines
    decreases |lines|
  {
    if lines != [] {
      assert lines[0] in lines;
      assert forall l <- lines[1..] :: l in lines;
      LinesHead(lines[0], Unlines(lines[1..]));
      LinesRoundTrip(lines[1..]);
      assert lines == [lines[0]] + lines[1..];
    }
  }

  lemma {:induction false} ValueLinesFit(name: Text, values: seq<Text>)
    requires NEWLINE !in name && forall v <- values :: NEWLINE !in v
    ensures forall l <- ValueLines(name, values) :: NEWLINE !in l
    decreases |values|
  {
    if values != [] {
      assert values[0] in values;
      assert forall v <- values[1..] :: v in values;
      ValueLinesFit(name, values[1..]);
      assert NEWLINE !in AttributeLine(name, values[0]);
    }
  }

  lemma {:induction false} PairLinesFit(attributes: Attributes, kinds: seq<Text>)
    requires AttributesFit(attributes) && forall k <- kinds :: k in attributes
    ensures forall l <- PairLines(attributes, kinds) :: NEWLINE !in l
    decreases |kinds|
  {
    if kinds != [] {
      var k := kinds[|kinds| - 1];
      assert k in kinds;
      PairLinesFit(attributes, kinds[..|kinds| - 1]);
      ValueLinesFit(k, attributes[k]);
    }
  }

  lemma {:induction false} AllLinesFit(entries: seq<DirectoryEntry>)
    requires forall e <- entries :: EntryFits(e)
    ensures forall l <- AllLines(entries) :: NEWLINE !in l
    decreases |entries|
  {
    hide AttributesFit, LexLess, PairLines;
    if entries != [] {
      var e := entries[|entries| - 1];
      assert e in entries;
      AllLinesFit(entries[..|entries| - 1]);
      PairLinesFit(e.attributes, SortedKeys(e.attributes.Keys));
      assert NEWLINE !in AttributeLine(DN, e.dn);
    }
  }

  // ---------- one line comes back ----------

  lemma TrimTrimmed(s: Text)
    requires Trimmed(s)
    ensures Trim(s) == s
  {
  }

  lemma TrimAfterSpace(v: Text)
    requires Trimmed(v)
    ensures Trim([SPACE] + v) == v
  {
    var s := [SPACE] + v;
    if v == [] {
      assert s[..0] == [];
      assert TrimBack(s) == [];
    } else {
      assert s[|s| - 1] == v[|v| - 1];
      assert TrimBack(s) == s;
      assert s[1..] == v && TrimFront(v) == v;
      assert TrimFront(s) == v;
    }
  }

  /** The printed line, once trimmed, still splits into its name and its value. */
  lemma AttributeLineSplits(name: Text, value: Text)
    requires Trimmed(name) && Trimmed(value) && COLON !in name
    ensures var line := Trim(AttributeLine(name, value));
            && line == name + [COLON] + (if value == [] then [] else [SPACE] + value)
            && SplitLine(line) == Some(Item(name, value))
  {
    var tail := if value == [] then [] else [SPACE] + value;
    var line := name + [COLON] + tail;
    TrimmedLine(name, value);
    ColonEndsName(name, tail);
    TrimTrimmed(name);
    if value == [] {
      assert Trim([]) == [];
    } else {
      TrimAfterSpace(value);
    }
  }

  lemma ColonEndsName(name: Text, tail: Text)
    requires COLON !in name
    ensures var line := name + [COLON] + tail;
            IndexOf(line, COLON) == |name| && line[..|name|] == name && line[|name| + 1..] == tail
  {
    var line := name + [COLON] + tail;
    assert forall i :: 0 <= i < |name| ==> line[i] in name;
    IndexOfUnique(line, COLON, |name|);
  }

  lemma TrimmedLine(name: Text, value: Text)
    requires Trimmed(name) && Trimmed(value)
    ensures Trim(AttributeLine(name, value)) == name + [COLON] + if value == [] then [] else [SPACE] + value
  {
    var line := AttributeLine(name, value);
    if value == [] {
      var short := name + [COLON];
      assert line[..|line| - 1] == short;
      assert short[|short| - 1] == COLON;
      assert TrimBack(short) == short;
      assert TrimBack(line) == short;
    } else {
      assert line[|line| - 1] == value[|value| - 1];
      assert line == name + [COLON] + ([SPACE] + value);
      assert TrimBack(line) == line;
    }
  }

  // ---------- the printing loops ----------

  lemma {:induction false} UnlinesConcat(a: seq<Text>, b: seq<Text>)
    ensures Unlines(a + b) == Unlines(a) + Unlines(b)
    decreases |a|
  {
    if a == [] {
      assert a + b == b;
    } else {
      assert (a + b)[1..] == a[1..] + b;
      UnlinesConcat(a[1..], b);
    }
  }

  lemma UnlinesOne(line: Text)
    ensures Unlines([line]) == line + [NEWLINE] && Unlines([]) == []
  {
  }

  lemma {:induction false} ValueLinesLast(name: Text, values: seq<Text>, j: nat)
    requires j < |values|
    ensures ValueLines(name, values[..j + 1]) == ValueLines(name, values[..j]) + [AttributeLine(name, values[j])]
    decreases j
  {
    if j > 0 {
      ValueLinesLast(name, values[1..], j - 1);
      assert values[..j + 1][1..] == values[1..][..j];
      assert values[..j][1..] == values[1..][..j - 1];
    }
  }

  /** The values of one type, a line each. */
  method WriteValues(name: Text, values: seq<Text>) returns (out: Text)
    ensures out == Unlines(ValueLines(name, values))
  {
    hide ValueLines, AttributeLine, Unlines;
    out := [];
    var j := 0;
    UnlinesOne([]);
    assert ValueLines(name, values[..0]) == [] by { NoValueLines(name); }
    while j < |values|
      invariant 0 <= j <= |values|
      invariant out == Unlines(ValueLines(name, values[..j]))
    {
      out := out + AttributeLine(name, values[j]) + [NEWLINE];
      ValueLinesLast(name, values, j);
      UnlinesConcat(ValueLines(name, values[..j]), [AttributeLine(name, values[j])]);
      UnlinesOne(AttributeLine(name, values[j]));
      j := j + 1;
    }
    assert values[..|values|] == values;
  }

  lemma NoValueLines(name: Text)
    ensures ValueLines(name, []) == []
  {
  }

  /** One entry: the DN, then each type in map order, then an empty line. */
  method WriteEntry(entry: DirectoryEntry) returns (out: Text)
    ensures out == Unlines(EntryLines(entry))
  {
    hide LexLess, AttributeLine, Unlines, ValueLines, PairLines, SortedKeys;
    var attributes := entry.attributes;
    var kinds := SortedKeys(attributes.Keys);
    ghost var head := [AttributeLine(DN, entry.dn)];
    out := AttributeLine(DN, entry.dn) + [NEWLINE];
    UnlinesOne(AttributeLine(DN, entry.dn));
    var i := 0;
    PairLinesNone(attributes);
    assert kinds[..0] == [] && head + [] == head;
    while i < |kinds|
      invariant 0 <= i <= |kinds|
      invariant out == Unlines(head + PairLines(attributes, kinds[..i]))
    {
      var kind := kinds[i];
      assert kind in kinds;
      var written := WriteValues(kind, attributes[kind]);
      PairLinesLast(attributes, kinds, i);
      UnlinesConcat(head + PairLines(attributes, kinds[..i]), ValueLines(kind, attributes[kind]));
      assert head + PairLines(attributes, kinds[..i + 1])
          == head + PairLines(attributes, kinds[..i]) + ValueLines(kind, attributes[kind]);
      out := out + written;
      i := i + 1;
    }
    assert kinds[..|kinds|] == kinds;
    UnlinesConcat(head + BodyLines(entry), [[]]);
    UnlinesOne([]);
    out := out + [NEWLINE];
  }

  lemma PairLinesNone(attributes: Attributes)
    ensures PairLines(attributes, []) == []
  {
  }

  lemma PairLinesLast(attributes: Attributes, kinds: seq<Text>, i: nat)
    requires i < |kinds| && forall k <- kinds :: k in attributes
    ensures PairLines(attributes, kinds[..i + 1])
         == PairLines(attributes, kinds[..i]) + ValueLines(kinds[i], attributes[kinds[i]])
  {
    assert kinds[..i + 1][..i] == kinds[..i];
  }

  method WriteLdif(entries: seq<DirectoryEntry>) returns (out: Text)
    ensures out == FormatLdif(entries)
  {
    hide Unlines, EntryLines;
    out := [];
    UnlinesOne([]);
    var i := 0;
    while i < |entries|
      invariant 0 <= i <= |entries|
      invariant out == Unlines(AllLines(entries[..i]))
    {
      var written := WriteEntry(entries[i]);
      assert entries[..i + 1][..i] == entries[..i];
      UnlinesConcat(AllLines(entries[..i]), EntryLines(entries[i]));
      out := out + written;
      i := i + 1;
    }
    assert entries[..|entries|] == entries;
  }
}
