/** Exactly which directories survive an export and a fresh import. */
module LdifExactness {
  import opened Octets
  import opened OrderedKeys
  import opened Entries
  import opened Memory
  import opened Acl
  import opened Values
  import opened LdifText
  import opened LdifStore

  predicate ItemFits(name: Text, values: seq<Text>) {
    NameOk(name) && name != DN && forall v <- values :: ValueOk(v)
  }

  /** Attributes that can be written and lose nothing by it. */
  predicate Storable(attributes: Attributes) {
    forall k <- attributes :: ItemFits(k, attributes[k]) && attributes[k] != []
  }

  predicate AllStorable(dir: Directory) {
    forall k <- dir :: dir[k].dn != [] && ValueOk(dir[k].dn) && Storable(dir[k].attributes)
  }

  // ---------- everything imported is tidy ----------

  /** What a line can bring: trimmed and without newlines; a name has no colon and does not start a comment. */
  predicate Imported(name: Text, values: seq<Text>) {
    NameOk(name) && values != [] && forall v <- values :: ValueOk(v)
  }

  predicate AttributesImported(attributes: Attributes) {
    forall k <- attributes :: Imported(k, attributes[k])
  }

  predicate AllImported(dir: Directory) {
    forall k <- dir :: dir[k].dn != [] && ValueOk(dir[k].dn) && AttributesImported(dir[k].attributes)
  }

  predicate StateImported(s: Import) {
    AllImported(s.dir) && ValueOk(s.current.dn) && AttributesImported(s.current.attributes)
  }

  lemma {:induction false} TrimmedBack(s: Text)
    ensures var t := TrimBack(s);
            && t <= s
            && (t != [] ==> !Blank(t[|t| - 1]) && t[|t| - 1] != RETURN)
    decreases |s|
  {
    if s != [] && (s[|s| - 1] == RETURN || Blank(s[|s| - 1])) {
      TrimmedBack(s[..|s| - 1]);
    }
  }

  lemma {:induction false} TrimmedFront(s: Text)
    ensures var t := TrimFront(s);
            && |t| <= |s| && t == s[|s| - |t|..]
            && (t != [] ==> !Blank(t[0]))
            && (s != [] && !Blank(s[0]) ==> t == s)
    decreases |s|
  {
    if s != [] && Blank(s[0]) {
      TrimmedFront(s[1..]);
    }
  }

  /** Trimming gives a trimmed piece of the text; a first octet that is no blank stays first. */
  lemma TrimGives(s: Text)
    ensures Trimmed(Trim(s)) && forall b <- Trim(s) :: b in s
    ensures s != [] && !Blank(s[0]) && Trim(s) != [] ==> Trim(s)[0] == s[0]
  {
    var t := TrimBack(s);
    TrimmedBack(s);
    TrimmedFront(t);
    var u := TrimFront(t);
    if u != [] {
      assert u[|u| - 1] == t[|t| - 1];
      assert t[0] == s[0];
    }
    forall b | b in u ensures b in s {
      assert b in t;
    }
  }

  lemma SplitGives(line: Text)
    requires Trimmed(line) && NEWLINE !in line && line != [] && line[0] != HASH && SplitLine(line).Some?
    ensures NameOk(SplitLine(line).value.name) && ValueOk(SplitLine(line).value.value)
  {
    hide Trim;
    var colon := IndexOf(line, COLON);
    var name, value := line[..colon], line[colon + 1..];
    TrimGives(name);
    TrimGives(value);
    assert COLON !in name && NEWLINE !in name && NEWLINE !in value;
    assert name != [] ==> name[0] == line[0];
    assert colon == 0 ==> Trim(name) == [] by {
      assert |name| == colon;
      EmptyTrims();
    }
  }

  lemma EmptyTrims()
    ensures Trim([]) == []
  {
  }

  lemma PushImported(attributes: Attributes, name: Text, value: Text)
    requires AttributesImported(attributes) && NameOk(name) && ValueOk(value)
    ensures AttributesImported(PushValue(attributes, name, value))
  {
    hide NameOk, ValueOk;
  }

  lemma FlushImported(s: Import)
    requires StateImported(s)
    ensures StateImported(Flush(s))
  {
    hide AttributesImported, ValueOk, FindKey;
    EmptyImported();
  }

  lemma EmptyImported()
    ensures ValueOk([]) && AttributesImported(map[])
  {
  }

  lemma LineImported(s: Import, raw: Text)
    requires StateImported(s) && NEWLINE !in raw
    ensures StateImported(ImportLine(s, raw))
  {
    hide Trim, Flush, PushValue, SplitLine, AllImported, AttributesImported, NameOk;
    var line := Trim(raw);
    TrimGives(raw);
    FlushImported(s);
    if line != [] && line[0] != HASH {
      if |line| >= 3 && line[..3] == DN + [COLON] {
        TrimGives(line[3..]);
      } else if SplitLine(line).Some? {
        var item := SplitLine(line).value;
        SplitGives(line);
        PushImported(s.current.attributes, item.name, item.value);
      }
    }
  }

  lemma {:induction false} LinesImported(s: Import, lines: seq<Text>)
    requires StateImported(s) && forall l <- lines :: NEWLINE !in l
    ensures StateImported(ImportLines(s, lines))
    decreases |lines|
  {
    hide StateImported, ImportLine;
    if lines != [] {
      assert lines[0] in lines;
      assert forall l <- lines[1..] :: l in lines;
      LineImported(s, lines[0]);
      LinesImported(ImportLine(s, lines[0]), lines[1..]);
    }
  }

  lemma {:induction false} LinesHaveNoNewline(text: Text)
    ensures forall l <- Lines(text) :: NEWLINE !in l
    decreases |text|
  {
    if text != [] {
      var end := IndexOf(text, NEWLINE);
      if end < |text| {
        LinesHaveNoNewline(text[end + 1..]);
      }
    }
  }

  /** Whatever the file holds, what is imported from it is tidy. */
  lemma ImportIsTidy(text: Text)
    ensures AllImported(ImportFile(text))
  {
    hide Lines, ImportLines, Flush, AllImported, ValueOk, AttributesImported;
    LinesHaveNoNewline(text);
    EmptyImported();
    NothingImported();
    LinesImported(Import(map[], EMPTY), Lines(text));
    FlushImported(ImportLines(Import(map[], EMPTY), Lines(text)));
  }

  lemma NothingImported()
    ensures AllImported(map[])
  {
  }

  // ---------- no attribute comes back as `dn` ----------

  predicate NoDn(dir: Directory) {
    forall k <- dir :: DN !in dir[k].attributes
  }

  predicate StateNoDn(s: Import) {
    NoDn(s.dir) && DN !in s.current.attributes
  }

  /** An empty line, or a printed attribute line of a tidy name and value. */
  ghost predicate Printed(line: Text) {
    line == [] || exists name, value :: IsPrinted(line, name, value)
  }

  predicate IsPrinted(line: Text, name: Text, value: Text) {
    line == AttributeLine(name, value) && Trimmed(name) && Trimmed(value) && COLON !in name
  }

  lemma FlushNoDn(s: Import)
    requires StateNoDn(s)
    ensures StateNoDn(Flush(s))
  {
    hide FindKey;
  }

  lemma PrintedLineNoDn(s: Import, line: Text)
    requires StateNoDn(s) && Printed(line)
    ensures StateNoDn(ImportLine(s, line))
  {
    hide Trim, SplitLine, AttributeLine, Flush, NoDn;
    FlushNoDn(s);
    if line == [] {
      hide ImportLine;
      ImportBlank(s);
    } else {
      var name, value :| IsPrinted(line, name, value);
      AttributeLineSplits(name, value);
      if name == DN {
        var trimmed := Trim(line);
        assert trimmed[..3] == DN + [COLON];
      }
    }
  }

  lemma {:induction false} PrintedLinesNoDn(s: Import, lines: seq<Text>)
    requires StateNoDn(s) && forall l <- lines :: Printed(l)
    ensures StateNoDn(ImportLines(s, lines))
    decreases |lines|
  {
    hide StateNoDn, ImportLine, Printed;
    if lines != [] {
      assert lines[0] in lines;
      assert forall l <- lines[1..] :: l in lines;
      PrintedLineNoDn(s, lines[0]);
      PrintedLinesNoDn(ImportLine(s, lines[0]), lines[1..]);
    }
  }

  lemma {:induction false} ValuesPrinted(name: Text, values: seq<Text>)
    requires NameOk(name) && forall v <- values :: ValueOk(v)
    ensures forall l <- ValueLines(name, values) :: Printed(l) && NEWLINE !in l
    decreases |values|
  {
    if values != [] {
      assert values[0] in values;
      assert forall v <- values[1..] :: v in values;
      ValuesPrinted(name, values[1..]);
      assert IsPrinted(AttributeLine(name, values[0]), name, values[0]);
      assert NEWLINE !in AttributeLine(name, values[0]);
    }
  }

  lemma {:induction false} PairsPrinted(attributes: Attributes, kinds: seq<Text>)
    requires AttributesImported(attributes) && forall k <- kinds :: k in attributes
    ensures forall l <- PairLines(attributes, kinds) :: Printed(l) && NEWLINE !in l
    decreases |kinds|
  {
    hide Printed, NameOk, ValueOk;
    if kinds != [] {
      var k := kinds[|kinds| - 1];
      assert k in kinds;
      PairsPrinted(attributes, kinds[..|kinds| - 1]);
      ValuesPrinted(k, attributes[k]);
    }
  }

  predicate EntryImported(e: DirectoryEntry) {
    e.dn != [] && ValueOk(e.dn) && AttributesImported(e.attributes)
  }

  lemma {:induction false} AllPrinted(entries: seq<DirectoryEntry>)
    requires forall e <- entries :: EntryImported(e)
    ensures forall l <- AllLines(entries) :: Printed(l) && NEWLINE !in l
    decreases |entries|
  {
    hide AttributesImported, LexLess, PairLines, SortedKeys;
    if entries != [] {
      var e := entries[|entries| - 1];
      assert e in entries;
      AllPrinted(entries[..|entries| - 1]);
      PairsPrinted(e.attributes, SortedKeys(e.attributes.Keys));
      assert IsPrinted(AttributeLine(DN, e.dn), DN, e.dn);
      assert NEWLINE !in AttributeLine(DN, e.dn);
    }
  }

  /** The export of a tidy directory brings back no attribute named `dn`. */
  lemma RestoredHasNoDn(dir: Directory)
    requires AllImported(dir)
    ensures NoDn(ImportFile(ExportFile(dir)))
  {
    hide Collect, Lines, Unlines, AllLines, ImportLines, Flush, EntriesOf, SortedKeys, Printed, EntryImported, AllImported;
    var ks := SortedKeys(dir.Keys);
    CollectEverything(dir, ks);
    var entries := EntriesOf(dir, ks);
    forall e | e in entries ensures EntryImported(e) {
      EntriesImported(dir, e);
    }
    AllPrinted(entries);
    LinesRoundTrip(AllLines(entries));
    PrintedLinesNoDn(Import(map[], EMPTY), AllLines(entries));
    FlushNoDn(ImportLines(Import(map[], EMPTY), AllLines(entries)));
  }

  lemma EntriesImported(dir: Directory, e: DirectoryEntry)
    requires AllImported(dir) && exists k :: k in dir && dir[k] == e
    ensures EntryImported(e)
  {
  }

  // ---------- the equivalence ----------

  lemma StorableIs(dir: Directory)
    ensures AllStorable(dir) <==> AllImported(dir) && NoDn(dir)
  {
    hide NameOk, ValueOk;
    forall k | k in dir ensures Storable(dir[k].attributes) <==> AttributesImported(dir[k].attributes) && DN !in dir[k].attributes {
    }
  }

  lemma StorableRestores(dir: Directory)
    requires UniqueKeys(dir) && KeysMatch(dir) && AllStorable(dir)
    ensures ImportFile(ExportFile(dir)) == dir
  {
    hide ImportFile, ExportFile, UniqueKeys, NameOk, ValueOk;
    forall k | k in dir ensures EntryFits(dir[k]) && HasAllValues(dir[k].attributes) {
    }
    ExportImportRestores(dir);
  }

  /** A consistent directory is restored exactly when every DN, type and value can be written, no type is called `dn`,
      and every type has a value. */
  lemma RestoredExactly(dir: Directory)
    requires UniqueKeys(dir) && KeysMatch(dir)
    ensures ImportFile(ExportFile(dir)) == dir <==> AllStorable(dir)
  {
    hide ImportFile, ExportFile, AllStorable, AllImported, NoDn, UniqueKeys, KeysMatch;
    if AllStorable(dir) {
      StorableRestores(dir);
    }
    if ImportFile(ExportFile(dir)) == dir {
      ImportIsTidy(ExportFile(dir));
      RestoredHasNoDn(dir);
      StorableIs(dir);
    }
  }
}
