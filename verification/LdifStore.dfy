/** The LDIF file backend: importing the exported file restores the directory. */
module LdifStore {
  import opened Octets
  import opened OrderedKeys
  import opened Entries
  import opened Filters
  import opened Memory
  import opened Acl
  import opened Values
  import opened LdifText

  const EMPTY: DirectoryEntry := DirectoryEntry([], map[])
  const ALL: SearchFilter := SearchFilter(true, True)

  function ExportFile(dir: Directory): Text {
    FormatLdif(Search(dir, [], SUBTREE, ALL))
  }

  /** The importing loop: the directory so far and the entry being collected. */
  datatype Import = Import(dir: Directory, current: DirectoryEntry)

  function Flush(s: Import): Import {
    if s.current.dn == [] then s else Import(Add(s.dir, s.current).after, EMPTY)
  }

  function ImportLine(s: Import, raw: Text): Import {
    var line := Trim(raw);
    if line == [] then Flush(s)
    else if line[0] == HASH then s
    else if |line| >= 3 && line[..3] == DN + [COLON] then
      var flushed := Flush(s);
      flushed.(current := flushed.current.(dn := Trim(line[3..])))
    else
      match SplitLine(line)
      case None => s
      case Some(item) =>
        s.(current := s.current.(attributes := PushValue(s.current.attributes, item.name, item.value)))
  }

  function ImportLines(s: Import, lines: seq<Text>): Import
    decreases |lines|
  {
    if lines == [] then s else ImportLines(ImportLine(s, lines[0]), lines[1..])
  }

  /** `initialize` on a fresh backend. */
  function ImportFile(text: Text): Directory {
    Flush(ImportLines(Import(map[], EMPTY), Lines(text))).dir
  }

  // ---------- line by line ----------

  lemma {:induction false} ImportConcat(s: Import, a: seq<Text>, b: seq<Text>)
    ensures ImportLines(s, a + b) == ImportLines(ImportLines(s, a), b)
    decreases |a|
  {
    hide ImportLine;
    if a == [] {
      assert a + b == b;
    } else {
      assert (a + b)[1..] == a[1..] + b;
      ImportConcat(ImportLine(s, a[0]), a[1..], b);
    }
  }

  lemma ImportOne(s: Import, line: Text)
    ensures ImportLines(s, [line]) == ImportLine(s, line)
  {
    hide ImportLine;
  }

  lemma NotDnLine(name: Text, tail: Text)
    requires COLON !in name && name != DN
    ensures var line := name + [COLON] + tail; !(|line| >= 3 && line[..3] == DN + [COLON])
  {
    var line := name + [COLON] + tail;
    if |name| > 2 {
      assert line[2] == name[2] && name[2] in name;
    } else if |name| == 2 {
      assert line[..2] == name && line[..3][..2] == name;
    } else {
      assert line[|name|] == COLON;
    }
  }

  lemma ImportAttribute(s: Import, name: Text, value: Text)
    requires NameOk(name) && name != DN && ValueOk(value)
    ensures ImportLine(s, AttributeLine(name, value))
         == s.(current := s.current.(attributes := PushValue(s.current.attributes, name, value)))
  {
    hide PushValue, Trim, SplitLine, AttributeLine, Flush;
    AttributeLineSplits(name, value);
    NotDnLine(name, if value == [] then [] else [SPACE] + value);
    assert name != [] ==> (name + [COLON] + if value == [] then [] else [SPACE] + value)[0] == name[0];
  }

  lemma ImportDn(s: Import, dn: Text)
    requires dn != [] && ValueOk(dn)
    ensures ImportLine(s, AttributeLine(DN, dn)) == Flush(s).(current := Flush(s).current.(dn := dn))
  {
    hide Trim, SplitLine, AttributeLine, Flush;
    AttributeLineSplits(DN, dn);
    var line := DN + [COLON] + ([SPACE] + dn);
    assert line[..3] == DN + [COLON] && line[3..] == [SPACE] + dn;
    TrimAfterSpace(dn);
  }

  function WithAttributes(s: Import, attributes: Attributes): Import {
    s.(current := s.current.(attributes := attributes))
  }

  lemma {:induction false} ImportValues(s: Import, name: Text, values: seq<Text>)
    requires NameOk(name) && name != DN && forall v <- values :: ValueOk(v)
    ensures ImportLines(s, ValueLines(name, values))
         == WithAttributes(s, Append(s.current.attributes, name, values))
    decreases |values|
  {
    hide ImportLine, NameOk, ValueOk, PushValue;
    if values != [] {
      hide Append;
      assert values[0] in values;
      assert forall v <- values[1..] :: v in values;
      ImportAttribute(s, name, values[0]);
      var next := WithAttributes(s, PushValue(s.current.attributes, name, values[0]));
      assert ValueLines(name, values)[1..] == ValueLines(name, values[1..]);
      ImportValues(next, name, values[1..]);
      AppendMore(s.current.attributes, name, values);
    }
  }

  lemma {:induction false} ImportPairs(s: Import, attributes: Attributes, kinds: seq<Text>)
    requires AttributesFit(attributes) && forall k <- kinds :: k in attributes
    requires forall i, j :: 0 <= i < j < |kinds| ==> kinds[i] != kinds[j]
    requires s.current.attributes == map[]
    ensures ImportLines(s, PairLines(attributes, kinds)) == WithAttributes(s, KeptOf(attributes, kinds))
    decreases |kinds|
  {
    hide ImportLines, NameOk, ValueOk;
    if kinds == [] {
      ImportNothing(s);
    } else {
      hide KeptOf, Append;
      var init, k := kinds[..|kinds| - 1], kinds[|kinds| - 1];
      assert kinds == init + [k];
      ImportPairs(s, attributes, init);
      ImportConcat(s, PairLines(attributes, init), ValueLines(k, attributes[k]));
      ImportValues(WithAttributes(s, KeptOf(attributes, init)), k, attributes[k]);
      KeptOneMore(attributes, init, k);
    }
  }

  lemma ImportNothing(s: Import)
    ensures ImportLines(s, []) == s
  {
  }

  function KeptEntry(e: DirectoryEntry): DirectoryEntry {
    e.(attributes := Kept(e.attributes))
  }

  /** One printed entry is added, and the collector is empty again. */
  lemma ImportEntry(dir: Directory, e: DirectoryEntry)
    requires EntryFits(e)
    ensures ImportLines(Import(dir, EMPTY), EntryLines(e)) == Import(Add(dir, KeptEntry(e)).after, EMPTY)
  {
    hide ImportLines, ImportLine, PairLines, AttributesFit, LexLess, KeptOf, ValueOk, Add;
    var s := Import(dir, EMPTY);
    var kinds := SortedKeys(e.attributes.Keys);
    var head := [AttributeLine(DN, e.dn)];
    ImportOne(s, AttributeLine(DN, e.dn));
    ImportDn(s, e.dn);
    var named := Import(dir, DirectoryEntry(e.dn, map[]));
    assert ImportLines(s, head) == named;
    DistinctKeys(e.attributes.Keys);
    ImportPairs(named, e.attributes, kinds);
    KeptOfSorted(e.attributes);
    var filled := Import(dir, KeptEntry(e));
    assert ImportLines(named, BodyLines(e)) == filled;
    ImportOne(filled, []);
    ImportBlank(filled);
    ImportConcat(s, head + BodyLines(e), [[]]);
    ImportConcat(s, head, BodyLines(e));
  }

  lemma ImportBlank(s: Import)
    ensures ImportLine(s, []) == Flush(s)
  {
  }

  // ---------- the whole file ----------

  function AddAll(dir: Directory, entries: seq<DirectoryEntry>): Directory {
    if entries == [] then dir
    else Add(AddAll(dir, entries[..|entries| - 1]), KeptEntry(entries[|entries| - 1])).after
  }

  lemma {:induction false} ImportAll(entries: seq<DirectoryEntry>)
    requires forall e <- entries :: EntryFits(e)
    ensures ImportLines(Import(map[], EMPTY), AllLines(entries)) == Import(AddAll(map[], entries), EMPTY)
    decreases |entries|
  {
    hide ImportLines, EntryLines, EntryFits, Add;
    if entries == [] {
      ImportNothing(Import(map[], EMPTY));
    } else {
      var init, e := entries[..|entries| - 1], entries[|entries| - 1];
      assert e in entries;
      ImportAll(init);
      ImportConcat(Import(map[], EMPTY), AllLines(init), EntryLines(e));
      ImportEntry(AddAll(map[], init), e);
    }
  }

  /** The entries of the listed keys. */
  function EntriesOf(dir: Directory, ks: seq<Text>): seq<DirectoryEntry>
    requires forall k <- ks :: k in dir
  {
    if ks == [] then [] else EntriesOf(dir, ks[..|ks| - 1]) + [dir[ks[|ks| - 1]]]
  }

  lemma {:induction false} CollectEverything(dir: Directory, ks: seq<Text>)
    requires forall k <- ks :: k in dir
    ensures Collect(dir, ks, [], SUBTREE, ALL) == EntriesOf(dir, ks)
    ensures forall e <- EntriesOf(dir, ks) :: exists k :: k in dir && dir[k] == e
    decreases |ks|
  {
    if ks != [] {
      CollectEverything(dir, ks[..|ks| - 1]);
      assert ks[|ks| - 1] in ks;
    }
  }

  function KeptEntries(dir: Directory, ks: seq<Text>): Directory
    requires forall k <- ks :: k in dir
  {
    map k | k in ks :: KeptEntry(dir[k])
  }

  lemma AddOneMore(dir: Directory, init: seq<Text>, k: Text)
    requires UniqueKeys(dir) && k in dir && dir[k].dn == k && k !in init && forall x <- init :: x in dir
    ensures Add(KeptEntries(dir, init), KeptEntry(dir[k])).after == KeptEntries(dir, init + [k])
  {
    hide KeptEntry, Lower;
    NotYetThere(dir, init, k);
    KeptEntryDn(dir[k]);
    assert forall x :: x in init + [k] <==> x in init || x == k;
  }

  lemma {:induction false} AddAllKeys(dir: Directory, ks: seq<Text>)
    requires UniqueKeys(dir) && KeysMatch(dir) && forall k <- ks :: k in dir
    requires forall i, j :: 0 <= i < j < |ks| ==> ks[i] != ks[j]
    ensures AddAll(map[], EntriesOf(dir, ks)) == KeptEntries(dir, ks)
    decreases |ks|
  {
    hide KeptEntry, UniqueKeys, Add;
    if ks != [] {
      hide KeptEntries;
      var init, k := ks[..|ks| - 1], ks[|ks| - 1];
      assert ks == init + [k];
      AddAllKeys(dir, init);
      var entries := EntriesOf(dir, ks);
      assert entries[..|entries| - 1] == EntriesOf(dir, init);
      AddOneMore(dir, init, k);
    }
  }

  lemma KeptEntryDn(e: DirectoryEntry)
    ensures KeptEntry(e).dn == e.dn
  {
  }

  lemma NotYetThere(dir: Directory, init: seq<Text>, k: Text)
    requires UniqueKeys(dir) && k in dir && k != [] && k !in init && forall x <- init :: x in dir
    ensures !Has(KeptEntries(dir, init), k)
  {
    hide Lower, KeptEntry;
  }

  /** What an export and a fresh import give back: every entry, without types that have no value. */
  lemma ExportThenImport(dir: Directory)
    requires UniqueKeys(dir) && KeysMatch(dir) && forall k <- dir :: EntryFits(dir[k])
    ensures ImportFile(ExportFile(dir)) == map k | k in dir :: KeptEntry(dir[k])
  {
    hide Collect, LexLess, Lines, Unlines, AllLines, EntryFits, ImportLines, KeptEntry, EntriesOf, AddAll, SortedKeys;
    var ks := SortedKeys(dir.Keys);
    CollectEverything(dir, ks);
    var entries := EntriesOf(dir, ks);
    AllLinesFit(entries);
    LinesRoundTrip(AllLines(entries));
    ImportAll(entries);
    DistinctKeys(dir.Keys);
    AddAllKeys(dir, ks);
  }

  /** The directory is restored exactly when every type of every entry has a value. */
  lemma ExportImportRestores(dir: Directory)
    requires UniqueKeys(dir) && KeysMatch(dir) && forall k <- dir :: EntryFits(dir[k])
    ensures ImportFile(ExportFile(dir)) == dir <==> forall k <- dir :: HasAllValues(dir[k].attributes)
  {
    hide EntryFits, ImportFile, ExportFile, UniqueKeys, Kept;
    ExportThenImport(dir);
    var back := map k | k in dir :: KeptEntry(dir[k]);
    forall k | k in dir ensures back[k] == dir[k] <==> HasAllValues(dir[k].attributes) {
      KeptAll(dir[k].attributes);
    }
    assert back == dir <==> forall k <- dir :: back[k] == dir[k];
  }

  // ---------- the loops over a backend ----------

  /** `importFile`: each flushed entry is added to the backend, whether or not the add succeeds. */
  method ImportText(backend: MemoryBackend, text: Text)
    requires backend.Valid()
    modifies backend
    ensures backend.Valid()
    ensures backend.entries == Flush(ImportLines(Import(old(backend.entries), EMPTY), Lines(text))).dir
  {
    hide Trim, SplitLine, PushValue, Add, UniqueKeys;
    var current := EMPTY;
    var rest := text;
    while rest != []
      invariant backend.Valid()
      invariant ImportLines(Import(backend.entries, current), Lines(rest))
             == ImportLines(Import(old(backend.entries), EMPTY), Lines(text))
      decreases |rest|
    {
      ghost var before := Import(backend.entries, current);
      var end := IndexOf(rest, NEWLINE);
      var raw := rest[..end];
      ghost var all := Lines(rest);
      rest := if end == |rest| then [] else rest[end + 1..];
      assert all == [raw] + Lines(rest);
      assert all[1..] == Lines(rest);
      var line := Trim(raw);
      if line == [] {
        current := FlushInto(backend, current);
      } else if line[0] == HASH {
      } else if |line| >= 3 && line[..3] == DN + [COLON] {
        current := FlushInto(backend, current);
        current := current.(dn := Trim(line[3..]));
      } else {
        match SplitLine(line) {
          case None =>
          case Some(item) =>
            current := current.(attributes := PushValue(current.attributes, item.name, item.value));
        }
      }
      assert Import(backend.entries, current) == ImportLine(before, raw);
    }
    current := FlushInto(backend, current);
  }

  method FlushInto(backend: MemoryBackend, current: DirectoryEntry) returns (next: DirectoryEntry)
    requires backend.Valid()
    modifies backend
    ensures backend.Valid()
    ensures Import(backend.entries, next) == Flush(Import(old(backend.entries), current))
  {
    hide Add, UniqueKeys;
    if current.dn == [] {
      return current;
    }
    var _ := backend.AddEntry(current);
    return EMPTY;
  }

  /** `exportFile`: everything the backend lists, in its order. */
  method ExportText(backend: MemoryBackend) returns (text: Text)
    ensures text == ExportFile(backend.entries)
  {
    hide FormatLdif, Search;
    var entries := backend.SearchEntries([], SUBTREE, ALL);
    text := WriteLdif(entries);
  }
}
