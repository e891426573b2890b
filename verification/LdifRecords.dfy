/** LDIF records for the command-line tools and the database seed: parsing inverts formatting. */
module LdifRecords {
  import opened Octets
  import opened OrderedKeys
  import opened Entries
  import opened Values
  import opened LdifText

  datatype ChangeType = Content | AddChange | ModifyChange | DeleteChange | ModrdnChange

  datatype LdifRecord = LdifRecord(dn: Text, changeType: ChangeType, entry: DirectoryEntry,
                                   changes: seq<AttributeModification>, newRdn: Text, deleteOldRdn: bool,
                                   newSuperior: Text)

  const BLANK_RECORD: LdifRecord := LdifRecord([], Content, DirectoryEntry([], map[]), [], [], true, [])

  const VERSION: Text := Ascii("version:")
  const CHANGE_TYPE: Text := Ascii("changetype")
  const NEW_RDN: Text := Ascii("newrdn")
  const DELETE_OLD_RDN: Text := Ascii("deleteoldrdn")
  const NEW_SUPERIOR: Text := Ascii("newsuperior")
  const ADD_WORD: Text := Ascii("add")
  const DELETE_WORD: Text := Ascii("delete")
  const REPLACE_WORD: Text := Ascii("replace")

  function ParseChangeType(value: Text): ChangeType {
    if IEquals(value, ADD_WORD) then AddChange
    else if IEquals(value, Ascii("modify")) then ModifyChange
    else if IEquals(value, DELETE_WORD) then DeleteChange
    else if IEquals(value, Ascii("modrdn")) || IEquals(value, Ascii("moddn")) then ModrdnChange
    else Content
  }

  function ParseModifyOp(value: Text): ModifyOp {
    if IEquals(value, ADD_WORD) then ADD else if IEquals(value, DELETE_WORD) then DELETE else REPLACE
  }

  /** The parser's loop variables; a change is being collected or not. */
  datatype Parse = Parse(records: seq<LdifRecord>, current: LdifRecord, change: Option<AttributeModification>)

  function FlushChange(s: Parse): Parse {
    match s.change
    case None => s
    case Some(c) => s.(current := s.current.(changes := s.current.changes + [c]), change := None)
  }

  function FlushRecord(s: Parse): Parse {
    var f := FlushChange(s);
    if f.current.dn == [] then f
    else Parse(f.records + [f.current.(entry := f.current.entry.(dn := f.current.dn))], BLANK_RECORD, f.change)
  }

  function ParseItem(s: Parse, name: Text, value: Text): Parse {
    if IEquals(name, DN) then
      var f := FlushRecord(s);
      f.(current := f.current.(dn := value))
    else if IEquals(name, CHANGE_TYPE) then s.(current := s.current.(changeType := ParseChangeType(value)))
    else if IEquals(name, NEW_RDN) then s.(current := s.current.(newRdn := value))
    else if IEquals(name, DELETE_OLD_RDN) then
      s.(current := s.current.(deleteOldRdn := value == Ascii("1") || IEquals(value, Ascii("true"))))
    else if IEquals(name, NEW_SUPERIOR) then s.(current := s.current.(newSuperior := value))
    else if IEquals(name, ADD_WORD) || IEquals(name, DELETE_WORD) || IEquals(name, REPLACE_WORD) then
      FlushChange(s).(change := Some(AttributeModification(ParseModifyOp(name), value, [])))
    else ParsePlainItem(s, name, value)
  }

  /** An attribute line; it also feeds the change being collected for its type. */
  function ParsePlainItem(s: Parse, name: Text, value: Text): Parse {
    var entry := s.current.entry;
    var pushed := s.current.(entry := entry.(attributes := PushValue(entry.attributes, name, value)));
    var change :=
      if s.change.Some? && IEquals(s.change.value.attribute, name) then
        Some(s.change.value.(values := s.change.value.values + [value]))
      else s.change;
    s.(current := pushed, change := change)
  }

  function ParseLine(s: Parse, raw: Text): Parse {
    var line := Trim(raw);
    if line == [] then FlushRecord(s)
    else if line[0] == HASH then s
    else if IEquals(line[..if |line| < 8 then |line| else 8], VERSION) then s
    else
      match SplitLine(line)
      case None => if line == Ascii("-") then FlushChange(s) else s
      case Some(item) => ParseItem(s, item.name, item.value)
  }

  function ParseLines(s: Parse, lines: seq<Text>): Parse
    decreases |lines|
  {
    if lines == [] then s else ParseLines(ParseLine(s, lines[0]), lines[1..])
  }

  const START: Parse := Parse([], BLANK_RECORD, None)

  function ParseLdifText(text: Text): seq<LdifRecord> {
    FlushRecord(ParseLines(START, Lines(text))).records
  }

  // ---------- what content lines may be called ----------

  /** Names the parser keeps for itself, with the version line's name. */
  predicate Reserved(name: Text) {
    || IEquals(name, DN) || IEquals(name, CHANGE_TYPE) || IEquals(name, NEW_RDN) || IEquals(name, DELETE_OLD_RDN)
    || IEquals(name, NEW_SUPERIOR) || IEquals(name, ADD_WORD) || IEquals(name, DELETE_WORD) || IEquals(name, REPLACE_WORD)
    || IEquals(name + [COLON], VERSION)
  }

  predicate ContentFits(e: DirectoryEntry) {
    EntryFits(e) && forall k <- e.attributes :: !Reserved(k)
  }

  /** The record a plain entry comes back as. */
  function ContentRecord(e: DirectoryEntry): LdifRecord {
    BLANK_RECORD.(dn := e.dn, entry := DirectoryEntry(e.dn, Kept(e.attributes)))
  }

  // ---------- line by line ----------

  lemma {:induction false} ParseConcat(s: Parse, a: seq<Text>, b: seq<Text>)
    ensures ParseLines(s, a + b) == ParseLines(ParseLines(s, a), b)
    decreases |a|
  {
    hide ParseLine;
    if a == [] {
      assert a + b == b;
    } else {
      assert (a + b)[1..] == a[1..] + b;
      ParseConcat(ParseLine(s, a[0]), a[1..], b);
    }
  }

  lemma ParseOne(s: Parse, line: Text)
    ensures ParseLines(s, [line]) == ParseLine(s, line)
    ensures ParseLines(s, []) == s
  {
    hide ParseLine;
  }

  lemma ColonFolds(s: Text, i: nat)
    requires i < |s|
    ensures Lower(s)[i] == COLON <==> s[i] == COLON
  {
  }

  lemma VersionColon()
    ensures |VERSION| == 8 && Lower(VERSION)[7] == COLON && forall i :: 0 <= i < 7 ==> Lower(VERSION)[i] != COLON
  {
  }

  /** A line is taken for the version line only when its name is `version`. */
  lemma NotVersionLine(name: Text, tail: Text)
    requires COLON !in name && !IEquals(name + [COLON], VERSION)
    ensures var line := name + [COLON] + tail;
            !IEquals(line[..if |line| < 8 then |line| else 8], VERSION)
  {
    hide Lower;
    VersionColon();
    var line := name + [COLON] + tail;
    var cut := line[..if |line| < 8 then |line| else 8];
    if |cut| != 8 {
      assert |Lower(cut)| != |Lower(VERSION)|;
    } else if |name| == 7 {
      assert cut == name + [COLON];
    } else {
      var i := if |name| < 7 then |name| else 7;
      assert |name| > 7 ==> cut[7] == name[7] && name[7] in name;
      assert cut[i] == COLON <==> i < 7;
      ColonFolds(cut, i);
      assert Lower(cut)[i] != Lower(VERSION)[i];
    }
  }

  lemma ParseAttribute(s: Parse, name: Text, value: Text)
    requires NameOk(name) && !Reserved(name) && ValueOk(value)
    ensures ParseLine(s, AttributeLine(name, value)) == ParsePlainItem(s, name, value)
  {
    hide PushValue, Trim, SplitLine, AttributeLine, FlushRecord, IEquals, ParsePlainItem;
    AttributeLineSplits(name, value);
    NotVersionLine(name, if value == [] then [] else [SPACE] + value);
    assert name != [] ==> (name + [COLON] + if value == [] then [] else [SPACE] + value)[0] == name[0];
  }

  lemma ParseDn(s: Parse, dn: Text)
    requires dn != [] && ValueOk(dn)
    ensures ParseLine(s, AttributeLine(DN, dn)) == FlushRecord(s).(current := FlushRecord(s).current.(dn := dn))
  {
    hide Trim, SplitLine, AttributeLine, FlushRecord, IEquals;
    AttributeLineSplits(DN, dn);
    assert IEquals(DN, DN) by { SameIsEqual(DN); }
    assert !IEquals(DN + [COLON], VERSION) by {
      if IEquals(DN + [COLON], VERSION) {
        SameLength(DN + [COLON], VERSION);
        VersionColon();
        assert false;
      }
    }
    NotVersionLine(DN, [SPACE] + dn);
  }

  lemma ParseBlank(s: Parse)
    ensures ParseLine(s, []) == FlushRecord(s)
  {
  }

  function WithAttributes(s: Parse, attributes: Attributes): Parse {
    s.(current := s.current.(entry := s.current.entry.(attributes := attributes)))
  }

  lemma {:induction false} ParseValues(s: Parse, name: Text, values: seq<Text>)
    requires NameOk(name) && !Reserved(name) && s.change == None && forall v <- values :: ValueOk(v)
    ensures ParseLines(s, ValueLines(name, values))
         == WithAttributes(s, Append(s.current.entry.attributes, name, values))
    decreases |values|
  {
    hide ParseLine, NameOk, ValueOk, PushValue, Reserved;
    if values != [] {
      hide Append;
      assert values[0] in values;
      assert forall v <- values[1..] :: v in values;
      ParseAttribute(s, name, values[0]);
      var next := WithAttributes(s, PushValue(s.current.entry.attributes, name, values[0]));
      assert ValueLines(name, values)[1..] == ValueLines(name, values[1..]);
      ParseValues(next, name, values[1..]);
      AppendMore(s.current.entry.attributes, name, values);
    }
  }

  lemma {:induction false} ParsePairs(s: Parse, attributes: Attributes, kinds: seq<Text>)
    requires AttributesFit(attributes) && forall k <- kinds :: k in attributes && !Reserved(k)
    requires forall i, j :: 0 <= i < j < |kinds| ==> kinds[i] != kinds[j]
    requires s.current.entry.attributes == map[] && s.change == None
    ensures ParseLines(s, PairLines(attributes, kinds)) == WithAttributes(s, KeptOf(attributes, kinds))
    decreases |kinds|
  {
    hide ParseLines, NameOk, ValueOk, Reserved;
    if kinds == [] {
      ParseOne(s, []);
    } else {
      hide KeptOf, Append;
      var init, k := kinds[..|kinds| - 1], kinds[|kinds| - 1];
      assert kinds == init + [k];
      ParsePairs(s, attributes, init);
      ParseConcat(s, PairLines(attributes, init), ValueLines(k, attributes[k]));
      ParseValues(WithAttributes(s, KeptOf(attributes, init)), k, attributes[k]);
      KeptOneMore(attributes, init, k);
    }
  }

  lemma ParseEntry(records: seq<LdifRecord>, e: DirectoryEntry)
    requires ContentFits(e)
    ensures ParseLines(Parse(records, BLANK_RECORD, None), EntryLines(e))
         == Parse(records + [ContentRecord(e)], BLANK_RECORD, None)
  {
    hide ParseLines, ParseLine, PairLines, AttributesFit, LexLess, KeptOf, ValueOk, Reserved, Kept;
    var s := Parse(records, BLANK_RECORD, None);
    var kinds := SortedKeys(e.attributes.Keys);
    var head := [AttributeLine(DN, e.dn)];
    ParseOne(s, AttributeLine(DN, e.dn));
    ParseDn(s, e.dn);
    var named := s.(current := BLANK_RECORD.(dn := e.dn));
    assert ParseLines(s, head) == named;
    DistinctKeys(e.attributes.Keys);
    ParsePairs(named, e.attributes, kinds);
    KeptOfSorted(e.attributes);
    var filled := WithAttributes(named, Kept(e.attributes));
    assert ParseLines(named, BodyLines(e)) == filled;
    ParseOne(filled, []);
    ParseBlank(filled);
    ParseConcat(s, head + BodyLines(e), [[]]);
    ParseConcat(s, head, BodyLines(e));
  }

  function ContentRecords(entries: seq<DirectoryEntry>): seq<LdifRecord> {
    seq(|entries|, i requires 0 <= i < |entries| => ContentRecord(entries[i]))
  }

  lemma {:induction false} ParseAll(entries: seq<DirectoryEntry>)
    requires forall e <- entries :: ContentFits(e)
    ensures ParseLines(START, AllLines(entries)) == Parse(ContentRecords(entries), BLANK_RECORD, None)
    decreases |entries|
  {
    hide ParseLines, EntryLines, ContentFits, ContentRecord;
    if entries == [] {
      ParseOne(START, []);
    } else {
      var init, e := entries[..|entries| - 1], entries[|entries| - 1];
      assert e in entries;
      ParseAll(init);
      ParseConcat(START, AllLines(init), EntryLines(e));
      ParseEntry(ContentRecords(init), e);
      assert ContentRecords(entries) == ContentRecords(init) + [ContentRecord(e)];
    }
  }

  /** Parsing formatted entries gives one content record each, in order, with every value in place. */
  lemma FormatThenParse(entries: seq<DirectoryEntry>)
    requires forall e <- entries :: ContentFits(e)
    ensures ParseLdifText(FormatLdif(entries)) == ContentRecords(entries)
    ensures forall i :: 0 <= i < |entries| && HasAllValues(entries[i].attributes) ==>
              ContentRecords(entries)[i].entry == entries[i]
  {
    hide ParseLines, AllLines, EntryFits, Lines, Unlines, Kept, Reserved;
    AllLinesFit(entries);
    LinesRoundTrip(AllLines(entries));
    ParseAll(entries);
    forall i | 0 <= i < |entries| && HasAllValues(entries[i].attributes)
      ensures ContentRecords(entries)[i].entry == entries[i]
    {
      KeptAll(entries[i].attributes);
    }
  }

  // ---------- the parsing loop ----------

  method ReadLdif(text: Text) returns (records: seq<LdifRecord>)
    ensures records == ParseLdifText(text)
  {
    hide Trim, IEquals, SplitLine, ParseItem, FlushRecord, FlushChange;
    var state := START;
    var rest := text;
    while rest != []
      invariant ParseLines(state, Lines(rest)) == ParseLines(START, Lines(text))
      decreases |rest|
    {
      ghost var before := state;
      var end := IndexOf(rest, NEWLINE);
      var raw := rest[..end];
      ghost var all := Lines(rest);
      rest := if end == |rest| then [] else rest[end + 1..];
      assert all == [raw] + Lines(rest);
      assert all[1..] == Lines(rest);
      var line := Trim(raw);
      if line == [] {
        state := FlushRecord(state);
      } else if line[0] == HASH || IEquals(line[..if |line| < 8 then |line| else 8], VERSION) {
      } else {
        match SplitLine(line) {
          case None =>
            if line == Ascii("-") {
              state := FlushChange(state);
            }
          case Some(item) =>
            state := ParseItem(state, item.name, item.value);
        }
      }
      assert state == ParseLine(before, raw);
    }
    return FlushRecord(state).records;
  }
}
