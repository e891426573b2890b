/** The SQLite backend as relations: a table of DNs, a table of attribute rows, and the same answers as the memory backend. */
module Sqlite {
  import opened Octets
  import opened OrderedKeys
  import opened Entries
  import opened Dn
  import opened Filters
  import opened Memory
  import opened Values

  datatype Row = Row(dn: Text, kind: Text, value: Text, ord: nat)

  /** `entries(dn)`, a primary key, and `attributes(dn, type, value, ord)`, in storage order. */
  datatype Tables = Tables(entries: set<Text>, rows: seq<Row>)

  /** A column read back as a C string. */
  function ColumnText(t: Text): Text {
    t[..IndexOf(t, 0)]
  }

  // ---------- queries ----------

  /** `WHERE dn = ?1`. */
  function RowsOf(rows: seq<Row>, dn: Text): seq<Row> {
    if rows == [] then []
    else (if rows[0].dn == dn then [rows[0]] else []) + RowsOf(rows[1..], dn)
  }

  /** Row `a` sorts strictly before row `b` under `ORDER BY ord`, or under `ORDER BY dn, ord`. */
  predicate Before(a: Row, b: Row, byDn: bool) {
    if byDn && a.dn != b.dn then LexLess(a.dn, b.dn) else a.ord < b.ord
  }

  function Place(row: Row, sorted: seq<Row>, byDn: bool): seq<Row> {
    if sorted == [] || Before(row, sorted[0], byDn) then [row] + sorted
    else [sorted[0]] + Place(row, sorted[1..], byDn)
  }

  function OrderBy(rows: seq<Row>, byDn: bool): seq<Row> {
    if rows == [] then [] else Place(rows[|rows| - 1], OrderBy(rows[..|rows| - 1], byDn), byDn)
  }

  /** Values regrouped under their types, row by row. */
  function Regroup(attributes: Attributes, rows: seq<Row>): Attributes
    decreases |rows|
  {
    if rows == [] then attributes
    else Regroup(PushValue(attributes, ColumnText(rows[0].kind), ColumnText(rows[0].value)), rows[1..])
  }

  function StoredDn(t: Tables, dn: Text): Option<Text> {
    match FindKey(t.entries, dn)
    case None => None
    case Some(k) => Some(ColumnText(k))
  }

  function LoadAttributes(t: Tables, dn: Text): DirectoryEntry {
    DirectoryEntry(dn, Regroup(map[], OrderBy(RowsOf(t.rows, dn), false)))
  }

  /** Each row pushed into the entry of its DN, when there is one. */
  function PushRows(byDn: Directory, rows: seq<Row>): Directory
    decreases |rows|
  {
    if rows == [] then byDn
    else
      var r, dn := rows[0], ColumnText(rows[0].dn);
      var next :=
        if dn !in byDn then byDn
        else byDn[dn := byDn[dn].(attributes := PushValue(byDn[dn].attributes, ColumnText(r.kind), ColumnText(r.value)))];
      PushRows(next, rows[1..])
  }

  function BareEntries(dns: set<Text>): Directory {
    map dn | dn in (set d | d in dns :: ColumnText(d)) :: DirectoryEntry(dn, map[])
  }

  /** The map `allEntries` builds; its values are listed in key order. */
  function AllEntries(t: Tables): Directory {
    PushRows(BareEntries(t.entries), OrderBy(t.rows, true))
  }

  // ---------- statements ----------

  /** `DELETE FROM attributes WHERE dn = ?1`. */
  function WithoutRows(rows: seq<Row>, dn: Text): seq<Row> {
    if rows == [] then []
    else (if rows[0].dn == dn then [] else [rows[0]]) + WithoutRows(rows[1..], dn)
  }

  /** The rows of one type, numbered from `ord`. */
  function ValueRows(dn: Text, kind: Text, values: seq<Text>, ord: nat): seq<Row> {
    seq(|values|, i requires 0 <= i < |values| => Row(dn, kind, values[i], ord + i))
  }

  /** The rows of the listed types, numbered from zero through all of them. */
  function Flatten(dn: Text, attributes: Attributes, kinds: seq<Text>): seq<Row>
    requires forall k <- kinds :: k in attributes
  {
    if kinds == [] then []
    else
      var before := Flatten(dn, attributes, kinds[..|kinds| - 1]);
      var k := kinds[|kinds| - 1];
      before + ValueRows(dn, k, attributes[k], |before|)
  }

  function EntryRows(entry: DirectoryEntry): seq<Row> {
    Flatten(entry.dn, entry.attributes, SortedKeys(entry.attributes.Keys))
  }

  function WriteAttributes(t: Tables, entry: DirectoryEntry): Tables {
    t.(rows := WithoutRows(t.rows, entry.dn) + EntryRows(entry))
  }

  function RenamedRow(r: Row, from: Text, to: Text): Row {
    if r.dn == from then r.(dn := to) else r
  }

  /** `ON UPDATE CASCADE`. */
  function Renamed(rows: seq<Row>, from: Text, to: Text): seq<Row> {
    if rows == [] then [] else [RenamedRow(rows[0], from, to)] + Renamed(rows[1..], from, to)
  }

  // ---------- the calls ----------

  datatype SqlOutcome = SqlOutcome(ok: bool, after: Tables)

  function SqlLookup(t: Tables, dn: Text): Option<DirectoryEntry> {
    match StoredDn(t, dn)
    case None => None
    case Some(stored) => Some(LoadAttributes(t, stored))
  }

  function SqlAdd(t: Tables, entry: DirectoryEntry): SqlOutcome {
    if entry.dn == [] || StoredDn(t, entry.dn).Some? then SqlOutcome(false, t)
    else SqlOutcome(true, WriteAttributes(t.(entries := t.entries + {entry.dn}), entry))
  }

  function SqlModify(t: Tables, entry: DirectoryEntry): SqlOutcome {
    match StoredDn(t, entry.dn)
    case None => SqlOutcome(false, t)
    case Some(stored) => SqlOutcome(true, WriteAttributes(t, entry.(dn := stored)))
  }

  function SqlRemove(t: Tables, dn: Text): SqlOutcome {
    match StoredDn(t, dn)
    case None => SqlOutcome(false, t)
    case Some(stored) => SqlOutcome(true, Tables(t.entries - {stored}, WithoutRows(t.rows, stored)))
  }

  function SqlRename(t: Tables, from: Text, to: Text): SqlOutcome {
    if from == [] || to == [] then SqlOutcome(false, t)
    else
      match StoredDn(t, from)
      case None => SqlOutcome(false, t)
      case Some(stored) =>
        if DnEquals(from, to) then SqlOutcome(true, t)
        else if StoredDn(t, to).Some? then SqlOutcome(false, t)
        else SqlOutcome(true, Tables(t.entries - {stored} + {to}, Renamed(t.rows, stored, to)))
  }

  function SqlAnswer(t: Tables, call: Call): (Reply, Tables) {
    match call
    case LookupCall(dn) => (Entry(SqlLookup(t, dn)), t)
    case SearchCall(base, scope, filter) =>
      var all := AllEntries(t);
      (Listing(ListMatching(all, SortedKeys(all.Keys), base, scope, filter)), t)
    case HasChildrenCall(dn) => var all := AllEntries(t); (Flag(exists k | k in all :: DnIsOneLevelChild(all[k].dn, dn)), t)
    case AddCall(entry) => var r := SqlAdd(t, entry); (Flag(r.ok), r.after)
    case ModifyCall(entry) => var r := SqlModify(t, entry); (Flag(r.ok), r.after)
    case RemoveCall(dn) => var r := SqlRemove(t, dn); (Flag(r.ok), r.after)
    case RenameCall(from, to) => var r := SqlRename(t, from, to); (Flag(r.ok), r.after)
  }

  /** The listed entries that are in scope, by their own DN, and match. */
  function ListMatching(all: Directory, ks: seq<Text>, base: Text, scope: SearchScope, filter: SearchFilter): seq<DirectoryEntry>
    requires forall k <- ks :: k in all
  {
    if ks == [] then []
    else
      var e := all[ks[|ks| - 1]];
      ListMatching(all, ks[..|ks| - 1], base, scope, filter)
      + if InScope(e.dn, base, scope) && FilterMatches(filter, e) then [e] else []
  }

  function SqlRun(t: Tables, calls: seq<Call>): (seq<Reply>, Tables)
    decreases |calls|
  {
    if calls == [] then ([], t)
    else
      var (reply, next) := SqlAnswer(t, calls[0]);
      var (replies, last) := SqlRun(next, calls[1..]);
      ([reply] + replies, last)
  }

  // ---------- the directory the tables stand for ----------

  function DirectoryOf(t: Tables): Directory {
    map dn | dn in t.entries :: LoadAttributes(t, dn)
  }

  predicate NoNul(t: Text) {
    0 !in t
  }

  predicate RowOk(t: Tables, r: Row) {
    r.dn in t.entries && NoNul(r.kind) && NoNul(r.value)
  }

  /** No two rows of one entry share their `ord`, so `ORDER BY` leaves nothing open. */
  predicate DistinctOrds(rows: seq<Row>) {
    rows == [] || ((forall r <- rows[1..] :: r.dn == rows[0].dn ==> r.ord != rows[0].ord) && DistinctOrds(rows[1..]))
  }

  ghost predicate WellFormed(t: Tables) {
    && UniqueUpToCase(t.entries) && [] !in t.entries
    && DistinctOrds(t.rows)
    && (forall dn <- t.entries :: NoNul(dn))
    && (forall r <- t.rows :: RowOk(t, r))
  }

  lemma ColumnTextWhole(t: Text)
    requires NoNul(t)
    ensures ColumnText(t) == t
  {
  }

  // ---------- flatten and regroup ----------

  lemma {:induction false} AscendingStays(rows: seq<Row>)
    requires forall i :: 0 <= i < |rows| ==> rows[i].ord == i
    ensures OrderBy(rows, false) == rows
    decreases |rows|
  {
    if rows != [] {
      hide OrderBy, Place;
      var init, last := rows[..|rows| - 1], rows[|rows| - 1];
      AscendingStays(init);
      assert forall i :: 0 <= i < |init| ==> init[i].ord == i;
      PlaceLast(last, init);
      assert rows == init + [last];
      OrderOneMore(init, last);
    }
  }

  lemma {:induction false} PlaceLast(row: Row, sorted: seq<Row>)
    requires forall r <- sorted :: r.ord < row.ord
    ensures Place(row, sorted, false) == sorted + [row]
  {
    if sorted != [] {
      PlaceLast(row, sorted[1..]);
      assert sorted == [sorted[0]] + sorted[1..];
    }
  }

  lemma {:induction false} FlattenNumbers(dn: Text, attributes: Attributes, kinds: seq<Text>)
    requires forall k <- kinds :: k in attributes
    ensures forall i :: 0 <= i < |Flatten(dn, attributes, kinds)| ==>
              Flatten(dn, attributes, kinds)[i].dn == dn && Flatten(dn, attributes, kinds)[i].ord == i
  {
    if kinds != [] {
      FlattenNumbers(dn, attributes, kinds[..|kinds| - 1]);
    }
  }

  lemma {:induction false} RegroupConcat(attributes: Attributes, a: seq<Row>, b: seq<Row>)
    ensures Regroup(attributes, a + b) == Regroup(Regroup(attributes, a), b)
    decreases |a|
  {
    if a == [] {
      assert a + b == b;
    } else {
      assert (a + b)[1..] == a[1..] + b;
      RegroupConcat(PushValue(attributes, ColumnText(a[0].kind), ColumnText(a[0].value)), a[1..], b);
    }
  }

  lemma {:induction false} RegroupOneKind(attributes: Attributes, dn: Text, kind: Text, values: seq<Text>, ord: nat)
    requires NoNul(kind) && forall v <- values :: NoNul(v)
    ensures Regroup(attributes, ValueRows(dn, kind, values, ord)) == Append(attributes, kind, values)
    decreases |values|
  {
    hide NoNul, ColumnText;
    if values == [] {
      assert ValueRows(dn, kind, values, ord) == [];
    } else {
      hide Append, PushValue;
      var rows := ValueRows(dn, kind, values, ord);
      assert rows[0] == Row(dn, kind, values[0], ord);
      assert rows[1..] == ValueRows(dn, kind, values[1..], ord + 1);
      assert values[0] in values;
      ColumnTextWhole(kind);
      ColumnTextWhole(values[0]);
      RegroupOneKind(PushValue(attributes, kind, values[0]), dn, kind, values[1..], ord + 1);
      AppendMore(attributes, kind, values);
    }
  }

  predicate AttributesOk(attributes: Attributes) {
    forall k <- attributes :: NoNul(k) && forall v <- attributes[k] :: NoNul(v)
  }

  /** Regrouping the rows of some types gives back their values, types without values dropped. */
  lemma {:induction false} RegroupFlatten(dn: Text, attributes: Attributes, kinds: seq<Text>)
    requires forall k <- kinds :: k in attributes
    requires forall i, j :: 0 <= i < j < |kinds| ==> kinds[i] != kinds[j]
    requires AttributesOk(attributes)
    ensures Regroup(map[], Flatten(dn, attributes, kinds)) == KeptOf(attributes, kinds)
    decreases |kinds|
  {
    if kinds != [] {
      hide Regroup, KeptOf, Append, NoNul, ValueRows;
      var init, k := kinds[..|kinds| - 1], kinds[|kinds| - 1];
      assert kinds == init + [k];
      RegroupFlatten(dn, attributes, init);
      var before := Flatten(dn, attributes, init);
      RegroupConcat(map[], before, ValueRows(dn, k, attributes[k], |before|));
      RegroupOneKind(KeptOf(attributes, init), dn, k, attributes[k], |before|);
      KeptOneMore(attributes, init, k);
    }
  }

  /** Flattening to ordered rows and regrouping keeps exactly the types that have values. */
  lemma EntryRowsRegroup(entry: DirectoryEntry)
    requires AttributesOk(entry.attributes)
    ensures Regroup(map[], OrderBy(EntryRows(entry), false)) == Kept(entry.attributes)
    ensures Kept(entry.attributes) == entry.attributes <==> forall k <- entry.attributes :: entry.attributes[k] != []
  {
    hide Regroup, OrderBy, AttributesOk, LexLess;
    var kinds := SortedKeys(entry.attributes.Keys);
    DistinctKeys(entry.attributes.Keys);
    FlattenNumbers(entry.dn, entry.attributes, kinds);
    AscendingStays(EntryRows(entry));
    RegroupFlatten(entry.dn, entry.attributes, kinds);
    KeptAll(entry.attributes);
  }

  // ---------- statements, seen through RowsOf ----------

  lemma {:induction false} RowsOfConcat(a: seq<Row>, b: seq<Row>, dn: Text)
    ensures RowsOf(a + b, dn) == RowsOf(a, dn) + RowsOf(b, dn)
    decreases |a|
  {
    if a == [] {
      assert a + b == b;
    } else {
      assert (a + b)[1..] == a[1..] + b;
      RowsOfConcat(a[1..], b, dn);
    }
  }

  lemma {:induction false} RowsOfUniform(rows: seq<Row>, owner: Text, dn: Text)
    requires forall r <- rows :: r.dn == owner
    ensures RowsOf(rows, dn) == if dn == owner then rows else []
    decreases |rows|
  {
    if rows != [] {
      assert rows[0] in rows;
      assert forall r <- rows[1..] :: r in rows;
      RowsOfUniform(rows[1..], owner, dn);
      assert rows == [rows[0]] + rows[1..];
    }
  }

  lemma {:induction false} RowsAfterDelete(rows: seq<Row>, gone: Text, dn: Text)
    ensures RowsOf(WithoutRows(rows, gone), dn) == if dn == gone then [] else RowsOf(rows, dn)
    ensures forall r <- WithoutRows(rows, gone) :: r in rows && r.dn != gone
    decreases |rows|
  {
    if rows != [] {
      RowsAfterDelete(rows[1..], gone, dn);
      RowsOfConcat(if rows[0].dn == gone then [] else [rows[0]], WithoutRows(rows[1..], gone), dn);
    }
  }

  lemma {:induction false} RowsOfNone(rows: seq<Row>, dn: Text)
    requires forall r <- rows :: r.dn != dn
    ensures RowsOf(rows, dn) == []
    decreases |rows|
  {
    if rows != [] {
      assert rows[0] in rows;
      assert forall r <- rows[1..] :: r in rows;
      RowsOfNone(rows[1..], dn);
    }
  }

  /** Reading back what was just written; the rows of other entries are untouched. */
  lemma WriteThenLoad(t: Tables, entry: DirectoryEntry, dn: Text)
    requires AttributesOk(entry.attributes)
    ensures var after := WriteAttributes(t, entry);
            LoadAttributes(after, dn)
              == if dn == entry.dn then DirectoryEntry(dn, Kept(entry.attributes)) else LoadAttributes(t, dn)
  {
    hide OrderBy, Regroup, Kept, AttributesOk, Flatten;
    var rows := EntryRows(entry);
    FlattenNumbers(entry.dn, entry.attributes, SortedKeys(entry.attributes.Keys));
    assert forall r <- rows :: r.dn == entry.dn;
    RowsAfterDelete(t.rows, entry.dn, dn);
    RowsOfConcat(WithoutRows(t.rows, entry.dn), rows, dn);
    RowsOfUniform(rows, entry.dn, dn);
    EntryRowsRegroup(entry);
    assert dn == entry.dn ==> RowsOf(WriteAttributes(t, entry).rows, dn) == rows;
    assert dn != entry.dn ==> RowsOf(WriteAttributes(t, entry).rows, dn) == RowsOf(t.rows, dn);
  }

  // ---------- distinct ords ----------

  lemma {:induction false} NumberedDistinct(rows: seq<Row>, base: nat)
    requires forall i :: 0 <= i < |rows| ==> rows[i].ord == base + i
    ensures DistinctOrds(rows)
    decreases |rows|
  {
    if rows != [] {
      NumberedDistinct(rows[1..], base + 1);
    }
  }

  lemma {:induction false} ConcatDistinct(a: seq<Row>, b: seq<Row>)
    requires DistinctOrds(a) && DistinctOrds(b) && forall r <- a, q <- b :: r.dn != q.dn
    ensures DistinctOrds(a + b)
    decreases |a|
  {
    if a == [] {
      assert a + b == b;
    } else {
      assert (a + b)[1..] == a[1..] + b;
      assert a[0] in a && forall r <- a[1..] :: r in a;
      ConcatDistinct(a[1..], b);
    }
  }

  lemma {:induction false} DeleteDistinct(rows: seq<Row>, dn: Text)
    requires DistinctOrds(rows)
    ensures DistinctOrds(WithoutRows(rows, dn))
    decreases |rows|
  {
    if rows != [] {
      var rest := WithoutRows(rows[1..], dn);
      DeleteDistinct(rows[1..], dn);
      RowsAfterDelete(rows[1..], dn, []);
      if rows[0].dn == dn {
        assert WithoutRows(rows, dn) == rest;
      } else {
        assert WithoutRows(rows, dn) == [rows[0]] + rest;
        assert ([rows[0]] + rest)[1..] == rest;
      }
    }
  }

  lemma {:induction false} RenameDistinct(rows: seq<Row>, from: Text, to: Text)
    requires DistinctOrds(rows) && forall r <- rows :: r.dn != to
    ensures DistinctOrds(Renamed(rows, from, to))
    decreases |rows|
  {
    if rows != [] {
      var row, rest := rows[0], rows[1..];
      assert row in rows && forall r <- rest :: r in rows;
      RenameDistinct(rest, from, to);
      RenamedMembers(rest, from, to);
      var renamed := Renamed(rest, from, to);
      forall r | r in renamed && r.dn == RenamedRow(row, from, to).dn ensures r.ord != row.ord {
        var o :| o in rest && r == RenamedRow(o, from, to);
      }
      assert ([RenamedRow(row, from, to)] + renamed)[1..] == renamed;
    }
  }

  lemma WriteDistinct(t: Tables, entry: DirectoryEntry)
    requires DistinctOrds(t.rows)
    ensures DistinctOrds(WriteAttributes(t, entry).rows)
  {
    hide DistinctOrds, WithoutRows, Flatten;
    var rows := EntryRows(entry);
    FlattenNumbers(entry.dn, entry.attributes, SortedKeys(entry.attributes.Keys));
    NumberedDistinct(rows, 0);
    DeleteDistinct(t.rows, entry.dn);
    RowsAfterDelete(t.rows, entry.dn, []);
    assert forall q <- rows :: q.dn == entry.dn;
    ConcatDistinct(WithoutRows(t.rows, entry.dn), rows);
  }

  // ---------- rename ----------

  lemma {:induction false} RowsAfterRename(rows: seq<Row>, from: Text, to: Text, dn: Text)
    requires from != to && forall r <- rows :: r.dn != to
    ensures RowsOf(Renamed(rows, from, to), dn)
         == if dn == to then Renamed(RowsOf(rows, from), from, to) else if dn == from then [] else RowsOf(rows, dn)
    decreases |rows|
  {
    if rows != [] {
      assert rows[0] in rows;
      var row, rest := rows[0], rows[1..];
      assert forall r <- rest :: r in rows;
      RowsAfterRename(rest, from, to, dn);
      RowsOfHead(RenamedRow(row, from, to), Renamed(rest, from, to), dn);
      if row.dn == from {
        RenamedHead(row, RowsOf(rest, from), from, to);
        assert RowsOf(rows, from) == [row] + RowsOf(rest, from);
      } else {
        assert RowsOf(rows, from) == RowsOf(rest, from);
        assert dn != to && row.dn != dn ==> RowsOf(rows, dn) == RowsOf(rest, dn);
      }
    }
  }

  lemma RowsOfHead(row: Row, rest: seq<Row>, dn: Text)
    ensures RowsOf([row] + rest, dn) == (if row.dn == dn then [row] else []) + RowsOf(rest, dn)
  {
    assert ([row] + rest)[1..] == rest;
  }

  lemma RenamedHead(row: Row, rest: seq<Row>, from: Text, to: Text)
    ensures Renamed([row] + rest, from, to) == [RenamedRow(row, from, to)] + Renamed(rest, from, to)
  {
    assert ([row] + rest)[1..] == rest;
  }

  lemma {:induction false} RenamedConcat(a: seq<Row>, b: seq<Row>, from: Text, to: Text)
    ensures Renamed(a + b, from, to) == Renamed(a, from, to) + Renamed(b, from, to)
    decreases |a|
  {
    if a == [] {
      assert a + b == b;
    } else {
      assert (a + b)[1..] == a[1..] + b;
      RenamedConcat(a[1..], b, from, to);
    }
  }

  lemma {:induction false} PlaceRenamed(row: Row, sorted: seq<Row>, from: Text, to: Text)
    ensures Renamed(Place(row, sorted, false), from, to)
         == Place(RenamedRow(row, from, to), Renamed(sorted, from, to), false)
    decreases |sorted|
  {
    if sorted != [] && !Before(row, sorted[0], false) {
      PlaceRenamed(row, sorted[1..], from, to);
      assert Renamed(sorted, from, to)[1..] == Renamed(sorted[1..], from, to);
      RenamedHead(sorted[0], Place(row, sorted[1..], false), from, to);
    } else {
      RenamedHead(row, sorted, from, to);
    }
  }

  lemma {:induction false} OrderRenamed(rows: seq<Row>, from: Text, to: Text)
    ensures OrderBy(Renamed(rows, from, to), false) == Renamed(OrderBy(rows, false), from, to)
    decreases |rows|
  {
    hide RenamedRow;
    if rows != [] {
      var init, last := rows[..|rows| - 1], rows[|rows| - 1];
      OrderRenamed(init, from, to);
      assert rows == init + [last];
      RenamedConcat(init, [last], from, to);
      RenamedHead(last, [], from, to);
      assert [last] + [] == [last];
      OrderOneMore(Renamed(init, from, to), RenamedRow(last, from, to));
      PlaceRenamed(last, OrderBy(init, false), from, to);
    }
  }

  lemma {:induction false} RegroupRenamed(attributes: Attributes, rows: seq<Row>, from: Text, to: Text)
    ensures Regroup(attributes, Renamed(rows, from, to)) == Regroup(attributes, rows)
    decreases |rows|
  {
    if rows != [] {
      RegroupRenamed(PushValue(attributes, ColumnText(rows[0].kind), ColumnText(rows[0].value)), rows[1..], from, to);
    }
  }

  lemma RenameThenLoad(t: Tables, from: Text, to: Text, dn: Text)
    requires WellFormed(t) && from in t.entries && to !in t.entries && dn in t.entries - {from} + {to}
    ensures var after := Tables(t.entries - {from} + {to}, Renamed(t.rows, from, to));
            LoadAttributes(after, dn)
              == if dn == to then LoadAttributes(t, from).(dn := to) else LoadAttributes(t, dn)
  {
    hide OrderBy, Regroup, RowsOf;
    assert forall r <- t.rows :: r.dn != to;
    RowsAfterRename(t.rows, from, to, dn);
    if dn == to {
      OrderRenamed(RowsOf(t.rows, from), from, to);
      RegroupRenamed(map[], OrderBy(RowsOf(t.rows, from), false), from, to);
    }
  }

  // ---------- all entries ----------

  ghost predicate Sorted(rows: seq<Row>) {
    forall i, j :: 0 <= i < j < |rows| ==> !Before(rows[j], rows[i], true)
  }

  lemma BeforeTransitive(a: Row, b: Row, c: Row)
    requires Before(a, b, true) && !Before(c, b, true)
    ensures Before(a, c, true)
  {
    hide LexLess;
    LexTrichotomy(a.dn, b.dn);
    LexTrichotomy(b.dn, c.dn);
    LexTrichotomy(a.dn, c.dn);
    if a.dn != b.dn && b.dn != c.dn {
      LexTransitive(a.dn, b.dn, c.dn);
    }
  }

  lemma BeforeAsymmetric(a: Row, b: Row)
    requires Before(a, b, true)
    ensures !Before(b, a, true)
  {
    hide LexLess;
    LexTrichotomy(a.dn, b.dn);
  }

  lemma {:induction false} PlaceSorted(row: Row, sorted: seq<Row>)
    requires Sorted(sorted)
    ensures Sorted(Place(row, sorted, true))
    ensures forall r <- Place(row, sorted, true) :: r == row || r in sorted
    decreases |sorted|
  {
    hide Before;
    var placed := Place(row, sorted, true);
    if sorted == [] {
    } else if Before(row, sorted[0], true) {
      forall j | 0 < j < |placed| ensures !Before(placed[j], row, true) {
        if j > 1 {
          BeforeTransitive(row, sorted[0], placed[j]);
        }
        BeforeAsymmetric(row, placed[j]);
      }
    } else {
      var rest := Place(row, sorted[1..], true);
      PlaceSorted(row, sorted[1..]);
      forall j | 0 < j < |placed| ensures !Before(placed[j], sorted[0], true) {
        assert placed[j] == rest[j - 1] && rest[j - 1] in rest;
        if placed[j] != row {
          assert placed[j] in sorted[1..];
        }
      }
    }
  }

  /** Rows of one DN keep their `ord` order inside the order by DN and `ord`. */
  lemma {:induction false} PlaceRowsOf(row: Row, sorted: seq<Row>, dn: Text)
    requires Sorted(sorted)
    ensures RowsOf(Place(row, sorted, true), dn)
         == if row.dn == dn then Place(row, RowsOf(sorted, dn), false) else RowsOf(sorted, dn)
    decreases |sorted|
  {
    hide LexLess;
    if sorted == [] {
    } else if Before(row, sorted[0], true) {
      assert ([row] + sorted)[1..] == sorted;
      if row.dn == dn && RowsOf(sorted, dn) != [] {
        var first := RowsOf(sorted, dn)[0];
        RowsOfMembers(sorted, dn);
        assert first in RowsOf(sorted, dn);
        if first != sorted[0] {
          BeforeTransitive(row, sorted[0], first);
        }
      }
    } else {
      PlaceRowsOf(row, sorted[1..], dn);
      var rest := Place(row, sorted[1..], true);
      assert ([sorted[0]] + rest)[1..] == rest;
      if sorted[0].dn == dn {
        assert RowsOf(sorted, dn) == [sorted[0]] + RowsOf(sorted[1..], dn);
        assert RowsOf(sorted, dn)[1..] == RowsOf(sorted[1..], dn);
        assert RowsOf([sorted[0]] + rest, dn) == [sorted[0]] + RowsOf(rest, dn);
      } else {
        assert RowsOf(sorted, dn) == RowsOf(sorted[1..], dn);
        assert RowsOf([sorted[0]] + rest, dn) == RowsOf(rest, dn);
      }
    }
  }

  lemma {:induction false} RowsOfMembers(rows: seq<Row>, dn: Text)
    ensures forall r <- RowsOf(rows, dn) :: r in rows && r.dn == dn
  {
    if rows != [] {
      RowsOfMembers(rows[1..], dn);
    }
  }

  lemma {:induction false} OrderBySorted(rows: seq<Row>)
    ensures Sorted(OrderBy(rows, true))
    ensures forall r <- OrderBy(rows, true) :: r in rows
    decreases |rows|
  {
    hide Before, LexLess;
    if rows != [] {
      OrderBySorted(rows[..|rows| - 1]);
      PlaceSorted(rows[|rows| - 1], OrderBy(rows[..|rows| - 1], true));
    }
  }

  lemma {:induction false} OrderByKeepsDn(rows: seq<Row>, dn: Text)
    ensures RowsOf(OrderBy(rows, true), dn) == OrderBy(RowsOf(rows, dn), false)
    decreases |rows|
  {
    hide Before, LexLess, Sorted, Place, RowsOf;
    if rows == [] {
      RowsOfNone([], dn);
    } else {
      var init, last := rows[..|rows| - 1], rows[|rows| - 1];
      OrderByKeepsDn(init, dn);
      OrderBySorted(init);
      PlaceRowsOf(last, OrderBy(init, true), dn);
      assert rows == init + [last];
      RowsOfConcat(init, [last], dn);
      RowsOfUniform([last], last.dn, dn);
      OrderOneMore(RowsOf(init, dn), last);
    }
  }

  lemma OrderOneMore(rows: seq<Row>, last: Row)
    ensures OrderBy(rows + [last], false) == Place(last, OrderBy(rows, false), false)
    ensures OrderBy(rows + [], false) == OrderBy(rows, false)
  {
    assert (rows + [last])[..|rows|] == rows;
    assert rows + [] == rows;
  }

  lemma {:induction false} PushRowsAt(byDn: Directory, rows: seq<Row>, dn: Text)
    requires dn in byDn && forall r <- rows :: NoNul(r.dn)
    ensures PushRows(byDn, rows).Keys == byDn.Keys
    ensures PushRows(byDn, rows)[dn]
         == byDn[dn].(attributes := Regroup(byDn[dn].attributes, RowsOf(rows, dn)))
    decreases |rows|
  {
    if rows != [] {
      var r := rows[0];
      assert r in rows;
      ColumnTextWhole(r.dn);
      assert forall x <- rows[1..] :: x in rows;
      var next :=
        if r.dn !in byDn then byDn
        else byDn[r.dn := byDn[r.dn].(attributes := PushValue(byDn[r.dn].attributes, ColumnText(r.kind), ColumnText(r.value)))];
      assert next.Keys == byDn.Keys;
      PushRowsAt(next, rows[1..], dn);
      if r.dn == dn {
        assert RowsOf(rows, dn)[0] == r && RowsOf(rows, dn)[1..] == RowsOf(rows[1..], dn);
      } else {
        assert RowsOf(rows, dn) == RowsOf(rows[1..], dn);
      }
    }
  }

  lemma {:induction false} PushRowsKeys(byDn: Directory, rows: seq<Row>)
    ensures PushRows(byDn, rows).Keys == byDn.Keys
    decreases |rows|
  {
    if rows != [] {
      var r, dn := rows[0], ColumnText(rows[0].dn);
      var next :=
        if dn !in byDn then byDn
        else byDn[dn := byDn[dn].(attributes := PushValue(byDn[dn].attributes, ColumnText(r.kind), ColumnText(r.value)))];
      assert next.Keys == byDn.Keys;
      PushRowsKeys(next, rows[1..]);
    }
  }

  /** One scan over all rows builds the same directory as loading every entry by itself. */
  lemma AllEntriesIsDirectory(t: Tables)
    requires WellFormed(t)
    ensures AllEntries(t) == DirectoryOf(t)
  {
    hide OrderBy, Regroup, RowsOf, PushRows;
    var bare := BareEntries(t.entries);
    var rows := OrderBy(t.rows, true);
    forall dn | dn in t.entries ensures ColumnText(dn) == dn {
      ColumnTextWhole(dn);
    }
    BareKeys(t.entries);
    PushRowsKeys(bare, rows);
    OrderBySorted(t.rows);
    forall r | r in rows ensures NoNul(r.dn) {
      assert r in t.rows && RowOk(t, r);
    }
    forall dn | dn in t.entries ensures AllEntries(t)[dn] == LoadAttributes(t, dn) {
      PushRowsAt(bare, rows, dn);
      OrderByKeepsDn(t.rows, dn);
    }
  }

  lemma BareKeys(dns: set<Text>)
    requires forall dn <- dns :: ColumnText(dn) == dn
    ensures BareEntries(dns).Keys == dns
  {
    hide ColumnText;
    assert (set d | d in dns :: ColumnText(d)) == dns;
  }

  // ---------- the calls agree ----------

  lemma Represented(t: Tables)
    ensures DirectoryOf(t).Keys == t.entries
    ensures forall k <- t.entries :: DirectoryOf(t)[k].dn == k
    ensures WellFormed(t) ==> UniqueKeys(DirectoryOf(t))
  {
    hide LoadAttributes, Lower;
    assert forall k <- t.entries :: LoadAttributes(t, k).dn == k by {
      LoadedDn(t);
    }
  }

  lemma LoadedDn(t: Tables)
    ensures forall k: Text {:trigger LoadAttributes(t, k)} :: LoadAttributes(t, k).dn == k
  {
    hide Regroup, OrderBy, RowsOf;
  }

  lemma {:induction false} ListsAgree(dir: Directory, ks: seq<Text>, base: Text, scope: SearchScope, filter: SearchFilter)
    requires forall k <- ks :: k in dir && dir[k].dn == k
    ensures ListMatching(dir, ks, base, scope, filter) == Collect(dir, ks, base, scope, filter)
  {
    hide InScope, FilterMatches;
    if ks != [] {
      ListsAgree(dir, ks[..|ks| - 1], base, scope, filter);
    }
  }

  /** What a call must satisfy: no NUL in what is stored, no type without values, and a modified entry named as stored. */
  predicate CallFits(dir: Directory, call: Call) {
    match call
    case AddCall(e) => NoNul(e.dn) && AttributesOk(e.attributes) && HasAllValues(e.attributes)
    case ModifyCall(e) =>
      && AttributesOk(e.attributes) && HasAllValues(e.attributes)
      && (e.dn in dir || FindKey(dir.Keys, e.dn).None?)
    case RenameCall(from, to) => NoNul(to)
    case _ => true
  }

  lemma StoredIsFound(t: Tables, dn: Text)
    requires WellFormed(t)
    ensures StoredDn(t, dn) == FindKey(DirectoryOf(t).Keys, dn)
    ensures StoredDn(t, dn).Some? ==> StoredDn(t, dn).value in t.entries
    ensures dn in t.entries ==> StoredDn(t, dn) == Some(dn)
  {
    hide ColumnText, LoadAttributes, Lower;
    Represented(t);
    if FindKey(t.entries, dn).Some? {
      ColumnTextWhole(FindKey(t.entries, dn).value);
    }
  }

  lemma {:induction false} FlattenOk(dn: Text, attributes: Attributes, kinds: seq<Text>)
    requires AttributesOk(attributes) && forall k <- kinds :: k in attributes
    ensures forall r <- Flatten(dn, attributes, kinds) :: r.dn == dn && NoNul(r.kind) && NoNul(r.value)
  {
    hide NoNul;
    if kinds != [] {
      FlattenOk(dn, attributes, kinds[..|kinds| - 1]);
    }
  }

  lemma WriteKeepsWellFormed(t: Tables, entry: DirectoryEntry)
    requires WellFormed(t) && entry.dn in t.entries && AttributesOk(entry.attributes)
    ensures WellFormed(WriteAttributes(t, entry))
  {
    hide NoNul, Lower, Flatten, WithoutRows, AttributesOk, DistinctOrds;
    WriteDistinct(t, entry);
    FlattenOk(entry.dn, entry.attributes, SortedKeys(entry.attributes.Keys));
    RowsAfterDelete(t.rows, entry.dn, []);
    var after := WriteAttributes(t, entry);
    forall r | r in after.rows ensures RowOk(after, r) {
      if r in t.rows {
        assert RowOk(t, r);
      }
    }
  }

  /** An attribute write changes exactly one entry of the represented directory. */
  lemma WriteChangesOne(t: Tables, entry: DirectoryEntry)
    requires entry.dn in t.entries && AttributesOk(entry.attributes)
    ensures DirectoryOf(WriteAttributes(t, entry))
         == DirectoryOf(t)[entry.dn := DirectoryEntry(entry.dn, Kept(entry.attributes))]
  {
    hide WriteAttributes, LoadAttributes, Kept, AttributesOk;
    var after := WriteAttributes(t, entry);
    WriteKeepsEntries(t, entry);
    forall dn | dn in t.entries
      ensures DirectoryOf(after)[dn] == if dn == entry.dn then DirectoryEntry(dn, Kept(entry.attributes)) else DirectoryOf(t)[dn]
    {
      WriteThenLoad(t, entry, dn);
    }
  }

  lemma WriteKeepsEntries(t: Tables, entry: DirectoryEntry)
    ensures WriteAttributes(t, entry).entries == t.entries
  {
  }

  /** A new row in `entries`, before its attributes are written. */
  lemma InsertEntry(t: Tables, dn: Text)
    requires WellFormed(t) && NoNul(dn) && dn != [] && StoredDn(t, dn).None?
    ensures var inserted := t.(entries := t.entries + {dn});
            WellFormed(inserted) && DirectoryOf(inserted) == DirectoryOf(t)[dn := LoadAttributes(t, dn)]
  {
    hide NoNul, Lower, ColumnText, DistinctOrds;
    var inserted := t.(entries := t.entries + {dn});
    forall r | r in t.rows ensures RowOk(inserted, r) {
      assert RowOk(t, r);
    }
    SameRowsLoad(t, inserted);
  }

  lemma SameRowsLoad(t: Tables, u: Tables)
    requires t.rows == u.rows
    ensures forall dn: Text {:trigger LoadAttributes(u, dn)} :: LoadAttributes(u, dn) == LoadAttributes(t, dn)
  {
    hide Regroup, OrderBy, RowsOf;
  }

  lemma AddAgrees(t: Tables, entry: DirectoryEntry)
    requires WellFormed(t) && NoNul(entry.dn) && AttributesOk(entry.attributes)
    ensures var dir, r := DirectoryOf(t), SqlAdd(t, entry);
            && r.ok == Add(dir, entry).ok && WellFormed(r.after)
            && (!r.ok ==> r.after == t)
            && (r.ok ==> DirectoryOf(r.after) == dir[entry.dn := DirectoryEntry(entry.dn, Kept(entry.attributes))])
  {
    hide WriteAttributes, StoredDn, LoadAttributes, Kept, AttributesOk, NoNul, DirectoryOf, WellFormed;
    StoredIsFound(t, entry.dn);
    if SqlAdd(t, entry).ok {
      var inserted := t.(entries := t.entries + {entry.dn});
      InsertEntry(t, entry.dn);
      WriteKeepsWellFormed(inserted, entry);
      WriteChangesOne(inserted, entry);
    }
  }

  lemma ModifyAgrees(t: Tables, entry: DirectoryEntry)
    requires WellFormed(t) && AttributesOk(entry.attributes)
    ensures var dir, r := DirectoryOf(t), SqlModify(t, entry);
            var found := FindKey(dir.Keys, entry.dn);
            && r.ok == found.Some? && WellFormed(r.after)
            && (!r.ok ==> r.after == t)
            && (r.ok ==> DirectoryOf(r.after) == dir[found.value := DirectoryEntry(found.value, Kept(entry.attributes))])
  {
    hide WriteAttributes, StoredDn, LoadAttributes, Kept, AttributesOk, DirectoryOf, WellFormed;
    StoredIsFound(t, entry.dn);
    if SqlModify(t, entry).ok {
      var copy := entry.(dn := StoredDn(t, entry.dn).value);
      WriteKeepsWellFormed(t, copy);
      WriteChangesOne(t, copy);
    }
  }

  lemma DeleteKeepsWellFormed(t: Tables, stored: Text)
    requires WellFormed(t)
    ensures WellFormed(Tables(t.entries - {stored}, WithoutRows(t.rows, stored)))
  {
    hide NoNul, Lower, WithoutRows, DistinctOrds;
    DeleteDistinct(t.rows, stored);
    var after := Tables(t.entries - {stored}, WithoutRows(t.rows, stored));
    RowsAfterDelete(t.rows, stored, []);
    forall r | r in after.rows ensures RowOk(after, r) {
      assert RowOk(t, r);
    }
  }

  lemma DeleteThenLoad(t: Tables, stored: Text, dn: Text)
    requires dn != stored
    ensures LoadAttributes(Tables(t.entries - {stored}, WithoutRows(t.rows, stored)), dn) == LoadAttributes(t, dn)
  {
    hide Regroup, OrderBy, RowsOf, WithoutRows;
    RowsAfterDelete(t.rows, stored, dn);
  }

  lemma RemoveAgrees(t: Tables, dn: Text)
    requires WellFormed(t)
    ensures var dir, r := DirectoryOf(t), SqlRemove(t, dn);
            WellFormed(r.after) && Outcome(r.ok, DirectoryOf(r.after)) == Remove(dir, dn)
  {
    hide StoredDn, Lower, WithoutRows, WellFormed, LoadAttributes, FindKey;
    StoredIsFound(t, dn);
    if SqlRemove(t, dn).ok {
      var stored := StoredDn(t, dn).value;
      var after := SqlRemove(t, dn).after;
      DeleteKeepsWellFormed(t, stored);
      forall k | k in after.entries ensures LoadAttributes(after, k) == LoadAttributes(t, k) {
        DeleteThenLoad(t, stored, k);
      }
      assert DirectoryOf(after) == DirectoryOf(t) - {stored};
    }
  }

  lemma {:induction false} RenamedMembers(rows: seq<Row>, from: Text, to: Text)
    ensures forall r <- Renamed(rows, from, to) :: exists o <- rows :: r == RenamedRow(o, from, to)
    decreases |rows|
  {
    if rows != [] {
      RenamedMembers(rows[1..], from, to);
      forall r | r in Renamed(rows, from, to) ensures exists o <- rows :: r == RenamedRow(o, from, to) {
        if r == RenamedRow(rows[0], from, to) {
          assert rows[0] in rows;
        } else {
          assert r in Renamed(rows[1..], from, to);
          var o :| o in rows[1..] && r == RenamedRow(o, from, to);
          assert o in rows;
        }
      }
    }
  }

  lemma RenameRowsWellFormed(t: Tables, from: Text, to: Text)
    requires WellFormed(t) && from in t.entries && to != [] && NoNul(to) && StoredDn(t, to).None?
    ensures WellFormed(Tables(t.entries - {from} + {to}, Renamed(t.rows, from, to)))
  {
    hide NoNul, Lower, ColumnText, Renamed, DistinctOrds;
    var after := Tables(t.entries - {from} + {to}, Renamed(t.rows, from, to));
    forall r | r in t.rows ensures r.dn != to {
      assert RowOk(t, r);
      SameIsEqual(to);
    }
    RenameDistinct(t.rows, from, to);
    RenamedMembers(t.rows, from, to);
    forall r | r in after.rows ensures RowOk(after, r) {
      var o :| o in t.rows && r == RenamedRow(o, from, to);
      assert RowOk(t, o);
    }
  }

  lemma RenameAgrees(t: Tables, from: Text, to: Text)
    requires WellFormed(t) && NoNul(to)
    ensures var dir, r := DirectoryOf(t), SqlRename(t, from, to);
            WellFormed(r.after) && Outcome(r.ok, DirectoryOf(r.after)) == Rename(dir, from, to)
  {
    hide StoredDn, NoNul, Lower, Renamed, LoadAttributes, WellFormed;
    if from != [] && to != [] {
      StoredIsFound(t, from);
      StoredIsFound(t, to);
      Represented(t);
      if StoredDn(t, from).Some? && !DnEquals(from, to) && StoredDn(t, to).None? {
        var stored := StoredDn(t, from).value;
        var after := SqlRename(t, from, to).after;
        RenameRowsWellFormed(t, stored, to);
        forall k | k in after.entries
          ensures LoadAttributes(after, k) == if k == to then LoadAttributes(t, stored).(dn := to) else LoadAttributes(t, k)
        {
          RenameThenLoad(t, stored, to, k);
        }
        assert DirectoryOf(after) == (DirectoryOf(t) - {stored})[to := DirectoryOf(t)[stored].(dn := to)];
      }
    }
  }

  lemma ReadsAgree(t: Tables, call: Call)
    requires WellFormed(t) && (call.LookupCall? || call.SearchCall? || call.HasChildrenCall?)
    ensures SqlAnswer(t, call) == (Answer(DirectoryOf(t), call).0, t)
  {
    hide StoredDn, AllEntries, LoadAttributes, InScope, FilterMatches, WellFormed, DnIsOneLevelChild, FindKey;
    var dir := DirectoryOf(t);
    Represented(t);
    match call
    case LookupCall(dn) => StoredIsFound(t, dn);
    case SearchCall(base, scope, filter) =>
      AllEntriesIsDirectory(t);
      ListsAgree(dir, SortedKeys(dir.Keys), base, scope, filter);
    case HasChildrenCall(dn) => AllEntriesIsDirectory(t);
  }

  /** Every call gives the memory backend's reply and leaves tables that stand for its next directory. */
  lemma AnswersAgree(t: Tables, call: Call)
    requires WellFormed(t) && CallFits(DirectoryOf(t), call)
    ensures var (reply, after) := SqlAnswer(t, call);
            WellFormed(after) && (reply, DirectoryOf(after)) == Answer(DirectoryOf(t), call)
  {
    hide SqlLookup, SqlAdd, SqlModify, SqlRemove, SqlRename, AllEntries, DirectoryOf, WellFormed, AttributesOk, FindKey,
         NoNul, Kept;
    match call
    case AddCall(e) =>
      AddAgrees(t, e);
      KeptAll(e.attributes);
    case ModifyCall(e) =>
      ModifyAgrees(t, e);
      KeptAll(e.attributes);
      StoredIsFound(t, e.dn);
      StoredNames(t);
    case RemoveCall(dn) => RemoveAgrees(t, dn);
    case RenameCall(from, to) => RenameAgrees(t, from, to);
    case _ => ReadsAgree(t, call);
  }

  lemma StoredNames(t: Tables)
    ensures DirectoryOf(t).Keys == t.entries
  {
  }

  /** Every call of the run fits the directory it meets. */
  predicate RunFits(dir: Directory, calls: seq<Call>)
    decreases |calls|
  {
    calls == [] || (CallFits(dir, calls[0]) && RunFits(Answer(dir, calls[0]).1, calls[1..]))
  }

  /** Over every sequence of calls the two backends give identical replies, search order included. */
  lemma {:induction false} RunsAgree(t: Tables, calls: seq<Call>)
    requires WellFormed(t) && RunFits(DirectoryOf(t), calls)
    ensures var (replies, after) := SqlRun(t, calls);
            WellFormed(after) && (replies, DirectoryOf(after)) == RunCalls(DirectoryOf(t), calls)
    decreases |calls|
  {
    hide SqlAnswer, Answer, DirectoryOf, WellFormed, CallFits;
    if calls != [] {
      AnswersAgree(t, calls[0]);
      RunsAgree(SqlAnswer(t, calls[0]).1, calls[1..]);
    }
  }

  /** Over empty tables, from an empty directory. */
  lemma FreshRunsAgree(calls: seq<Call>)
    requires RunFits(map[], calls)
    ensures SqlRun(Tables({}, []), calls).0 == RunCalls(map[], calls).0
  {
    var t := Tables({}, []);
    assert DirectoryOf(t) == map[];
    RunsAgree(t, calls);
  }

  // ---------- the conditions are needed ----------

  /** An added entry is stored as the memory backend stores it exactly when every type has a value. */
  lemma AddAgreesExactly(t: Tables, entry: DirectoryEntry)
    requires WellFormed(t) && NoNul(entry.dn) && AttributesOk(entry.attributes) && SqlAdd(t, entry).ok
    ensures DirectoryOf(SqlAdd(t, entry).after) == Add(DirectoryOf(t), entry).after <==> HasAllValues(entry.attributes)
  {
    hide SqlAdd, DirectoryOf, WellFormed, AttributesOk, FindKey, NoNul, Kept;
    AddAgrees(t, entry);
    KeptAll(entry.attributes);
    var after := Add(DirectoryOf(t), entry).after;
    assert after[entry.dn] == entry;
  }

  /** A modified entry likewise, and only when the request spells the DN as stored. */
  lemma ModifyAgreesExactly(t: Tables, entry: DirectoryEntry)
    requires WellFormed(t) && AttributesOk(entry.attributes) && SqlModify(t, entry).ok
    ensures DirectoryOf(SqlModify(t, entry).after) == Memory.Modify(DirectoryOf(t), entry).after
       <==> entry.dn in t.entries && HasAllValues(entry.attributes)
  {
    hide SqlModify, DirectoryOf, WellFormed, AttributesOk, FindKey, Kept;
    ModifyAgrees(t, entry);
    KeptAll(entry.attributes);
    StoredIsFound(t, entry.dn);
    StoredNames(t);
    var dir := DirectoryOf(t);
    var k := FindKey(dir.Keys, entry.dn).value;
    assert Memory.Modify(dir, entry).after[k] == entry;
    assert DirectoryOf(SqlModify(t, entry).after)[k] == DirectoryEntry(k, Kept(entry.attributes));
  }

  lemma ColumnNulFree(t: Text)
    ensures NoNul(ColumnText(t))
  {
  }

  lemma {:induction false} RegroupNulFree(attributes: Attributes, rows: seq<Row>)
    requires AttributesOk(attributes)
    ensures AttributesOk(Regroup(attributes, rows))
    decreases |rows|
  {
    hide NoNul, ColumnText;
    if rows != [] {
      ColumnNulFree(rows[0].kind);
      ColumnNulFree(rows[0].value);
      RegroupNulFree(PushValue(attributes, ColumnText(rows[0].kind), ColumnText(rows[0].value)), rows[1..]);
    }
  }

  /** What is looked up never holds a NUL. */
  lemma LookupNulFree(t: Tables, dn: Text)
    ensures var found := SqlLookup(t, dn);
            found.Some? ==> NoNul(found.value.dn) && AttributesOk(found.value.attributes)
  {
    hide Regroup, OrderBy, RowsOf, ColumnText, AttributesOk, NoNul;
    var found := FindKey(t.entries, dn);
    if found.Some? {
      ColumnNulFree(found.value);
      var stored := ColumnText(found.value);
      NothingHasNul();
      RegroupNulFree(map[], OrderBy(RowsOf(t.rows, stored), false));
    }
  }

  lemma NothingHasNul()
    ensures AttributesOk(map[])
  {
  }

  /** Looking an added entry up gives it back, as the memory backend always does, exactly when nothing in it holds a
      NUL and every type has a value. */
  lemma AddedIsFoundExactly(t: Tables, entry: DirectoryEntry)
    requires WellFormed(t) && SqlAdd(t, entry).ok
    ensures Lookup(Add(DirectoryOf(t), entry).after, entry.dn) == Some(entry)
    ensures SqlLookup(SqlAdd(t, entry).after, entry.dn) == Some(entry) <==>
              NoNul(entry.dn) && AttributesOk(entry.attributes) && HasAllValues(entry.attributes)
  {
    hide SqlAdd, SqlLookup, DirectoryOf, WellFormed, AttributesOk, NoNul, Kept, LexLess;
    var after := SqlAdd(t, entry).after;
    LookupNulFree(after, entry.dn);
    AddedInMemory(t, entry);
    if NoNul(entry.dn) && AttributesOk(entry.attributes) {
      AddAgrees(t, entry);
      KeptAll(entry.attributes);
      ReadsAgree(after, LookupCall(entry.dn));
      LookupIs(after, entry.dn);
      Represented(after);
      var dir := DirectoryOf(after);
      SameIsEqual(entry.dn);
      FindUnique(dir, entry.dn, entry.dn);
    }
  }

  lemma LookupIs(t: Tables, dn: Text)
    requires WellFormed(t)
    ensures SqlLookup(t, dn) == Lookup(DirectoryOf(t), dn)
  {
    hide SqlLookup, DirectoryOf, WellFormed, FindKey;
    ReadsAgree(t, LookupCall(dn));
  }

  lemma AddedInMemory(t: Tables, entry: DirectoryEntry)
    requires WellFormed(t) && SqlAdd(t, entry).ok
    ensures Lookup(Add(DirectoryOf(t), entry).after, entry.dn) == Some(entry)
  {
    hide LexLess, LoadAttributes, WriteAttributes, ColumnText, Lower, WellFormed;
    StoredIsFound(t, entry.dn);
    Represented(t);
    var dir := DirectoryOf(t);
    var after := Add(dir, entry).after;
    SameIsEqual(entry.dn);
    AnswerKeepsUnique(dir, AddCall(entry));
    FindUnique(after, entry.dn, entry.dn);
  }
}
