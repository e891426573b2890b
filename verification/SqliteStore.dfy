/** The SQLite backend itself: statements and cursors, one row at a time, against the table functions. */
module SqliteStore {
  import opened Octets
  import opened OrderedKeys
  import opened Entries
  import opened Dn
  import opened Filters
  import opened Memory
  import opened Values
  import opened Sqlite

  class SqliteBackend {
    var entries: set<Text>
    var rows: seq<Row>

    function Snapshot(): Tables
      reads this
    {
      Tables(entries, rows)
    }

    constructor ()
      ensures Snapshot() == Tables({}, [])
    {
      entries, rows := {}, [];
    }

    /** One type's rows, inserted one by one. */
    method InsertValues(dn: Text, kind: Text, values: seq<Text>, first: nat) returns (ord: nat)
      modifies this`rows
      ensures rows == old(rows) + ValueRows(dn, kind, values, first) && ord == first + |values|
    {
      ord := first;
      var j := 0;
      assert ValueRows(dn, kind, values[..0], first) == [];
      while j < |values|
        invariant 0 <= j <= |values| && ord == first + j
        invariant rows == old(rows) + ValueRows(dn, kind, values[..j], first)
      {
        rows := rows + [Row(dn, kind, values[j], ord)];
        ValueRowsOne(dn, kind, values, j, first);
        ord := ord + 1;
        j := j + 1;
      }
      assert values[..|values|] == values;
    }

    /** Old rows out, new rows in, `ord` counting through all types. */
    method WriteRows(entry: DirectoryEntry)
      modifies this`rows
      ensures Snapshot() == WriteAttributes(old(Snapshot()), entry)
    {
      hide Flatten, WithoutRows, LexLess, ValueRows, SortedKeys;
      rows := WithoutRows(rows, entry.dn);
      ghost var base := rows;
      var attributes := entry.attributes;
      var kinds := SortedKeys(attributes.Keys);
      var ord, i := 0, 0;
      FlattenNone(entry.dn, attributes);
      assert kinds[..0] == [];
      assert base + [] == base;
      while i < |kinds|
        invariant 0 <= i <= |kinds|
        invariant ord == |Flatten(entry.dn, attributes, kinds[..i])|
        invariant rows == base + Flatten(entry.dn, attributes, kinds[..i])
      {
        var kind := kinds[i];
        assert kind in kinds;
        FlattenOne(entry.dn, attributes, kinds, i);
        ghost var before := Flatten(entry.dn, attributes, kinds[..i]);
        ghost var more := ValueRows(entry.dn, kind, attributes[kind], |before|);
        ValueRowsLength(entry.dn, kind, attributes[kind], |before|);
        assert base + before + more == base + (before + more);
        ord := InsertValues(entry.dn, kind, attributes[kind], ord);
        i := i + 1;
      }
      assert kinds[..|kinds|] == kinds;
    }

    /** The cursor over one entry's rows, values pushed under their types. */
    method LoadEntry(dn: Text) returns (entry: DirectoryEntry)
      ensures entry == LoadAttributes(Snapshot(), dn)
    {
      hide OrderBy, RowsOf, ColumnText, PushValue;
      var cursor := OrderBy(RowsOf(rows, dn), false);
      var attributes: Attributes := map[];
      var i := 0;
      assert cursor[0..] == cursor;
      while i < |cursor|
        invariant 0 <= i <= |cursor|
        invariant Regroup(attributes, cursor[i..]) == Regroup(map[], cursor)
      {
        assert cursor[i..][1..] == cursor[i + 1..];
        attributes := PushValue(attributes, ColumnText(cursor[i].kind), ColumnText(cursor[i].value));
        i := i + 1;
      }
      return DirectoryEntry(dn, attributes);
    }

    /** The cursor over the DNs. */
    method BareRows() returns (byDn: Directory)
      ensures byDn == BareEntries(entries)
    {
      hide ColumnText, LexLess, BareEntries, SortedKeys;
      var dns := SortedKeys(entries);
      byDn := map[];
      BareNone();
      assert Elements(dns[..0]) == {};
      var i := 0;
      while i < |dns|
        invariant 0 <= i <= |dns|
        invariant byDn == BareEntries(Elements(dns[..i]))
      {
        BareOneMore(dns, i);
        byDn := byDn[ColumnText(dns[i]) := DirectoryEntry(ColumnText(dns[i]), map[])];
        i := i + 1;
      }
      assert Elements(dns[..|dns|]) == entries;
    }

    /** Then the cursor over all rows, each pushed into the entry it belongs to. */
    method AllRows() returns (byDn: Directory)
      ensures byDn == AllEntries(Snapshot())
    {
      hide OrderBy, ColumnText, PushValue, BareEntries;
      byDn := BareRows();
      var cursor := OrderBy(rows, true);
      var i := 0;
      assert cursor[0..] == cursor;
      while i < |cursor|
        invariant 0 <= i <= |cursor|
        invariant PushRows(byDn, cursor[i..]) == AllEntries(Snapshot())
      {
        assert cursor[i..][1..] == cursor[i + 1..];
        var r, dn := cursor[i], ColumnText(cursor[i].dn);
        if dn in byDn {
          byDn := byDn[dn := byDn[dn].(attributes := PushValue(byDn[dn].attributes, ColumnText(r.kind), ColumnText(r.value)))];
        }
        i := i + 1;
      }
    }

    method LookupEntry(dn: Text) returns (r: Option<DirectoryEntry>)
      ensures r == SqlLookup(Snapshot(), dn)
    {
      hide LoadAttributes;
      match StoredDn(Snapshot(), dn) {
        case None => r := None;
        case Some(stored) =>
          var entry := LoadEntry(stored);
          r := Some(entry);
      }
    }

    method SearchEntries(base: Text, scope: SearchScope, filter: SearchFilter) returns (matches: seq<DirectoryEntry>)
      ensures Listing(matches) == SqlAnswer(Snapshot(), SearchCall(base, scope, filter)).0
    {
      hide AllEntries, LexLess, InScope, FilterMatches, ListMatching;
      var all := AllRows();
      var ks := SortedKeys(all.Keys);
      matches := [];
      var i := 0;
      ListNone(all, base, scope, filter);
      assert ks[..0] == [];
      while i < |ks|
        invariant 0 <= i <= |ks|
        invariant matches == ListMatching(all, ks[..i], base, scope, filter)
      {
        assert ks[i] in ks;
        var entry := all[ks[i]];
        ListOneMore(all, ks, i, base, scope, filter);
        if InScope(entry.dn, base, scope) && FilterMatches(filter, entry) {
          matches := matches + [entry];
        }
        i := i + 1;
      }
      assert ks[..|ks|] == ks;
    }

    method AddEntry(entry: DirectoryEntry) returns (ok: bool)
      modifies this
      ensures SqlOutcome(ok, Snapshot()) == SqlAdd(old(Snapshot()), entry)
    {
      hide WriteAttributes;
      if entry.dn == [] || StoredDn(Snapshot(), entry.dn).Some? {
        return false;
      }
      entries := entries + {entry.dn};
      WriteRows(entry);
      return true;
    }

    method ModifyEntry(entry: DirectoryEntry) returns (ok: bool)
      modifies this
      ensures SqlOutcome(ok, Snapshot()) == SqlModify(old(Snapshot()), entry)
    {
      hide WriteAttributes;
      var stored := StoredDn(Snapshot(), entry.dn);
      if stored.None? {
        return false;
      }
      WriteRows(entry.(dn := stored.value));
      return true;
    }

    method RemoveEntry(dn: Text) returns (ok: bool)
      modifies this
      ensures SqlOutcome(ok, Snapshot()) == SqlRemove(old(Snapshot()), dn)
    {
      var stored := StoredDn(Snapshot(), dn);
      if stored.None? {
        return false;
      }
      entries := entries - {stored.value};
      rows := WithoutRows(rows, stored.value);
      return true;
    }

    method RenameEntry(from: Text, to: Text) returns (ok: bool)
      modifies this
      ensures SqlOutcome(ok, Snapshot()) == SqlRename(old(Snapshot()), from, to)
    {
      if from == [] || to == [] {
        return false;
      }
      var stored := StoredDn(Snapshot(), from);
      if stored.None? {
        return false;
      }
      if DnEquals(from, to) {
        return true;
      }
      if StoredDn(Snapshot(), to).Some? {
        return false;
      }
      entries := entries - {stored.value} + {to};
      rows := Renamed(rows, stored.value, to);
      return true;
    }
  }

  lemma FlattenNone(dn: Text, attributes: Attributes)
    ensures Flatten(dn, attributes, []) == []
  {
  }

  lemma FlattenOne(dn: Text, attributes: Attributes, kinds: seq<Text>, i: nat)
    requires i < |kinds| && forall k <- kinds :: k in attributes
    ensures var before := Flatten(dn, attributes, kinds[..i]);
            Flatten(dn, attributes, kinds[..i + 1]) == before + ValueRows(dn, kinds[i], attributes[kinds[i]], |before|)
  {
    assert kinds[..i + 1][..i] == kinds[..i];
  }

  lemma ValueRowsLength(dn: Text, kind: Text, values: seq<Text>, ord: nat)
    ensures |ValueRows(dn, kind, values, ord)| == |values|
  {
  }

  lemma ValueRowsOne(dn: Text, kind: Text, values: seq<Text>, j: nat, ord: nat)
    requires j < |values|
    ensures ValueRows(dn, kind, values[..j + 1], ord)
         == ValueRows(dn, kind, values[..j], ord) + [Row(dn, kind, values[j], ord + j)]
  {
  }

  function Elements(list: seq<Text>): set<Text> {
    set d | d in list
  }

  lemma BareNone()
    ensures BareEntries({}) == map[]
  {
  }

  lemma BareOneMore(dns: seq<Text>, i: nat)
    requires i < |dns|
    ensures BareEntries(Elements(dns[..i + 1]))
         == BareEntries(Elements(dns[..i]))[ColumnText(dns[i]) := DirectoryEntry(ColumnText(dns[i]), map[])]
  {
    hide ColumnText;
    assert forall d :: d in dns[..i + 1] <==> d in dns[..i] || d == dns[i];
  }

  lemma ListNone(all: Directory, base: Text, scope: SearchScope, filter: SearchFilter)
    ensures ListMatching(all, [], base, scope, filter) == []
  {
  }

  lemma ListOneMore(all: Directory, ks: seq<Text>, i: nat, base: Text, scope: SearchScope, filter: SearchFilter)
    requires i < |ks| && forall k <- ks :: k in all
    ensures var e := all[ks[i]];
            ListMatching(all, ks[..i + 1], base, scope, filter)
              == ListMatching(all, ks[..i], base, scope, filter)
                 + if InScope(e.dn, base, scope) && FilterMatches(filter, e) then [e] else []
  {
    hide InScope, FilterMatches;
    assert ks[..i + 1][..i] == ks[..i];
  }
}
