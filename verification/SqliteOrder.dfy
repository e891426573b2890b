/** The order SQL promises determines every listing: rows of one entry never share their `ord`. */
module SqliteOrder {
  import opened Octets
  import opened OrderedKeys
  import opened Sqlite

  /** Strictly ascending under the clause. */
  ghost predicate Ascends(rows: seq<Row>, byDn: bool) {
    forall i, j :: 0 <= i < j < |rows| ==> Before(rows[i], rows[j], byDn)
  }

  /** The clause tells every two of these rows apart. */
  ghost predicate Apart(rows: seq<Row>, byDn: bool) {
    DistinctOrds(rows) && (byDn || forall r <- rows, q <- rows :: r.dn == q.dn)
  }

  lemma BeforeTrans(a: Row, b: Row, c: Row, byDn: bool)
    requires Before(a, b, byDn) && Before(b, c, byDn)
    ensures Before(a, c, byDn)
  {
    hide LexLess;
    LexTrichotomy(a.dn, b.dn);
    LexTrichotomy(a.dn, c.dn);
    if byDn && a.dn != b.dn && b.dn != c.dn {
      LexTransitive(a.dn, b.dn, c.dn);
    }
  }

  lemma BeforeTotal(a: Row, b: Row, byDn: bool)
    ensures !(Before(a, b, byDn) && Before(b, a, byDn))
    ensures (if byDn then a.dn != b.dn || a.ord != b.ord else a.ord != b.ord) ==> Before(a, b, byDn) || Before(b, a, byDn)
  {
    hide LexLess;
    LexTrichotomy(a.dn, b.dn);
  }

  lemma {:induction false} PlaceAscends(row: Row, sorted: seq<Row>, byDn: bool)
    requires Ascends(sorted, byDn) && forall r <- sorted :: Before(row, r, byDn) || Before(r, row, byDn)
    ensures Ascends(Place(row, sorted, byDn), byDn)
    ensures forall r :: r in Place(row, sorted, byDn) <==> r == row || r in sorted
    decreases |sorted|
  {
    hide Before;
    var placed := Place(row, sorted, byDn);
    if sorted == [] {
    } else if Before(row, sorted[0], byDn) {
      forall j | 0 < j < |placed| ensures Before(row, placed[j], byDn) {
        if j > 1 {
          BeforeTrans(row, sorted[0], placed[j], byDn);
        }
      }
    } else {
      assert sorted[0] in sorted;
      assert forall r <- sorted[1..] :: r in sorted;
      PlaceAscends(row, sorted[1..], byDn);
      var rest := Place(row, sorted[1..], byDn);
      forall j | 0 < j < |placed| ensures Before(sorted[0], placed[j], byDn) {
        assert placed[j] == rest[j - 1] && rest[j - 1] in rest;
        if placed[j] != row {
          var i :| 0 <= i < |sorted[1..]| && sorted[1..][i] == placed[j];
          assert sorted[i + 1] == placed[j];
        }
      }
      assert forall r :: r in sorted <==> r == sorted[0] || r in sorted[1..];
    }
  }

  lemma {:induction false} LastApart(rows: seq<Row>)
    requires rows != [] && DistinctOrds(rows)
    ensures DistinctOrds(rows[..|rows| - 1])
    ensures forall r <- rows[..|rows| - 1] :: r.dn == rows[|rows| - 1].dn ==> r.ord != rows[|rows| - 1].ord
    decreases |rows|
  {
    var n := |rows| - 1;
    if n > 0 {
      LastApart(rows[1..]);
      assert rows[1..][..n - 1] == rows[..n][1..];
      assert rows[n] in rows[1..];
      assert forall r <- rows[..n] :: r == rows[0] || r in rows[..n][1..];
      assert forall r <- rows[..n][1..] :: r in rows[1..];
    }
  }

  /** `ORDER BY` lists the same rows, strictly ascending. */
  lemma {:induction false} OrderAscends(rows: seq<Row>, byDn: bool)
    requires Apart(rows, byDn)
    ensures Ascends(OrderBy(rows, byDn), byDn)
    ensures forall r :: r in OrderBy(rows, byDn) <==> r in rows
    decreases |rows|
  {
    hide Before, DistinctOrds, Place;
    if rows != [] {
      var init, last := rows[..|rows| - 1], rows[|rows| - 1];
      LastApart(rows);
      assert last in rows && forall r <- init :: r in rows;
      OrderAscends(init, byDn);
      forall r | r in OrderBy(init, byDn) ensures Before(last, r, byDn) || Before(r, last, byDn) {
        BeforeTotal(last, r, byDn);
      }
      PlaceAscends(last, OrderBy(init, byDn), byDn);
      assert rows == init + [last];
    }
  }

  /** Two strictly ascending listings of the same rows are the same listing. */
  lemma {:induction false} AscendingUnique(a: seq<Row>, b: seq<Row>, byDn: bool)
    requires Ascends(a, byDn) && Ascends(b, byDn) && forall r :: r in a <==> r in b
    ensures a == b
    decreases |a|
  {
    hide Before;
    FirstIsMember(b);
    if a != [] {
      assert a[0] in a;
      SameFirst(a, b, byDn);
      assert forall r :: r in a[1..] <==> r in b[1..] by {
        RestWithoutFirst(a, byDn);
        RestWithoutFirst(b, byDn);
      }
      AscendingUnique(a[1..], b[1..], byDn);
      assert a == [a[0]] + a[1..] && b == [b[0]] + b[1..];
    }
  }

  lemma FirstIsMember(b: seq<Row>)
    ensures b != [] ==> b[0] in b
  {
  }

  lemma SameFirst(a: seq<Row>, b: seq<Row>, byDn: bool)
    requires Ascends(a, byDn) && Ascends(b, byDn) && a != [] && forall r :: r in a <==> r in b
    ensures b != [] && a[0] == b[0]
  {
    hide Before;
    assert a[0] in b;
    assert b[0] in a;
    var i :| 0 <= i < |a| && a[i] == b[0];
    var j :| 0 <= j < |b| && b[j] == a[0];
    BeforeTotal(a[0], b[0], byDn);
  }

  lemma RestWithoutFirst(a: seq<Row>, byDn: bool)
    requires Ascends(a, byDn) && a != []
    ensures forall r :: r in a[1..] <==> r in a && r != a[0]
  {
    hide Before;
    BeforeTotal(a[0], a[0], byDn);
    forall r ensures r in a[1..] <==> r in a && r != a[0] {
      if r in a[1..] {
        var i :| 0 <= i < |a[1..]| && a[1..][i] == r;
        assert a[i + 1] == r && Before(a[0], a[i + 1], byDn);
      }
    }
  }

  /** Whatever listing of the table SQL returns, sorted by the clause, it is the one the model uses. */
  lemma OrderIsDetermined(rows: seq<Row>, byDn: bool, listing: seq<Row>)
    requires Apart(rows, byDn) && multiset(listing) == multiset(rows)
    requires forall i, j :: 0 <= i < j < |listing| ==> !Before(listing[j], listing[i], byDn)
    ensures listing == OrderBy(rows, byDn)
  {
    hide Before, OrderBy;
    forall r ensures r in listing <==> r in rows {
      assert r in multiset(listing) <==> r in multiset(rows);
    }
    OrderAscends(rows, byDn);
    forall i, j | 0 <= i < j < |listing| ensures Before(listing[i], listing[j], byDn) {
      TwoApart(rows, byDn, listing, i, j);
      BeforeTotal(listing[i], listing[j], byDn);
    }
    AscendingUnique(listing, OrderBy(rows, byDn), byDn);
  }

  lemma {:induction false} OnceEach(rows: seq<Row>, r: Row)
    requires DistinctOrds(rows)
    ensures multiset(rows)[r] <= 1
    decreases |rows|
  {
    if rows != [] {
      OnceEach(rows[1..], r);
      assert rows == [rows[0]] + rows[1..];
      assert multiset(rows) == multiset{rows[0]} + multiset(rows[1..]);
      if r == rows[0] {
        assert r !in rows[1..];
      }
    }
  }

  lemma {:induction false} SameKeySameRow(rows: seq<Row>, r: Row, q: Row)
    requires DistinctOrds(rows) && r in rows && q in rows && r.dn == q.dn && r.ord == q.ord
    ensures r == q
    decreases |rows|
  {
    var rest := rows[1..];
    assert rows == [rows[0]] + rest;
    if r in rest && q in rest {
      SameKeySameRow(rest, r, q);
    }
  }

  lemma TwoApart(rows: seq<Row>, byDn: bool, listing: seq<Row>, i: nat, j: nat)
    requires Apart(rows, byDn) && multiset(listing) == multiset(rows) && i < j < |listing|
    ensures var a, b := listing[i], listing[j]; if byDn then a.dn != b.dn || a.ord != b.ord else a.ord != b.ord
  {
    hide DistinctOrds;
    var a, b := listing[i], listing[j];
    assert a in multiset(listing) && b in multiset(listing);
    assert a in rows && b in rows;
    OnceEach(rows, a);
    Twice(listing, i, j);
    if a.dn == b.dn && a.ord == b.ord {
      SameKeySameRow(rows, a, b);
    }
  }

  lemma Twice(listing: seq<Row>, i: nat, j: nat)
    requires i < j < |listing|
    ensures listing[i] == listing[j] ==> multiset(listing)[listing[i]] >= 2
  {
    var a, b := listing[i], listing[j];
    assert listing == listing[..i] + [a] + listing[i + 1..j] + [b] + listing[j + 1..];
  }

  lemma {:induction false} RowsOfDistinct(rows: seq<Row>, dn: Text)
    requires DistinctOrds(rows)
    ensures DistinctOrds(RowsOf(rows, dn))
    decreases |rows|
  {
    if rows != [] {
      RowsOfDistinct(rows[1..], dn);
      RowsOfMembers(rows[1..], dn);
      var rest := RowsOf(rows[1..], dn);
      if rows[0].dn == dn {
        assert RowsOf(rows, dn) == [rows[0]] + rest && ([rows[0]] + rest)[1..] == rest;
      } else {
        assert RowsOf(rows, dn) == rest;
      }
    }
  }

  /** In well-formed tables both queries have one possible answer: the attributes of an entry by `ord`, and all
      attributes by DN and `ord`. Every statement keeps tables well-formed. */
  lemma QueriesAreDetermined(t: Tables, dn: Text, one: seq<Row>, all: seq<Row>)
    requires WellFormed(t)
    requires multiset(one) == multiset(RowsOf(t.rows, dn)) && multiset(all) == multiset(t.rows)
    requires forall i, j :: 0 <= i < j < |one| ==> !Before(one[j], one[i], false)
    requires forall i, j :: 0 <= i < j < |all| ==> !Before(all[j], all[i], true)
    ensures one == OrderBy(RowsOf(t.rows, dn), false) && all == OrderBy(t.rows, true)
  {
    hide Before, OrderBy, DistinctOrds, RowsOf;
    RowsOfDistinct(t.rows, dn);
    RowsOfMembers(t.rows, dn);
    OrderIsDetermined(RowsOf(t.rows, dn), false, one);
    OrderIsDetermined(t.rows, true, all);
  }
}
