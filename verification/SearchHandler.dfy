/** The search handler: which entries a session may see, and what of them is sent. */
module SearchHandler {
  import opened Octets
  import opened OrderedKeys
  import opened Entries
  import opened Dn
  import opened Filters
  import opened Memory
  import opened Acl
  import opened Messages
  import opened Password
  import opened Handlers
  import opened Paging
  import opened Decimal

  datatype Sight = Denied(code: ResultCode) | Seen(entries: seq<DirectoryEntry>)

  /** The candidates before the visibility filter; an empty base also stands for the root DSE. */
  function Candidates(dse: DirectoryEntry, dir: Directory, search: SearchRequestData): seq<DirectoryEntry> {
    if search.baseDn == [] && search.scope != ONE_LEVEL then
      (if FilterMatches(search.filter, dse) then [dse] else [])
      + (if search.scope == BASE then [] else Search(dir, [], search.scope, search.filter))
    else Search(dir, search.baseDn, search.scope, search.filter)
  }

  function Sees(config: LdapConfig, bindDn: Text, dse: DirectoryEntry, dir: Directory, search: SearchRequestData): Sight {
    if !search.filter.valid then Denied(PROTOCOL_ERROR)
    else if search.baseDn != [] && !Has(dir, search.baseDn) then Denied(NO_SUCH_OBJECT)
    else if search.baseDn != [] && !MaySearch(config, bindDn, search.baseDn, dir) then Denied(INSUFFICIENT_ACCESS_RIGHTS)
    else Seen(Visible(config, bindDn, Candidates(dse, dir, search), dir))
  }

  /** Below a base that is not the root, a search that is not denied sees exactly the matching entries in scope. */
  lemma SeesEverythingBelow(config: LdapConfig, bindDn: Text, dse: DirectoryEntry, dir: Directory, search: SearchRequestData)
    requires KeysMatch(dir) && search.baseDn != []
    ensures var sight := Sees(config, bindDn, dse, dir, search);
            sight.Seen? ==> sight.entries == Search(dir, search.baseDn, search.scope, search.filter)
  {
    hide MaySearch, Search, Visible, Has;
    if Sees(config, bindDn, dse, dir, search).Seen? {
      SearchBelowAllowedBase(config, bindDn, search.baseDn, search.scope, search.filter, dir);
    }
  }

  /** Following cookies over a fixed directory delivers the whole result of the search, once and in order. */
  lemma PagedSearchDeliversAll(config: LdapConfig, bindDn: Text, dse: DirectoryEntry, dir: Directory,
                               search: SearchRequestData, sizes: nat -> int32)
    requires KeysMatch(dir) && search.baseDn != [] && forall t :: sizes(t) > 0
    requires search.sizeLimit <= 0 || forall t :: sizes(t) < search.sizeLimit
    ensures var sight := Sees(config, bindDn, dse, dir, search);
            sight.Seen? ==> Follow(sight.entries, search.sizeLimit, sizes, 0, 0)
                            == (Search(dir, search.baseDn, search.scope, search.filter), SUCCESS)
  {
    hide Sees, Search, Follow;
    SeesEverythingBelow(config, bindDn, dse, dir, search);
    var sight := Sees(config, bindDn, dse, dir, search);
    if sight.Seen? {
      FollowReceivesAll(sight.entries, search.sizeLimit, sizes, 0, 0);
      assert sight.entries[0..] == sight.entries;
    }
  }

  // ---------- controls ----------

  const PAGED_RESULTS: Text := Ascii("1.2.840.113556.1.4.319")

  datatype Controls = BadControl(code: ResultCode) | Asked(size: int32, cookie: Text)

  /** The control loop: a later paged results control replaces an earlier one, other critical controls are refused. */
  function ReadSearchControls(controls: seq<LdapControl>, size: int32, cookie: Text): Controls
    decreases |controls|
  {
    if controls == [] then Asked(size, cookie)
    else
      var c := controls[0];
      if IEquals(c.oid, PAGED_RESULTS) then
        match ReadPagedValue(c.value)
        case None => BadControl(if c.critical then UNAVAILABLE_CRITICAL_EXTENSION else PROTOCOL_ERROR)
        case Some(r) => ReadSearchControls(controls[1..], r.size, r.cookie)
      else if c.critical then BadControl(UNAVAILABLE_CRITICAL_EXTENSION)
      else ReadSearchControls(controls[1..], size, cookie)
  }

  // ---------- the whole handler ----------

  /** The entries sent, the result code and the response control. */
  datatype SearchReply =
    | SearchReply(entries: seq<DirectoryEntry>, code: ResultCode, control: Option<Text>)
    | UndefinedReply // the loop indexes before the first entry, or the remainder overflows an int

  function Refuse(code: ResultCode): SearchReply {
    SearchReply([], code, None)
  }

  function ReplyWith(page: Page<DirectoryEntry>): SearchReply {
    match page
    case Page(entries, code, control) => SearchReply(entries, code, control)
    case Undefined => UndefinedReply
    case _ => Refuse(PROTOCOL_ERROR)
  }

  /** Without a time limit no check finds the search late. */
  function Deadline(timeLimit: int32, late: nat -> bool): nat -> bool {
    (k: nat) => timeLimit > 0 && late(k)
  }

  /** `late(k)` says whether the deadline has passed when the loop looks before its entry `k`. */
  function SearchStep(config: LdapConfig, bindDn: Text, dse: DirectoryEntry, dir: Directory, search: SearchRequestData,
                      controls: seq<LdapControl>, late: nat -> bool): SearchReply
    requires |Candidates(dse, dir, search)| < 0x8000_0000
  {
    if !search.filter.valid then Refuse(PROTOCOL_ERROR)
    else
      match ReadSearchControls(controls, -1, [])
      case BadControl(code) => Refuse(code)
      case Asked(size, cookie) =>
        match Sees(config, bindDn, dse, dir, search)
        case Denied(code) => Refuse(code)
        case Seen(visible) =>
          VisibleIsFewer(config, bindDn, Candidates(dse, dir, search), dir);
          ReplyWith(PageOf(visible, search.sizeLimit, size, cookie, Deadline(search.timeLimit, late)))
  }

  /** The handler's behaviour is undefined exactly for a request that passes every check and asks, from a cookie that
      wraps around to a negative offset, for a page, unless the deadline has passed and the remainder fits an int. */
  lemma SearchUndefinedExactly(config: LdapConfig, bindDn: Text, dse: DirectoryEntry, dir: Directory,
                               search: SearchRequestData, controls: seq<LdapControl>, late: nat -> bool)
    requires |Candidates(dse, dir, search)| < 0x8000_0000
    ensures var asked, sight := ReadSearchControls(controls, -1, []), Sees(config, bindDn, dse, dir, search);
            SearchStep(config, bindDn, dse, dir, search, controls, late) == UndefinedReply <==>
              && search.filter.valid && asked.Asked? && sight.Seen?
              && WrapsAround(asked.cookie) && asked.size != 0
              && (!(search.timeLimit > 0 && late(0))
                  || (asked.size > 0 && |sight.entries| + Depth(asked.cookie) >= 0x8000_0000))
  {
    hide ReadSearchControls, PageOf, Visible, Candidates, MaySearch, Has, WrapsAround;
    var asked, sight := ReadSearchControls(controls, -1, []), Sees(config, bindDn, dse, dir, search);
    if search.filter.valid && asked.Asked? && sight.Seen? {
      VisibleIsFewer(config, bindDn, Candidates(dse, dir, search), dir);
      UndefinedExactly(sight.entries, search.sizeLimit, asked.size, asked.cookie, Deadline(search.timeLimit, late));
    }
  }

  /** The root DSE asked for, by anyone. */
  const ROOT_SEARCH: SearchRequestData := SearchRequestData([], BASE, 0, 0, false, SearchFilter(true, True), [])

  lemma RootIsSeen(config: LdapConfig, bindDn: Text, dse: DirectoryEntry, dir: Directory)
    ensures |Candidates(dse, dir, ROOT_SEARCH)| == 1 && Sees(config, bindDn, dse, dir, ROOT_SEARCH).Seen?
  {
    hide Visible;
    assert FilterMatches(ROOT_SEARCH.filter, dse);
  }

  /** The control value with the cookie 2147483648 reads back. */
  lemma WrappedValue()
    ensures var cookie := ToDecimal(0x8000_0000);
            ReadPagedValue(PagedValue(1, cookie)) == Some(PageRequest(1, cookie)) && WrapsAround(cookie)
  {
    hide WholeNonNegative, ToDecimal, PagedValue, ReadPagedValue;
    DecimalRoundTrip(0x8000_0000);
    assert PowerOfTen(5) == 10_0000;
    assert PowerOfTen(10) == 100_0000_0000;
    DecimalWidth(0x8000_0000, 10);
    ShortBody(1, ToDecimal(0x8000_0000));
    PagedValueRoundTrip(1, ToDecimal(0x8000_0000));
  }

  /** One such request: the root DSE with a page size of one and the cookie 2147483648. */
  lemma WrappedRequest(config: LdapConfig, bindDn: Text, dse: DirectoryEntry, dir: Directory, critical: bool, late: nat -> bool)
    ensures var control := LdapControl(PAGED_RESULTS, critical, PagedValue(1, ToDecimal(0x8000_0000)));
            && |Candidates(dse, dir, ROOT_SEARCH)| == 1
            && SearchStep(config, bindDn, dse, dir, ROOT_SEARCH, [control], late) == UndefinedReply
  {
    hide ReadSearchControls, WrapsAround, ToDecimal, PagedValue, ReadPagedValue, SearchStep, Candidates, Sees;
    var cookie := ToDecimal(0x8000_0000);
    var control := LdapControl(PAGED_RESULTS, critical, PagedValue(1, cookie));
    RootIsSeen(config, bindDn, dse, dir);
    WrappedValue();
    OneControl(control, 1, cookie);
    SearchUndefinedExactly(config, bindDn, dse, dir, ROOT_SEARCH, [control], late);
  }

  lemma {:induction false} VisibleIsFewer(config: LdapConfig, bindDn: Text, entries: seq<DirectoryEntry>, dir: Directory)
    ensures |Visible(config, bindDn, entries, dir)| <= |entries|
    decreases |entries|
  {
    hide MaySearch;
    if entries != [] {
      VisibleIsFewer(config, bindDn, entries[1..], dir);
    }
  }

  /** The page of a result that starts at an offset, with the remainder and the cookie for the next one. */
  function PageReply(all: seq<DirectoryEntry>, offset: nat, sizeLimit: int32, size: int32): SearchReply
    requires offset <= |all| < 0x8000_0000
  {
    var (sent, code) := SendCount(|all| - offset, sizeLimit, size);
    var next := offset + sent;
    SearchReply(all[offset..next], code, Some(PagedValue(|all| - next, NextCookie(next, |all|, code))))
  }

  /** A request with one paged results control, an issued cookie and no time limit is answered with the page that
      starts at the cookie's offset: entries, remainder and next cookie are those of the unpaged result. */
  lemma HandlerServesPages(config: LdapConfig, bindDn: Text, dse: DirectoryEntry, dir: Directory, search: SearchRequestData,
                           critical: bool, size: int32, cookie: Text, offset: nat, late: nat -> bool)
    requires KeysMatch(dir) && search.baseDn != [] && search.timeLimit <= 0 && size > 0
    requires |Candidates(dse, dir, search)| < 0x8000_0000
    requires Issued(cookie, offset, |Search(dir, search.baseDn, search.scope, search.filter)|)
    requires Sees(config, bindDn, dse, dir, search).Seen?
    ensures var all := Search(dir, search.baseDn, search.scope, search.filter);
            var control := LdapControl(PAGED_RESULTS, critical, PagedValue(size, cookie));
            && |all| < 0x8000_0000
            && SearchStep(config, bindDn, dse, dir, search, [control], late)
               == PageReply(all, offset, search.sizeLimit, size)
  {
    hide Search, PagedValue, ReadPagedValue, PageOf, NextCookie, SendCount, TimedCount, Visible, MaySearch, Has,
         ReadSearchControls;
    SeesEverythingBelow(config, bindDn, dse, dir, search);
    var all := Search(dir, search.baseDn, search.scope, search.filter);
    var never := Deadline(search.timeLimit, late);
    var control := LdapControl(PAGED_RESULTS, critical, PagedValue(size, cookie));
    IssuedPage(all, search.sizeLimit, size, cookie, offset, never);
    NoDeadline(|all| - offset, search.sizeLimit, size, never);
    IssuedValue(size, cookie, offset, |all|);
    OneControl(control, size, cookie);
    assert ServePage(all, search.sizeLimit, control.value, never) == PageOf(all, search.sizeLimit, size, cookie, never);
  }

  lemma OneControl(control: LdapControl, size: int32, cookie: Text)
    requires control.oid == PAGED_RESULTS && ReadPagedValue(control.value) == Some(PageRequest(size, cookie))
    ensures ReadSearchControls([control], -1, []) == Asked(size, cookie)
  {
    hide ReadPagedValue, IEquals;
    SameIsEqual(PAGED_RESULTS);
    assert [control][1..] == [];
    assert ReadSearchControls([], size, cookie) == Asked(size, cookie);
  }

  lemma IssuedValue(size: int32, cookie: Text, offset: nat, total: nat)
    requires total < 0x8000_0000 && Issued(cookie, offset, total)
    ensures ReadPagedValue(PagedValue(size, cookie)) == Some(PageRequest(size, cookie))
  {
    hide PagedValue, ReadPagedValue, ToDecimal;
    CookieValueRoundTrip(size, offset);
  }

  /** The control loop as it runs. */
  method ScanControls(controls: seq<LdapControl>) returns (asked: Controls)
    ensures asked == ReadSearchControls(controls, -1, [])
  {
    hide IEquals, ReadPagedValue;
    var size: int32, cookie: Text := -1, [];
    var i := 0;
    assert controls[0..] == controls;
    while i < |controls|
      invariant 0 <= i <= |controls|
      invariant ReadSearchControls(controls[i..], size, cookie) == ReadSearchControls(controls, -1, [])
    {
      var c := controls[i];
      assert controls[i..][1..] == controls[i + 1..];
      if IEquals(c.oid, PAGED_RESULTS) {
        var r := ReadPagedValue(c.value);
        if r.None? {
          return BadControl(if c.critical then UNAVAILABLE_CRITICAL_EXTENSION else PROTOCOL_ERROR);
        }
        size, cookie := r.value.size, r.value.cookie;
      } else if c.critical {
        return BadControl(UNAVAILABLE_CRITICAL_EXTENSION);
      }
      i := i + 1;
    }
    return Asked(size, cookie);
  }

  // ---------- the loops ----------

  lemma VisibleHead(config: LdapConfig, bindDn: Text, entries: seq<DirectoryEntry>, dir: Directory)
    requires entries != []
    ensures Visible(config, bindDn, entries, dir)
         == (if MaySearch(config, bindDn, entries[0].dn, dir) then [entries[0]] else [])
            + Visible(config, bindDn, entries[1..], dir)
  {
    hide MaySearch;
  }

  lemma {:induction false} VisibleLast(config: LdapConfig, bindDn: Text, entries: seq<DirectoryEntry>, i: nat, dir: Directory)
    requires i < |entries|
    ensures Visible(config, bindDn, entries[..i + 1], dir)
         == Visible(config, bindDn, entries[..i], dir)
            + if MaySearch(config, bindDn, entries[i].dn, dir) then [entries[i]] else []
    decreases i
  {
    hide MaySearch, Visible;
    VisibleNone(config, bindDn, dir);
    VisibleHead(config, bindDn, entries[..i + 1], dir);
    assert entries[..i + 1][1..] == entries[1..][..i];
    if i > 0 {
      VisibleHead(config, bindDn, entries[..i], dir);
      VisibleLast(config, bindDn, entries[1..], i - 1, dir);
      assert entries[..i][1..] == entries[1..][..i - 1];
    }
  }

  lemma VisibleNone(config: LdapConfig, bindDn: Text, dir: Directory)
    ensures Visible(config, bindDn, [], dir) == []
  {
  }

  method KeepVisible(config: LdapConfig, bindDn: Text, entries: seq<DirectoryEntry>, dir: Directory)
    returns (visible: seq<DirectoryEntry>)
    ensures visible == Visible(config, bindDn, entries, dir)
  {
    hide MaySearch, Visible;
    visible := [];
    VisibleNone(config, bindDn, dir);
    assert entries[..0] == [];
    var i := 0;
    while i < |entries|
      invariant 0 <= i <= |entries|
      invariant visible == Visible(config, bindDn, entries[..i], dir)
    {
      VisibleLast(config, bindDn, entries, i, dir);
      if MaySearch(config, bindDn, entries[i].dn, dir) {
        visible := visible + [entries[i]];
      }
      i := i + 1;
    }
    assert entries[..|entries|] == entries;
  }

  // ---------- what is sent of an entry ----------

  const STAR_NAME: Text := Ascii("*")
  const NO_ATTRIBUTES: Text := Ascii("1.1")

  predicate Wanted(names: seq<Text>, attribute: Text) {
    names == [] || STAR_NAME in names || exists n | n in names :: IEquals(n, attribute)
  }

  predicate RevealsPasswords(config: LdapConfig, who: Identity) {
    who.bound && who.bindDn != [] && DnEquals(who.bindDn, config.rootDn)
  }

  predicate Sent(config: LdapConfig, who: Identity, search: SearchRequestData, attribute: Text) {
    && search.attributes != [NO_ATTRIBUTES]
    && Wanted(search.attributes, attribute)
    && (IEquals(attribute, USER_PASSWORD) ==> RevealsPasswords(config, who))
  }

  /** The loop of `toSearchEntry`: types in map order, those not wanted left out. */
  method ToSearchEntry(config: LdapConfig, who: Identity, entry: DirectoryEntry, search: SearchRequestData)
    returns (data: EntryData)
    ensures data.dn == entry.dn
    ensures forall a :: a in data.attributes <==>
              && a.attribute in entry.attributes && Sent(config, who, search, a.attribute)
              && a.values == if search.typesOnly then [] else entry.attributes[a.attribute]
    ensures forall i, j :: 0 <= i < j < |data.attributes| ==>
              LexLess(data.attributes[i].attribute, data.attributes[j].attribute)
  {
    hide Wanted, RevealsPasswords, IEquals, SortedKeys, LexLess;
    if search.attributes == [NO_ATTRIBUTES] {
      return EntryData(entry.dn, []);
    }
    var kinds := SortedKeys(entry.attributes.Keys);
    var attributes: seq<PartialAttribute> := [];
    var i := 0;
    while i < |kinds|
      invariant 0 <= i <= |kinds|
      invariant forall a :: a in attributes <==>
                  && a.attribute in kinds[..i] && Sent(config, who, search, a.attribute)
                  && a.values == if search.typesOnly then [] else entry.attributes[a.attribute]
      invariant forall m, n :: 0 <= m < n < |attributes| ==> LexLess(attributes[m].attribute, attributes[n].attribute)
    {
      var k := kinds[i];
      assert k in kinds;
      assert kinds[..i + 1] == kinds[..i] + [k];
      ghost var before := attributes;
      assert forall a <- before :: LexLess(a.attribute, k);
      if Wanted(search.attributes, k) && (IEquals(k, USER_PASSWORD) ==> RevealsPasswords(config, who)) {
        attributes := attributes + [PartialAttribute(k, if search.typesOnly then [] else entry.attributes[k])];
      }
      i := i + 1;
    }
    assert kinds[..|kinds|] == kinds;
    return EntryData(entry.dn, attributes);
  }
}
