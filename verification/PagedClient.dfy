/** A client that follows cookies, against the session that serves it. */
module PagedClient {
  import opened Octets
  import opened Entries
  import opened Memory
  import opened Acl
  import opened Messages
  import opened Decimal
  import opened Paging
  import opened SearchHandler
  import opened Session

  function PagedControl(critical: bool, size: int32, cookie: Text): LdapControl {
    LdapControl(PAGED_RESULTS, critical, PagedValue(size, cookie))
  }

  /** A search that is refused is refused with the same code under paging. */
  lemma RefusedAlike(config: LdapConfig, bindDn: Text, dse: DirectoryEntry, dir: Directory, search: SearchRequestData,
                     critical: bool, size: int32, late: nat -> bool)
    requires |Candidates(dse, dir, search)| < 0x8000_0000
    ensures var sight := Sees(config, bindDn, dse, dir, search);
            sight.Denied? ==>
              SearchStep(config, bindDn, dse, dir, search, [PagedControl(critical, size, [])], late) == Refuse(sight.code)
  {
    hide PagedValue, ReadSearchControls, Candidates, Visible, MaySearch, Has;
    IssuedValue(size, [], 0, 0);
    OneControl(PagedControl(critical, size, []), size, []);
  }

  /** Ask, collect, and ask again with the returned cookie, until it is empty or the search fails: what is collected
      is what following the pages of the unpaged result gives. */
  method SearchByPages(session: Session, dse: DirectoryEntry, search: SearchRequestData, sizes: nat -> int32,
                       late: nat -> nat -> bool) returns (received: seq<DirectoryEntry>, result: ResultCode)
    requires KeysMatch(session.backend.entries) && search.baseDn != [] && search.timeLimit <= 0
    requires |Candidates(dse, session.backend.entries, search)| < 0x8000_0000 && forall t :: sizes(t) > 0
    ensures var dir := session.backend.entries;
            var sight := Sees(session.config, session.bindDn, dse, dir, search);
            (received, result)
              == if sight.Denied? then ([], sight.code)
                 else Follow(Search(dir, search.baseDn, search.scope, search.filter), search.sizeLimit, sizes, 0, 0)
  {
    hide Search, PagedValue, NextCookie, SearchStep, Prepend, Candidates, Sees, KeysMatch, ToDecimal, ReadPagedValue;
    var dir := session.backend.entries;
    ghost var all := Search(dir, search.baseDn, search.scope, search.filter);
    ghost var sight := Sees(session.config, session.bindDn, dse, dir, search);
    AllAreFew(dse, dir, search);
    received, result := [], SUCCESS;
    var cookie: Text := [];
    var turn: nat := 0;
    ghost var offset: nat := 0;
    PrependNothing(Follow(all, search.sizeLimit, sizes, 0, 0));
    while true
      invariant Issued(cookie, offset, |all|)
      invariant turn == 0 ==> offset == 0 && cookie == [] && received == []
      invariant turn > 0 ==> offset < |all| && sight.Seen?
      invariant sight.Seen? ==>
                  Follow(all, search.sizeLimit, sizes, 0, 0)
                    == Prepend(received, Follow(all, search.sizeLimit, sizes, turn, offset))
      decreases |all| - offset + if turn == 0 then 1 else 0
    {
      var size := sizes(turn);
      var control := PagedControl(true, size, cookie);
      var reply := session.HandleSearch(dse, search, [control], late(turn));
      if sight.Denied? {
        RefusedAlike(session.config, session.bindDn, dse, dir, search, true, size, late(turn));
      } else {
        HandlerServesPages(session.config, session.bindDn, dse, dir, search, true, size, cookie, offset, late(turn));
      }
      if reply.control.None? {
        return received, reply.code;
      }
      ghost var next := offset + SendCount(|all| - offset, search.sizeLimit, size).0;
      PrependLast(received, reply.entries, reply.code);
      PrependTwice(received, reply.entries, Follow(all, search.sizeLimit, sizes, turn + 1, next));
      received, result := received + reply.entries, reply.code;
      CookieBack(|all|, next, result);
      cookie := ReadPagedValue(reply.control.value).value.cookie;
      turn, offset := turn + 1, next;
      if cookie == [] || result != SUCCESS {
        return;
      }
    }
  }

  lemma AllAreFew(dse: DirectoryEntry, dir: Directory, search: SearchRequestData)
    requires search.baseDn != [] && |Candidates(dse, dir, search)| < 0x8000_0000
    ensures |Search(dir, search.baseDn, search.scope, search.filter)| < 0x8000_0000
  {
  }

  /** Without a size limit, or with one above every page size, it collects the whole result of the search. */
  method SearchEverything(session: Session, dse: DirectoryEntry, search: SearchRequestData, sizes: nat -> int32,
                          late: nat -> nat -> bool) returns (received: seq<DirectoryEntry>, result: ResultCode)
    requires KeysMatch(session.backend.entries) && search.baseDn != [] && search.timeLimit <= 0
    requires |Candidates(dse, session.backend.entries, search)| < 0x8000_0000 && forall t :: sizes(t) > 0
    requires search.sizeLimit <= 0 || forall t :: sizes(t) < search.sizeLimit
    requires Sees(session.config, session.bindDn, dse, session.backend.entries, search).Seen?
    ensures (received, result)
         == (Search(session.backend.entries, search.baseDn, search.scope, search.filter), SUCCESS)
  {
    hide Search, Follow, Candidates, Sees, KeysMatch;
    ghost var all := Search(session.backend.entries, search.baseDn, search.scope, search.filter);
    received, result := SearchByPages(session, dse, search, sizes, late);
    FollowReceivesAll(all, search.sizeLimit, sizes, 0, 0);
    assert all[0..] == all;
  }
}
