/** A session: its identity and digest nonce, and its handlers over the shared memory backend and rate limiter. */
module Session {
  import opened Octets
  import opened OrderedKeys
  import opened Entries
  import opened Dn
  import opened Modify
  import opened Filters
  import opened Memory
  import opened Acl
  import opened Schema
  import opened Bind
  import opened Messages
  import opened Handlers
  import opened RateLimit
  import opened Sasl
  import opened BindSession
  import opened SearchHandler
  import opened Paging

  /** The verdict the limiter gives at `now`; without one, every bind is let through. */
  ghost predicate Admits(limiter: RateLimiter?, peer: Text, now: int)
    reads limiter
  {
    || limiter == null
    || limiter.maxPerMinute == 0
    || AllowWith(limiter.maxPerMinute, Prune(limiter.buckets, now), ClientKey(peer), now).0
  }

  /** The limiter's table after a request it is asked about. */
  ghost function Charged(limiter: RateLimiter, peer: Text, now: int): Buckets
    reads limiter
  {
    if limiter.maxPerMinute == 0 then limiter.buckets
    else AllowWith(limiter.maxPerMinute, Prune(limiter.buckets, now), ClientKey(peer), now).1
  }

  class Session {
    const config: LdapConfig
    const schema: Option<Registry>
    const auth: Authenticator
    const sasl: bool
    const peer: Text
    const backend: MemoryBackend
    const limiter: RateLimiter?
    var channel: Channel
    var bound: bool
    var bindDn: Text
    var nonce: Text

    constructor (config: LdapConfig, schema: Option<Registry>, auth: Authenticator, sasl: bool, peer: Text,
                 backend: MemoryBackend, limiter: RateLimiter?, channel: Channel)
      ensures this.config == config && this.schema == schema && this.auth == auth && this.sasl == sasl
      ensures this.peer == peer && this.backend == backend && this.limiter == limiter && this.channel == channel
      ensures State() == NEW_SESSION
    {
      this.config, this.schema, this.auth, this.sasl := config, schema, auth, sasl;
      this.peer, this.backend, this.limiter, this.channel := peer, backend, limiter, channel;
      bound, bindDn, nonce := false, [], [];
    }

    function Surroundings(): Env
      reads this
    {
      Env(config, schema, auth.sha1, channel.tls)
    }

    function Who(): Identity
      reads this
    {
      Identity(bound, bindDn)
    }

    function State(): BindState
      reads this
    {
      BindState(bound, bindDn, nonce)
    }

    // ---------- bind ----------

    method HandleBind(request: BindRequestData, now: int, drawn: Text) returns (code: ResultCode, creds: Text)
      modifies this`bound, this`bindDn, this`nonce, limiter
      ensures BindReply(code, creds, State())
           == BindStep(BindEnv(config, auth, sasl), old(nonce),
                       BindCall(request, old(Admits(limiter, peer, now)), channel, old(backend.entries), drawn))
      ensures limiter != null ==>
                limiter.buckets == if request.version == 3 then old(Charged(limiter, peer, now)) else old(limiter.buckets)
      ensures limiter != null ==> limiter.maxPerMinute == old(limiter.maxPerMinute)
    {
      hide SimpleBind, ResolveName, SaslBind, AllowWith, Prune;
      creds := [];
      bound, bindDn := false, [];
      if request.version != 3 {
        return PROTOCOL_ERROR, [];
      }
      if limiter != null {
        var allowed := limiter.Allow(peer, now);
        if !allowed {
          return BUSY, [];
        }
      }
      if !request.simple {
        if !sasl {
          return AUTH_METHOD_NOT_SUPPORTED, [];
        }
        var (outcome, left) := SaslBind(auth, config, backend.entries, request, channel, nonce, drawn);
        nonce := left;
        if outcome.code == SUCCESS {
          bound, bindDn := true, outcome.bindDn;
        }
        return outcome.code, outcome.creds;
      }
      nonce := [];
      if config.requireConfidentiality && !channel.tls && request.password != [] {
        return CONFIDENTIALITY_REQUIRED, [];
      }
      code := SimpleBind(auth.sha1, config, backend.entries, request.dn, request.password);
      if code == SUCCESS {
        bound := true;
        if request.dn != [] {
          var resolved := ResolveName(config, backend.entries, request.dn);
          bindDn := if resolved.Some? then resolved.value else request.dn;
        }
      }
    }

    // ---------- add, modify, delete ----------

    method HandleAdd(add: EntryData, draws: Draws) returns (code: ResultCode)
      requires backend.Valid()
      modifies backend
      ensures backend.Valid()
      ensures Stepped(code, backend.entries) == AddStep(Surroundings(), Who(), draws, old(backend.entries), add)
    {
      hide WriteAllowed, CheckSchema, EncodeEntryPasswords, ToAttributes, FindKey, Add, UniqueKeys;
      if !WriteAllowed(Surroundings(), Who(), add.dn, backend.entries) {
        return INSUFFICIENT_ACCESS_RIGHTS;
      }
      if add.dn == [] {
        return INVALID_DN_SYNTAX;
      }
      var existing := backend.LookupEntry(add.dn);
      if existing.Some? {
        return ENTRY_ALREADY_EXISTS;
      }
      var parent := DnParent(add.dn);
      if parent != [] {
        var above := backend.LookupEntry(parent);
        if above.None? {
          return NAMING_VIOLATION;
        }
      }
      var attributes := EncodeEntryPasswords(Surroundings(), draws, ToAttributes(add.attributes));
      var checked := CheckSchema(Surroundings(), attributes);
      if checked != SUCCESS {
        return checked;
      }
      var ok := backend.AddEntry(DirectoryEntry(add.dn, attributes));
      return if ok then SUCCESS else OPERATIONS_ERROR;
    }

    method HandleModify(m: ModifyRequestData, draws: Draws) returns (code: ResultCode)
      requires backend.Valid()
      modifies backend
      ensures backend.Valid()
      ensures Stepped(code, backend.entries) == ModifyStep(Surroundings(), Who(), draws, old(backend.entries), m)
    {
      hide WriteAllowed, CheckSchema, EncodeChangePasswords, ApplyAll, Lookup, Memory.Modify, UniqueKeys;
      if !WriteAllowed(Surroundings(), Who(), m.dn, backend.entries) {
        return INSUFFICIENT_ACCESS_RIGHTS;
      }
      var found := backend.LookupEntry(m.dn);
      if found.None? {
        return NO_SUCH_OBJECT;
      }
      var edited := new MutableEntry(found.value.attributes);
      code := edited.ApplyModifications(EncodeChangePasswords(Surroundings(), draws, m.changes));
      if code != SUCCESS {
        return;
      }
      code := CheckSchema(Surroundings(), edited.attributes);
      if code != SUCCESS {
        return;
      }
      var ok := backend.ModifyEntry(found.value.(attributes := edited.attributes));
      return if ok then SUCCESS else OPERATIONS_ERROR;
    }

    method HandleDelete(dn: Text) returns (code: ResultCode)
      requires backend.Valid()
      modifies backend
      ensures backend.Valid()
      ensures Stepped(code, backend.entries) == DeleteStep(Surroundings(), Who(), old(backend.entries), dn)
    {
      hide WriteAllowed, FindKey, HasChildren, Remove, UniqueKeys;
      if !WriteAllowed(Surroundings(), Who(), dn, backend.entries) {
        return INSUFFICIENT_ACCESS_RIGHTS;
      }
      var found := backend.LookupEntry(dn);
      if found.None? {
        return NO_SUCH_OBJECT;
      }
      var parent := backend.HasChildEntries(dn);
      if parent {
        return NOT_ALLOWED_ON_NON_LEAF;
      }
      var ok := backend.RemoveEntry(dn);
      return if ok then SUCCESS else OPERATIONS_ERROR;
    }

    // ---------- modify DN ----------

    /** The RDN values edited in place: a missing old value and a present new one are not errors. */
    method EditRdn(m: ModifyDnRequestData, attributes: Attributes) returns (code: ResultCode, after: Attributes)
      ensures Applied(code, after) == RenamedAttributes(m, attributes)
    {
      hide ApplyAll;
      var edited := new MutableEntry(attributes);
      code := SUCCESS;
      var gone := ParseRdn(DnRdn(m.dn));
      if m.deleteOldRdn && gone.Some? {
        code := edited.ApplyModifications([AttributeModification(DELETE, gone.value.attribute, [gone.value.value])]);
        if code != SUCCESS && code != NO_SUCH_ATTRIBUTE {
          return code, edited.attributes;
        }
        code := SUCCESS;
      }
      var added := ParseRdn(m.newRdn);
      if added.Some? {
        code := edited.ApplyModifications([AttributeModification(ADD, added.value.attribute, [added.value.value])]);
        if code == ATTRIBUTE_OR_VALUE_EXISTS {
          code := SUCCESS;
        }
      }
      return code, edited.attributes;
    }

    method HandleModifyDn(m: ModifyDnRequestData) returns (code: ResultCode)
      requires backend.Valid()
      modifies backend
      ensures backend.Valid()
      ensures Stepped(code, backend.entries) == ModifyDnStep(Surroundings(), Who(), old(backend.entries), m)
    {
      hide WriteAllowed, CheckSchema, RenamedAttributes, FindKey, Memory.Modify, Rename, UniqueKeys;
      if m.newRdn == [] {
        return INVALID_DN_SYNTAX;
      }
      var parent := if m.newSuperior == [] then DnParent(m.dn) else m.newSuperior;
      var newDn := ComposeDn(m.newRdn, parent);
      if !WriteAllowed(Surroundings(), Who(), m.dn, backend.entries)
         || !WriteAllowed(Surroundings(), Who(), newDn, backend.entries) {
        return INSUFFICIENT_ACCESS_RIGHTS;
      }
      var found := backend.LookupEntry(m.dn);
      if found.None? {
        return NO_SUCH_OBJECT;
      }
      if parent != [] {
        var above := backend.LookupEntry(parent);
        if above.None? {
          return NAMING_VIOLATION;
        }
      }
      if !DnEquals(newDn, m.dn) {
        var taken := backend.LookupEntry(newDn);
        if taken.Some? {
          return ENTRY_ALREADY_EXISTS;
        }
      }
      var attributes;
      code, attributes := EditRdn(m, found.value.attributes);
      if code != SUCCESS {
        return;
      }
      code := CheckSchema(Surroundings(), attributes);
      if code != SUCCESS {
        return;
      }
      var ok := backend.ModifyEntry(found.value.(attributes := attributes));
      if !ok {
        return OPERATIONS_ERROR;
      }
      ok := backend.RenameEntry(m.dn, newDn);
      return if ok then SUCCESS else OPERATIONS_ERROR;
    }

    // ---------- password modify ----------

    method HandlePasswordModify(value: Text, draws: Draws) returns (code: ResultCode)
      requires backend.Valid()
      modifies backend
      ensures backend.Valid()
      ensures Stepped(code, backend.entries)
           == PasswordModifyStep(Surroundings(), Who(), draws, old(backend.entries), value)
    {
      hide PasswordTarget, CheckSchema, PasswordChange, ApplyAll, Lookup, Memory.Modify, UniqueKeys;
      var target := PasswordTarget(Surroundings(), Who(), backend.entries, value);
      if target.Refused? {
        return target.code;
      }
      var found := backend.LookupEntry(target.dn);
      if found.None? {
        return NO_SUCH_OBJECT;
      }
      var edited := new MutableEntry(found.value.attributes);
      code := edited.ApplyModifications([PasswordChange(Surroundings(), draws, target.password)]);
      if code != SUCCESS {
        return;
      }
      code := CheckSchema(Surroundings(), edited.attributes);
      if code != SUCCESS {
        return;
      }
      var ok := backend.ModifyEntry(found.value.(attributes := edited.attributes));
      return if ok then SUCCESS else OPERATIONS_ERROR;
    }

    // ---------- search ----------

    method FindVisible(dse: DirectoryEntry, search: SearchRequestData) returns (sight: Sight)
      ensures sight == Sees(config, bindDn, dse, backend.entries, search)
    {
      hide MaySearch, FindKey, Search, Visible, FilterMatches;
      if !search.filter.valid {
        return Denied(PROTOCOL_ERROR);
      }
      if search.baseDn != [] {
        var base := backend.LookupEntry(search.baseDn);
        if base.None? {
          return Denied(NO_SUCH_OBJECT);
        }
        if !MaySearch(config, bindDn, search.baseDn, backend.entries) {
          return Denied(INSUFFICIENT_ACCESS_RIGHTS);
        }
      }
      var matches: seq<DirectoryEntry> := [];
      if search.baseDn == [] && search.scope != ONE_LEVEL {
        matches := if FilterMatches(search.filter, dse) then [dse] else [];
        assert matches + [] == matches;
        if search.scope != BASE {
          var rest := backend.SearchEntries([], search.scope, search.filter);
          matches := matches + rest;
        }
      } else {
        matches := backend.SearchEntries(search.baseDn, search.scope, search.filter);
      }
      assert matches == Candidates(dse, backend.entries, search);
      var visible := KeepVisible(config, bindDn, matches, backend.entries);
      return Seen(visible);
    }

    /** `handleSearch`: the filter, the controls, the base, then the visible entries page by page. */
    method HandleSearch(dse: DirectoryEntry, search: SearchRequestData, controls: seq<LdapControl>, late: nat -> bool)
      returns (reply: SearchReply)
      requires |Candidates(dse, backend.entries, search)| < 0x8000_0000
      ensures reply == SearchStep(config, bindDn, dse, backend.entries, search, controls, late)
    {
      hide MaySearch, FindKey, Search, Visible, FilterMatches, ReadSearchControls, PageOf, Candidates;
      if !search.filter.valid {
        return Refuse(PROTOCOL_ERROR);
      }
      var asked := ScanControls(controls);
      if asked.BadControl? {
        return Refuse(asked.code);
      }
      var sight := FindVisible(dse, search);
      if sight.Denied? {
        return Refuse(sight.code);
      }
      VisibleIsFewer(config, bindDn, Candidates(dse, backend.entries, search), backend.entries);
      var page := SendPage(sight.entries, search.sizeLimit, asked.size, asked.cookie, Deadline(search.timeLimit, late));
      return ReplyWith(page);
    }
  }
}
