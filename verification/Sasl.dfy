/** SASL binds: PLAIN, DIGEST-MD5, EXTERNAL and ticket based, over the digest nonce of the session. */
module Sasl {
  import opened Octets
  import opened OrderedKeys
  import opened Entries
  import opened Dn
  import opened Memory
  import opened Acl
  import FilterText
  import opened Password
  import opened Bind
  import opened DigestMd5
  import opened Messages

  datatype Mechanism = AnonymousMechanism | PlainMechanism | DigestMechanism | TicketMechanism | ExternalMechanism

  /** What the ticket check says: no keytab, a broken one, a ticket is asked for, refused, or names its principal. */
  datatype Ticket = NoKeytab | BrokenKeytab | Asked(creds: Text) | Refused | Principal(name: Text)

  /** The authenticator with its foreign parts: the digests and the ticket check. */
  datatype Authenticator = Authenticator(enabled: set<Mechanism>, sha1: Sha1, md5: Md5, ticket: Text -> Ticket)

  /** What the connection knows about its peer. */
  datatype Channel = Channel(tls: bool, verified: bool, identity: Text)

  datatype SaslOutcome = SaslOutcome(code: ResultCode, bindDn: Text, creds: Text)

  function Failed(code: ResultCode): SaslOutcome {
    SaslOutcome(code, [], [])
  }

  function ParseMechanism(name: Text): Option<Mechanism> {
    if IEquals(name, Ascii("PLAIN")) then Some(PlainMechanism)
    else if IEquals(name, Ascii("DIGEST-MD5")) then Some(DigestMechanism)
    else if IEquals(name, Ascii("EXTERNAL")) then Some(ExternalMechanism)
    else if IEquals(name, Ascii("GSSAPI")) then Some(TicketMechanism)
    else if IEquals(name, Ascii("ANONYMOUS")) then Some(AnonymousMechanism)
    else None
  }

  // ---------- accounts ----------

  predicate IsRootName(config: LdapConfig, dn: Text) {
    config.rootDn != [] && DnEquals(dn, config.rootDn)
  }

  predicate IsAccountDisabled(config: LdapConfig, dir: Directory, dn: Text) {
    && !IsRootName(config, dn)
    && var entry := Lookup(dir, dn);
       entry.Some? && AccountDisabled(entry.value.attributes)
  }

  function RecoverablePassword(stored: Text): Option<Text> {
    match SchemePrefix(stored)
    case None => Some(stored)
    case Some(s) => if IEquals(s.scheme, CLEARTEXT) then Some(s.payload) else None
  }

  function PasswordFor(config: LdapConfig, dir: Directory, dn: Text): Option<Text> {
    if IsRootName(config, dn) then
      if config.rootPassword == [] then None else Some(config.rootPassword)
    else
      var entry :- Lookup(dir, dn);
      var values :- ValuesNamed(entry.attributes, USER_PASSWORD);
      if values == [] then None else RecoverablePassword(values[0])
  }

  // ---------- mechanisms ----------

  datatype PlainParts = PlainParts(authzid: Text, authcid: Text, password: Text)

  function ParsePlain(credentials: Text): Option<PlainParts> {
    var first := IndexOf(credentials, 0);
    if first == |credentials| then None
    else
      var rest := credentials[first + 1..];
      var second := IndexOf(rest, 0);
      if second == |rest| || second == 0 then None
      else Some(PlainParts(credentials[..first], rest[..second], rest[second + 1..]))
  }

  function PlainBind(auth: Authenticator, config: LdapConfig, dir: Directory, credentials: Text, tls: bool): SaslOutcome {
    if config.requireConfidentiality && !tls then Failed(CONFIDENTIALITY_REQUIRED)
    else
      match ParsePlain(credentials)
      case None => Failed(INVALID_CREDENTIALS)
      case Some(parts) =>
        match ResolveName(config, dir, parts.authcid)
        case None => Failed(INVALID_CREDENTIALS)
        case Some(dn) =>
          if parts.authzid != [] && !IEquals(parts.authzid, parts.authcid) && !DnEquals(parts.authzid, dn) then
            Failed(INSUFFICIENT_ACCESS_RIGHTS)
          else if SimpleBind(auth.sha1, config, dir, dn, parts.password) != SUCCESS then Failed(INVALID_CREDENTIALS)
          else SaslOutcome(SUCCESS, dn, [])
  }

  /** The answer to a response when a challenge is outstanding. */
  function DigestCheck(auth: Authenticator, config: LdapConfig, dir: Directory, credentials: Text, nonce: Text): SaslOutcome {
    var (e, response) := ReadExchange(credentials);
    if e.username == [] || e.nonce != nonce || e.cnonce == [] || response == [] then Failed(INVALID_CREDENTIALS)
    else
      match ResolveName(config, dir, e.username)
      case None => Failed(INVALID_CREDENTIALS)
      case Some(dn) =>
        if IsAccountDisabled(config, dir, dn) then Failed(INVALID_CREDENTIALS)
        else
          match PasswordFor(config, dir, dn)
          case None => Failed(INVALID_CREDENTIALS)
          case Some(password) =>
            if !IEquals(ResponseHash(auth.md5, e, password, AUTHENTICATE), response) then Failed(INVALID_CREDENTIALS)
            else SaslOutcome(SUCCESS, dn, RSPAUTH + ResponseHash(auth.md5, e, password, COLON))
  }

  /** A bind step's outcome and the nonce it leaves. */
  function DigestBind(auth: Authenticator, config: LdapConfig, dir: Directory, credentials: Text, nonce: Text, drawn: Text)
    : (SaslOutcome, Text)
  {
    if nonce == [] || credentials == [] then
      if drawn == [] then (Failed(OPERATIONS_ERROR), [])
      else (SaslOutcome(SASL_BIND_IN_PROGRESS, [], Challenge(RealmFromBase(config.baseDn), drawn)), drawn)
    else (DigestCheck(auth, config, dir, credentials, nonce), [])
  }

  function ExternalBind(config: LdapConfig, dir: Directory, request: BindRequestData, channel: Channel): SaslOutcome {
    if !channel.tls then Failed(CONFIDENTIALITY_REQUIRED)
    else if !channel.verified || channel.identity == [] then Failed(INVALID_CREDENTIALS)
    else
      match ResolveName(config, dir, channel.identity)
      case None => Failed(INVALID_CREDENTIALS)
      case Some(certDn) =>
        var requested := if request.credentials != [] then request.credentials else request.dn;
        var requestedDn := ResolveName(config, dir, requested);
        if requested != [] && (requestedDn.None? || !DnEquals(requestedDn.value, certDn)) then Failed(INVALID_CREDENTIALS)
        else if IsAccountDisabled(config, dir, certDn) then Failed(INVALID_CREDENTIALS)
        else SaslOutcome(SUCCESS, certDn, [])
  }

  function TicketBind(auth: Authenticator, config: LdapConfig, dir: Directory, credentials: Text): SaslOutcome {
    match auth.ticket(credentials)
    case NoKeytab => Failed(AUTH_METHOD_NOT_SUPPORTED)
    case BrokenKeytab => Failed(OPERATIONS_ERROR)
    case Asked(creds) => SaslOutcome(SASL_BIND_IN_PROGRESS, [], creds)
    case Refused => Failed(INVALID_CREDENTIALS)
    case Principal(name) =>
      match ResolveName(config, dir, name)
      case None => Failed(INVALID_CREDENTIALS)
      case Some(dn) =>
        if IsAccountDisabled(config, dir, dn) then Failed(INVALID_CREDENTIALS) else SaslOutcome(SUCCESS, dn, [])
  }

  function UsedMechanism(auth: Authenticator, name: Text): Option<Mechanism> {
    match ParseMechanism(name)
    case Some(m) => if m in auth.enabled then Some(m) else None
    case None => None
  }

  function SaslBind(auth: Authenticator, config: LdapConfig, dir: Directory, request: BindRequestData, channel: Channel,
                    nonce: Text, drawn: Text): (SaslOutcome, Text) {
    match UsedMechanism(auth, request.mechanism)
    case Some(PlainMechanism) => (PlainBind(auth, config, dir, request.credentials, channel.tls), nonce)
    case Some(DigestMechanism) => DigestBind(auth, config, dir, request.credentials, nonce, drawn)
    case Some(ExternalMechanism) => (ExternalBind(config, dir, request, channel), nonce)
    case Some(TicketMechanism) => (TicketBind(auth, config, dir, request.credentials), nonce)
    case _ => (Failed(AUTH_METHOD_NOT_SUPPORTED), nonce)
  }

  // ---------- the digest exchange completes ----------

  lemma HashIsPlain(md5: Md5, text: Text)
    ensures var h := Md5Hex(md5, text); h != [] && Plain(h) && COMMA !in h
  {
    hide Hex;
    HexClean(md5(text));
  }

  /** A client that knows the recoverable password of an enabled account answers the challenge, and is let in
      as the entry its name resolves to. */
  lemma DigestExchangeSucceeds(auth: Authenticator, config: LdapConfig, dir: Directory, username: Text, password: Text,
                               uri: Text, cnonce: Text, drawn: Text, dn: Text)
    requires Plain(RealmFromBase(config.baseDn)) && Plain(drawn) && drawn != []
    requires Plain(username) && username != [] && Plain(uri) && Plain(cnonce) && cnonce != []
    requires ResolveName(config, dir, username) == Some(dn)
    requires !IsAccountDisabled(config, dir, dn) && PasswordFor(config, dir, dn) == Some(password)
    ensures var (asked, nonce) := DigestBind(auth, config, dir, [], [], drawn);
            var answer := ClientResponse(auth.md5, asked.creds, username, password, uri, cnonce);
            && asked.code == SASL_BIND_IN_PROGRESS
            && answer.Some?
            && var (done, left) := DigestBind(auth, config, dir, answer.value, nonce, drawn);
               && done.code == SUCCESS && done.bindDn == dn && left == []
  {
    hide Plain, ParsePairs, PrintPairs, Challenge, PairOf, QopOf, ReadExchange, ResponsePairs, ResolveName, RealmFromBase,
         ResponseHash, IsAccountDisabled, PasswordFor;
    var realm := RealmFromBase(config.baseDn);
    ChallengeIsRead(realm, drawn);
    var sentUri := if uri == [] then Ascii("ldap/") else uri;
    LdapUriPlain();
    var e := Exchange(username, realm, drawn, cnonce, FIRST_USE, AUTH, sentUri);
    ResponseHashIsPlain(auth.md5, e, password);
    ResponseIsRead(e, ResponseHash(auth.md5, e, password, AUTHENTICATE));
    PrintedNotEmpty(e, ResponseHash(auth.md5, e, password, AUTHENTICATE));
  }

  lemma LdapUriPlain()
    ensures Plain(Ascii("ldap/"))
  {
  }

  lemma ResponseHashIsPlain(md5: Md5, e: Exchange, password: Text)
    ensures var h := ResponseHash(md5, e, password, AUTHENTICATE); h != [] && Plain(h) && COMMA !in h
  {
    hide Md5Hex, Plain;
    var ha1 := Md5Hex(md5, md5(e.username + COLON + e.realm + COLON + password) + COLON + e.nonce + COLON + e.cnonce);
    HashIsPlain(md5, ha1 + COLON + e.nonce + COLON + e.nc + COLON + e.cnonce + COLON + e.qop + COLON
                     + Md5Hex(md5, AUTHENTICATE + e.uri));
  }

  lemma PrintedNotEmpty(e: Exchange, response: Text)
    ensures PrintPairs(ResponsePairs(e, response)) != []
  {
  }

  // ---------- who a success stands for ----------

  /** Resolving a name gives the root or the DN of an entry. */
  lemma ResolvedIsKnown(config: LdapConfig, dir: Directory, name: Text)
    requires UniqueKeys(dir) && KeysMatch(dir) && ResolveName(config, dir, name).Some?
    ensures var dn := ResolveName(config, dir, name).value; dn == config.rootDn || dn in dir
  {
    hide FindAccount, IEquals;
    FoundIsStored(config, dir, name);
    var rdn := ParseRdn(DnRdn(name));
    if rdn.Some? {
      FoundIsStored(config, dir, rdn.value.value);
    }
  }

  lemma FoundIsStored(config: LdapConfig, dir: Directory, name: Text)
    requires KeysMatch(dir)
    ensures var found := FindAccount(config, dir, name); found.Some? ==> found.value in dir
  {
    hide Search;
    if FindAccount(config, dir, name).Some? {
      var filter := FilterText.ParseSearchFilter(FILTER_UID + name + FILTER_SAM + name + FILTER_END);
      var matches := Search(dir, config.baseDn, SUBTREE, filter);
      SearchIsExact(dir, config.baseDn, SUBTREE, filter, matches[0]);
    }
  }

  /** A password check never opens a disabled account. */
  lemma BindResolvedEnabled(sha1: Sha1, config: LdapConfig, dir: Directory, dn: Text, password: Text)
    ensures BindResolved(sha1, config, dir, dn, password) == SUCCESS ==> !IsAccountDisabled(config, dir, dn)
  {
    hide VerifyUserPassword, AccountDisabled;
  }

  /** So a successful simple bind never does, whatever the name resolves to. */
  lemma SimpleBindEnabled(sha1: Sha1, config: LdapConfig, dir: Directory, dn: Text, password: Text)
    ensures dn != [] && SimpleBind(sha1, config, dir, dn, password) == SUCCESS ==>
              ResolveName(config, dir, dn).Some? && !IsAccountDisabled(config, dir, ResolveName(config, dir, dn).value)
  {
    hide ResolveName, BindResolved, IsAccountDisabled;
    if dn != [] && ResolveName(config, dir, dn).Some? {
      BindResolvedEnabled(sha1, config, dir, ResolveName(config, dir, dn).value, password);
    }
  }

  // ---------- PLAIN resolves the name twice ----------

  /** What PLAIN has to get past before it looks at the password. */
  predicate PlainAdmits(config: LdapConfig, dir: Directory, parts: PlainParts, dn: Text) {
    && ResolveName(config, dir, parts.authcid) == Some(dn)
    && (parts.authzid == [] || IEquals(parts.authzid, parts.authcid) || DnEquals(parts.authzid, dn))
  }

  /** A request for one account whose password is wrong for it, but right for the account its DN resolves to. */
  predicate PlainMismatch(auth: Authenticator, config: LdapConfig, dir: Directory, credentials: Text, tls: bool) {
    && !(config.requireConfidentiality && !tls)
    && var parts := ParsePlain(credentials);
       && parts.Some?
       && var dn := ResolveName(config, dir, parts.value.authcid);
          && dn.Some? && PlainAdmits(config, dir, parts.value, dn.value)
          && BindResolved(auth.sha1, config, dir, dn.value, parts.value.password) != SUCCESS
          && var other := ResolveName(config, dir, dn.value);
             && other.Some? && !DnEquals(other.value, dn.value)
             && BindResolved(auth.sha1, config, dir, other.value, parts.value.password) == SUCCESS
  }

  function PasswordOf(credentials: Text): Text {
    var parts := ParsePlain(credentials);
    if parts.Some? then parts.value.password else []
  }

  /** Spellings of one DN take the same passwords. */
  lemma SameAccountBinds(sha1: Sha1, config: LdapConfig, dir: Directory, dn: Text, other: Text, password: Text)
    requires UniqueKeys(dir) && DnEquals(dn, other)
    ensures BindResolved(sha1, config, dir, dn, password) == BindResolved(sha1, config, dir, other, password)
  {
    hide BindEntry, VerifyUserPassword, Lower;
    match FindKey(dir.Keys, dn)
    case None =>
    case Some(k) =>
      FindUnique(dir, k, dn);
      FindUnique(dir, k, other);
  }

  /** PLAIN binds to an account with a password that is not the account's exactly in that case, disabled or not. */
  lemma PlainOpensAnotherExactly(auth: Authenticator, config: LdapConfig, dir: Directory, credentials: Text, tls: bool)
    requires UniqueKeys(dir) && KeysMatch(dir)
    ensures var o := PlainBind(auth, config, dir, credentials, tls);
            o.code == SUCCESS && BindResolved(auth.sha1, config, dir, o.bindDn, PasswordOf(credentials)) != SUCCESS <==>
              PlainMismatch(auth, config, dir, credentials, tls)
  {
    hide ResolveName, BindResolved, ParsePlain, IEquals, UniqueKeys, KeysMatch;
    if ParsePlain(credentials).Some? {
      var parts := ParsePlain(credentials).value;
      var dn := ResolveName(config, dir, parts.authcid);
      if dn.Some? {
        ResolvedNotEmpty(config, dir, parts.authcid);
        var other := ResolveName(config, dir, dn.value);
        if other.Some? && DnEquals(other.value, dn.value) {
          SameAccountBinds(auth.sha1, config, dir, other.value, dn.value, parts.password);
        }
      }
    }
  }

  /** The mismatch on a disabled account. */
  predicate PlainOpensDisabled(auth: Authenticator, config: LdapConfig, dir: Directory, request: BindRequestData, tls: bool) {
    && UsedMechanism(auth, request.mechanism) == Some(PlainMechanism)
    && PlainMismatch(auth, config, dir, request.credentials, tls)
    && IsAccountDisabled(config, dir, ResolveName(config, dir, ParsePlain(request.credentials).value.authcid).value)
  }

  /** Over all mechanisms and requests: a SASL bind opens a disabled account exactly by such a mismatch. */
  lemma SaslOpensDisabledExactly(auth: Authenticator, config: LdapConfig, dir: Directory, request: BindRequestData,
                                 channel: Channel, nonce: Text, drawn: Text)
    requires UniqueKeys(dir) && KeysMatch(dir)
    ensures var outcome := SaslBind(auth, config, dir, request, channel, nonce, drawn).0;
            outcome.code == SUCCESS && IsAccountDisabled(config, dir, outcome.bindDn) <==>
              PlainOpensDisabled(auth, config, dir, request, channel.tls)
  {
    hide ResolveName, BindResolved, IsAccountDisabled, PasswordFor, ReadExchange, ResponseHash, ParsePlain, ParseMechanism,
         IEquals, UniqueKeys, KeysMatch, SimpleBind;
    if UsedMechanism(auth, request.mechanism) == Some(PlainMechanism) {
      var o := PlainBind(auth, config, dir, request.credentials, channel.tls);
      PlainOpensAnotherExactly(auth, config, dir, request.credentials, channel.tls);
      BindResolvedEnabled(auth.sha1, config, dir, o.bindDn, PasswordOf(request.credentials));
      PlainBindsToName(auth, config, dir, request.credentials, channel.tls);
    }
  }

  lemma PlainBindsToName(auth: Authenticator, config: LdapConfig, dir: Directory, credentials: Text, tls: bool)
    ensures var o, parts := PlainBind(auth, config, dir, credentials, tls), ParsePlain(credentials);
            o.code == SUCCESS ==> parts.Some? && ResolveName(config, dir, parts.value.authcid) == Some(o.bindDn)
  {
    hide ResolveName, SimpleBind, ParsePlain, IEquals;
  }

  lemma ResolvedNotEmpty(config: LdapConfig, dir: Directory, name: Text)
    requires UniqueKeys(dir) && KeysMatch(dir)
    ensures var dn := ResolveName(config, dir, name); dn.Some? ==> dn.value != []
  {
    hide ResolveName;
    if ResolveName(config, dir, name).Some? {
      ResolvedIsKnown(config, dir, name);
      if ResolveName(config, dir, name) == Some(config.rootDn) {
        RootNotEmpty(config, dir, name);
      }
    }
  }

  lemma RootNotEmpty(config: LdapConfig, dir: Directory, name: Text)
    requires ResolveName(config, dir, name) == Some(config.rootDn) && [] !in dir && KeysMatch(dir)
    ensures config.rootDn != []
  {
    hide FindAccount, Lower;
    FoundIsStored(config, dir, name);
    var rdn := ParseRdn(DnRdn(name));
    if rdn.Some? {
      FoundIsStored(config, dir, rdn.value.value);
    }
  }

  /** The name and the DN it resolves to stand for the same account, if the DN resolves at all. */
  predicate ResolvesOnce(config: LdapConfig, dir: Directory, name: Text) {
    var dn := ResolveName(config, dir, name);
    dn.Some? ==>
      var again := ResolveName(config, dir, dn.value);
      again.Some? ==> DnEquals(again.value, dn.value)
  }

  /** What a caller can check on the request and the directory: it is not PLAIN, or its name resolves once. */
  predicate PlainIsSafe(auth: Authenticator, config: LdapConfig, dir: Directory, request: BindRequestData) {
    UsedMechanism(auth, request.mechanism) == Some(PlainMechanism) ==>
      var parts := ParsePlain(request.credentials);
      parts.Some? ==> ResolvesOnce(config, dir, parts.value.authcid)
  }

  /** Under that check no SASL mechanism opens a disabled account. */
  lemma SaslBindEnabled(auth: Authenticator, config: LdapConfig, dir: Directory, request: BindRequestData,
                        channel: Channel, nonce: Text, drawn: Text)
    requires UniqueKeys(dir) && KeysMatch(dir) && PlainIsSafe(auth, config, dir, request)
    ensures var outcome := SaslBind(auth, config, dir, request, channel, nonce, drawn).0;
            outcome.code == SUCCESS ==> !IsAccountDisabled(config, dir, outcome.bindDn)
  {
    hide SaslBind, ResolveName, BindResolved, IsAccountDisabled, ParsePlain, UsedMechanism, DnEquals, UniqueKeys, KeysMatch,
         IEquals;
    SaslOpensDisabledExactly(auth, config, dir, request, channel, nonce, drawn);
  }

  /** A name resolves once when the DN it resolves to has an equals sign. */
  lemma EqualsResolvesOnce(config: LdapConfig, dir: Directory, name: Text)
    requires UniqueKeys(dir) && KeysMatch(dir)
    ensures var dn := ResolveName(config, dir, name);
            dn.Some? && EQUALS in dn.value ==> ResolvesOnce(config, dir, name)
  {
    hide FindAccount, UniqueKeys, KeysMatch, Lower, ResolveName;
    var dn := ResolveName(config, dir, name);
    if dn.Some? && EQUALS in dn.value {
      ResolvedIsKnown(config, dir, name);
      ResolvedAgain(config, dir, dn.value);
    }
  }

  /** In a directory whose DNs all have one, and under a root whose DN has one, if there is a root, every request is safe. */
  lemma EqualsEverywhereIsSafe(auth: Authenticator, config: LdapConfig, dir: Directory, request: BindRequestData)
    requires UniqueKeys(dir) && KeysMatch(dir) && forall k <- dir :: EQUALS in k
    requires config.rootDn == [] || EQUALS in config.rootDn
    ensures PlainIsSafe(auth, config, dir, request)
  {
    hide ResolveName, UniqueKeys, KeysMatch, ParsePlain, UsedMechanism, ResolvesOnce;
    var parts := ParsePlain(request.credentials);
    if parts.Some? {
      var name := parts.value.authcid;
      if ResolveName(config, dir, name).Some? {
        ResolvedIsKnown(config, dir, name);
        ResolvedNotEmpty(config, dir, name);
        EqualsResolvesOnce(config, dir, name);
      } else {
        UnresolvedIsOnce(config, dir, name);
      }
    }
  }

  lemma UnresolvedIsOnce(config: LdapConfig, dir: Directory, name: Text)
    requires ResolveName(config, dir, name).None?
    ensures ResolvesOnce(config, dir, name)
  {
  }

  /** A DN with an equals sign resolves to itself, up to case. */
  lemma ResolvedAgain(config: LdapConfig, dir: Directory, dn: Text)
    requires UniqueKeys(dir) && KeysMatch(dir) && EQUALS in dn && (dn == config.rootDn || dn in dir)
    ensures ResolveName(config, dir, dn).Some? && DnEquals(ResolveName(config, dir, dn).value, dn)
  {
    hide FindAccount;
    if dn in dir {
      FindUnique(dir, dn, dn);
    }
  }

  // ---------- for some password ----------

  function PlainCredentials(authzid: Text, authcid: Text, password: Text): Text {
    authzid + [0] + authcid + [0] + password
  }

  /** `parsePlain` inverts `saslPlainCredentials` on names without NUL. */
  lemma PlainRoundTrip(authzid: Text, authcid: Text, password: Text)
    requires 0 !in authzid && 0 !in authcid && authcid != []
    ensures ParsePlain(PlainCredentials(authzid, authcid, password)) == Some(PlainParts(authzid, authcid, password))
  {
    var rest := authcid + [0] + password;
    var s := PlainCredentials(authzid, authcid, password);
    assert s == authzid + [0] + rest;
    NulEnds(authzid, rest);
    NulEnds(authcid, password);
  }

  lemma NulEnds(field: Text, rest: Text)
    requires 0 !in field
    ensures var s := field + [0] + rest; IndexOf(s, 0) == |field| && s[..|field|] == field && s[|field| + 1..] == rest
  {
    var s := field + [0] + rest;
    assert forall i :: 0 <= i < |field| ==> s[i] in field;
    IndexOfUnique(s, 0, |field|);
  }

  ghost predicate AcceptsSome(sha1: Sha1, config: LdapConfig, dir: Directory, dn: Text) {
    exists password :: BindResolved(sha1, config, dir, dn, password) == SUCCESS
  }

  ghost predicate PlainOpens(auth: Authenticator, config: LdapConfig, dir: Directory, authcid: Text, dn: Text, tls: bool) {
    exists password ::
      PlainBind(auth, config, dir, PlainCredentials([], authcid, password), tls) == SaslOutcome(SUCCESS, dn, [])
  }

  lemma PlainWith(auth: Authenticator, config: LdapConfig, dir: Directory, authcid: Text, password: Text, dn: Text, tls: bool)
    requires UniqueKeys(dir) && KeysMatch(dir) && 0 !in authcid && authcid != []
    requires !(config.requireConfidentiality && !tls)
    ensures PlainBind(auth, config, dir, PlainCredentials([], authcid, password), tls) == SaslOutcome(SUCCESS, dn, []) <==>
              && ResolveName(config, dir, authcid) == Some(dn)
              && ResolveName(config, dir, dn).Some?
              && BindResolved(auth.sha1, config, dir, ResolveName(config, dir, dn).value, password) == SUCCESS
  {
    hide ResolveName, BindResolved, ParsePlain, IEquals, UniqueKeys, KeysMatch, PlainCredentials;
    ResolvedNotEmpty(config, dir, authcid);
    PlainRoundTrip([], authcid, password);
  }

  /** Some password that is not its own opens `dn` under a name exactly when the name resolves to `dn`, and `dn` itself to
      another account that accepts a password `dn` does not. */
  lemma OpensWronglyExactly(auth: Authenticator, config: LdapConfig, dir: Directory, authcid: Text, dn: Text, tls: bool)
    requires UniqueKeys(dir) && KeysMatch(dir) && 0 !in authcid && authcid != []
    requires !(config.requireConfidentiality && !tls)
    ensures (exists password ::
               PlainBind(auth, config, dir, PlainCredentials([], authcid, password), tls) == SaslOutcome(SUCCESS, dn, [])
               && BindResolved(auth.sha1, config, dir, dn, password) != SUCCESS) <==>
              && ResolveName(config, dir, authcid) == Some(dn)
              && var other := ResolveName(config, dir, dn);
                 && other.Some? && !DnEquals(other.value, dn)
                 && exists password :: BindResolved(auth.sha1, config, dir, other.value, password) == SUCCESS
                                       && BindResolved(auth.sha1, config, dir, dn, password) != SUCCESS
  {
    hide ResolveName, BindResolved, PlainBind, IEquals, UniqueKeys, KeysMatch, PlainCredentials;
    var other := ResolveName(config, dir, dn);
    forall password
      ensures PlainBind(auth, config, dir, PlainCredentials([], authcid, password), tls) == SaslOutcome(SUCCESS, dn, []) <==>
                ResolveName(config, dir, authcid) == Some(dn) && other.Some?
                && BindResolved(auth.sha1, config, dir, other.value, password) == SUCCESS
      ensures other.Some? && DnEquals(other.value, dn) ==>
                BindResolved(auth.sha1, config, dir, other.value, password) == BindResolved(auth.sha1, config, dir, dn, password)
    {
      PlainWith(auth, config, dir, authcid, password, dn, tls);
      if other.Some? && DnEquals(other.value, dn) {
        SameAccountBinds(auth.sha1, config, dir, other.value, dn, password);
      }
    }
  }

  /** Some password opens disabled `dn` under a name exactly when the name resolves to `dn`, and `dn` itself to another
      account that accepts a password. */
  lemma DisabledOpensExactly(auth: Authenticator, config: LdapConfig, dir: Directory, authcid: Text, dn: Text, tls: bool)
    requires UniqueKeys(dir) && KeysMatch(dir) && 0 !in authcid && authcid != []
    requires !(config.requireConfidentiality && !tls) && IsAccountDisabled(config, dir, dn)
    ensures PlainOpens(auth, config, dir, authcid, dn, tls) <==>
              && ResolveName(config, dir, authcid) == Some(dn)
              && var other := ResolveName(config, dir, dn);
                 other.Some? && !DnEquals(other.value, dn) && AcceptsSome(auth.sha1, config, dir, other.value)
  {
    hide ResolveName, BindResolved, IsAccountDisabled, PlainBind, IEquals, UniqueKeys, KeysMatch, PlainCredentials;
    forall password ensures BindResolved(auth.sha1, config, dir, dn, password) != SUCCESS {
      BindResolvedEnabled(auth.sha1, config, dir, dn, password);
    }
    OpensWronglyExactly(auth, config, dir, authcid, dn, tls);
  }
}
