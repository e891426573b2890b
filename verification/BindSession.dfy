/** Bind requests on one session: the identity, the outstanding digest challenge, and what every run of binds keeps. */
module BindSession {
  import opened Octets
  import opened Entries
  import opened Dn
  import opened Memory
  import opened Acl
  import opened Bind
  import opened Sasl
  import opened DigestMd5
  import opened Messages
  import OrderedKeys
  import opened Password
  import opened DisabledAccounts

  /** `bound_`, `bind_dn_` and `sasl_digest_nonce_`. */
  datatype BindState = BindState(bound: bool, bindDn: Text, nonce: Text)

  const NEW_SESSION: BindState := BindState(false, [], [])

  /** The fixed surroundings; the SASL authenticator may be absent. */
  datatype BindEnv = BindEnv(config: LdapConfig, auth: Authenticator, sasl: bool)

  /** A request with everything that can differ from one bind to the next: the rate limiter's verdict, the
      connection, the directory at that moment, and the random nonce, empty when the generator fails. */
  datatype BindCall = BindCall(request: BindRequestData, admitted: bool, channel: Channel, dir: Directory, drawn: Text)

  datatype BindReply = BindReply(code: ResultCode, creds: Text, state: BindState)

  function Refusal(code: ResultCode, nonce: Text): BindReply {
    BindReply(code, [], BindState(false, [], nonce))
  }

  function SimpleReply(env: BindEnv, call: BindCall): BindReply {
    var r := call.request;
    var code := SimpleBind(env.auth.sha1, env.config, call.dir, r.dn, r.password);
    if env.config.requireConfidentiality && !call.channel.tls && r.password != [] then
      Refusal(CONFIDENTIALITY_REQUIRED, [])
    else if code != SUCCESS then Refusal(code, [])
    else if r.dn == [] then BindReply(SUCCESS, [], BindState(true, [], []))
    else
      var resolved := ResolveName(env.config, call.dir, r.dn);
      BindReply(SUCCESS, [], BindState(true, if resolved.Some? then resolved.value else r.dn, []))
  }

  function SaslReply(env: BindEnv, nonce: Text, call: BindCall): BindReply {
    if !env.sasl then Refusal(AUTH_METHOD_NOT_SUPPORTED, nonce)
    else
      var (o, left) := SaslBind(env.auth, env.config, call.dir, call.request, call.channel, nonce, call.drawn);
      if o.code == SUCCESS then BindReply(SUCCESS, o.creds, BindState(true, o.bindDn, left))
      else BindReply(o.code, o.creds, BindState(false, [], left))
  }

  function BindStep(env: BindEnv, nonce: Text, call: BindCall): BindReply {
    if call.request.version != 3 then Refusal(PROTOCOL_ERROR, nonce)
    else if !call.admitted then Refusal(BUSY, nonce)
    else if call.request.simple then SimpleReply(env, call)
    else SaslReply(env, nonce, call)
  }

  /** The reply to call number `n` of a run on a new session. */
  function ReplyAt(env: BindEnv, calls: seq<BindCall>, n: nat): BindReply
    requires n < |calls|
    decreases n
  {
    BindStep(env, StateBefore(env, calls, n).nonce, calls[n])
  }

  function StateBefore(env: BindEnv, calls: seq<BindCall>, n: nat): BindState
    requires n <= |calls|
    decreases n, 0
  {
    if n == 0 then NEW_SESSION else ReplyAt(env, calls, n - 1).state
  }

  // ---------- identity ----------

  /** The request got past the version and rate checks. */
  predicate Considered(call: BindCall) {
    call.request.version == 3 && call.admitted
  }

  /** After every run, the session is bound exactly when the last bind was answered Success; otherwise it is anonymous. */
  lemma BoundIffLastSucceeded(env: BindEnv, calls: seq<BindCall>, n: nat)
    requires 0 < n <= |calls|
    ensures var s := StateBefore(env, calls, n);
            && (s.bound <==> ReplyAt(env, calls, n - 1).code == SUCCESS)
            && (!s.bound ==> s.bindDn == [])
            && (s.bindDn != [] ==> ReplyAt(env, calls, n - 1).code == SUCCESS)
  {
    hide SimpleBind, SaslBind, ResolveName;
  }

  /** Over every run, a bind opens a disabled account exactly when it is a considered PLAIN request for one whose DN
      resolves to another account, with that account's password. */
  lemma BoundToDisabledExactly(env: BindEnv, calls: seq<BindCall>, n: nat)
    requires n < |calls| && UniqueKeys(calls[n].dir) && KeysMatch(calls[n].dir)
    ensures var reply, call := ReplyAt(env, calls, n), calls[n];
            reply.code == SUCCESS && IsAccountDisabled(env.config, call.dir, reply.state.bindDn) <==>
              && Considered(call) && !call.request.simple && env.sasl
              && PlainOpensDisabled(env.auth, env.config, call.dir, call.request, call.channel.tls)
  {
    hide SimpleBind, SaslBind, ResolveName, IsAccountDisabled, UniqueKeys, KeysMatch, PlainOpensDisabled;
    var call := calls[n];
    EmptyIsNoAccount(env.config, call.dir);
    SimpleBindEnabled(env.auth.sha1, env.config, call.dir, call.request.dn, call.request.password);
    SaslOpensDisabledExactly(env.auth, env.config, call.dir, call.request, call.channel,
                             StateBefore(env, calls, n).nonce, call.drawn);
  }

  lemma EmptyIsNoAccount(config: LdapConfig, dir: Directory)
    requires UniqueKeys(dir)
    ensures !IsAccountDisabled(config, dir, [])
  {
    hide AccountDisabled;
    if Lookup(dir, []).Some? {
      SameLength(OrderedKeys.FindKey(dir.Keys, []).value, []);
    }
  }

  /** So none does when the name of every PLAIN request resolves once. */
  lemma BoundAccountIsEnabled(env: BindEnv, calls: seq<BindCall>, n: nat)
    requires n < |calls| && UniqueKeys(calls[n].dir) && KeysMatch(calls[n].dir)
    requires calls[n].request.simple || PlainIsSafe(env.auth, env.config, calls[n].dir, calls[n].request)
    ensures ReplyAt(env, calls, n).code == SUCCESS ==>
              !IsAccountDisabled(env.config, calls[n].dir, ReplyAt(env, calls, n).state.bindDn)
  {
    hide ReplyAt, ResolveName, IsAccountDisabled, UniqueKeys, KeysMatch, BindResolved, ParsePlain, UsedMechanism, DnEquals;
    BoundToDisabledExactly(env, calls, n);
  }

  /** Call `n` of a run on a new session binds a disabled account: the PLAIN request above, as the only call. */
  lemma SessionOpensDisabled(env: BindEnv, call: BindCall)
    requires env.config == NoRoot() && env.sasl && PlainMechanism in env.auth.enabled
    requires Considered(call) && !call.request.simple && call.dir == TwoAccounts()
    requires ParseMechanism(call.request.mechanism) == Some(PlainMechanism)
    requires call.request.credentials == PlainCredentials([], NAME, SECRET)
    ensures var reply := ReplyAt(env, [call], 0);
            reply.code == SUCCESS && reply.state == BindState(true, SHADOWED, [])
    ensures IsAccountDisabled(env.config, call.dir, SHADOWED)
  {
    hide PlainBind, ParseMechanism, IsAccountDisabled, TwoAccounts, PlainCredentials;
    DisabledAccountOpens(env.auth, call.channel.tls);
    assert StateBefore(env, [call], 0) == NEW_SESSION;
  }

  // ---------- the digest challenge ----------

  predicate DigestCall(env: BindEnv, call: BindCall) {
    && Considered(call) && !call.request.simple && env.sasl
    && UsedMechanism(env.auth, call.request.mechanism) == Some(DigestMechanism)
  }

  /** Call `n` was answered with a new challenge. */
  predicate Challenged(env: BindEnv, calls: seq<BindCall>, n: nat)
    requires n < |calls|
  {
    DigestCall(env, calls[n]) && ReplyAt(env, calls, n).code == SASL_BIND_IN_PROGRESS
  }

  predicate DigestSucceeded(env: BindEnv, calls: seq<BindCall>, n: nat)
    requires n < |calls|
  {
    DigestCall(env, calls[n]) && ReplyAt(env, calls, n).code == SUCCESS
  }

  /** Call `n` ends any outstanding challenge: a considered simple bind, or any digest step. */
  predicate EndsChallenge(env: BindEnv, call: BindCall) {
    DigestCall(env, call) || (Considered(call) && call.request.simple)
  }

  /** The challenge of call `j` is outstanding after `n` calls. */
  ghost predicate Outstanding(env: BindEnv, calls: seq<BindCall>, j: nat, n: nat)
    requires n <= |calls|
  {
    && j < n && Challenged(env, calls, j)
    && forall i :: j < i < n ==> !EndsChallenge(env, calls[i])
  }

  lemma DigestStep(env: BindEnv, nonce: Text, call: BindCall)
    requires DigestCall(env, call)
    ensures var r := BindStep(env, nonce, call);
            && (r.state.nonce != [] <==> r.code == SASL_BIND_IN_PROGRESS)
            && (r.state.nonce != [] ==>
                  r.state.nonce == call.drawn && r.creds == Challenge(RealmFromBase(env.config.baseDn), call.drawn))
            && (r.code == SUCCESS ==> nonce != [] && ReadExchange(call.request.credentials).0.nonce == nonce)
  {
    hide ReadExchange, ResolveName, IsAccountDisabled, PasswordFor, ResponseHash, Challenge, RealmFromBase, ParseMechanism;
  }

  lemma OtherStep(env: BindEnv, nonce: Text, call: BindCall)
    requires !DigestCall(env, call)
    ensures BindStep(env, nonce, call).state.nonce == if EndsChallenge(env, call) then [] else nonce
  {
    hide SimpleBind, ResolveName, PlainBind, ExternalBind, TicketBind, ParseMechanism;
  }

  /** The nonce is set exactly when some challenge is outstanding, and then it is that challenge's nonce. */
  lemma {:induction false} NonceIsOutstanding(env: BindEnv, calls: seq<BindCall>, n: nat)
    requires n <= |calls|
    ensures StateBefore(env, calls, n).nonce != [] <==> exists j: nat :: Outstanding(env, calls, j, n)
    ensures forall j: nat :: Outstanding(env, calls, j, n) ==> StateBefore(env, calls, n).nonce == calls[j].drawn
    decreases n
  {
    hide BindStep, EndsChallenge, DigestCall;
    if n > 0 {
      var i := n - 1;
      var nonce := StateBefore(env, calls, i).nonce;
      NonceIsOutstanding(env, calls, i);
      EndsAreDigestOrSimple(env, calls[i]);
      if DigestCall(env, calls[i]) {
        DigestStep(env, nonce, calls[i]);
        if ReplyAt(env, calls, i).code == SASL_BIND_IN_PROGRESS {
          assert Outstanding(env, calls, i, n);
        }
      } else {
        OtherStep(env, nonce, calls[i]);
        if !EndsChallenge(env, calls[i]) {
          assert forall j: nat :: Outstanding(env, calls, j, i) <==> Outstanding(env, calls, j, n);
        }
      }
    }
  }

  lemma EndsAreDigestOrSimple(env: BindEnv, call: BindCall)
    ensures DigestCall(env, call) ==> EndsChallenge(env, call)
  {
  }

  /** Every DIGEST-MD5 success answers the nonce of an earlier challenge that nothing ended in between: no digest
      step at all, and no simple bind that got past the version and rate checks. */
  lemma SuccessAnswersItsChallenge(env: BindEnv, calls: seq<BindCall>, n: nat) returns (j: nat)
    requires n < |calls|
    ensures DigestSucceeded(env, calls, n) ==>
              && Outstanding(env, calls, j, n)
              && ReadExchange(calls[n].request.credentials).0.nonce == calls[j].drawn
              && ReplyAt(env, calls, j).creds == Challenge(RealmFromBase(env.config.baseDn), calls[j].drawn)
  {
    hide BindStep, EndsChallenge, DigestCall, ReadExchange, Challenge, RealmFromBase;
    j := 0;
    if DigestSucceeded(env, calls, n) {
      DigestStep(env, StateBefore(env, calls, n).nonce, calls[n]);
      NonceIsOutstanding(env, calls, n);
      j :| Outstanding(env, calls, j, n);
      DigestStep(env, StateBefore(env, calls, j).nonce, calls[j]);
    }
  }

  /** Each challenge is answered at most once: between two successes lies a new challenge. */
  lemma ChallengeBetweenSuccesses(env: BindEnv, calls: seq<BindCall>, first: nat, second: nat) returns (j: nat)
    requires first < second < |calls|
    ensures DigestSucceeded(env, calls, first) && DigestSucceeded(env, calls, second) ==>
              first < j < second && Challenged(env, calls, j)
  {
    hide BindStep, DigestCall, EndsChallenge, ReadExchange, Challenge;
    j := SuccessAnswersItsChallenge(env, calls, second);
    EndsAreDigestOrSimple(env, calls[first]);
  }
}
