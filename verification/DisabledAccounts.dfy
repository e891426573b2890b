/** A disabled account that PLAIN opens: its DN is the login name of another account. */
module DisabledAccounts {
  import opened Octets
  import opened OrderedKeys
  import opened Entries
  import opened Memory
  import opened Acl
  import opened Decimal
  import opened Password
  import opened Bind
  import opened Accounts
  import opened Sasl

  // ---------- the family ----------

  /** Without a root, a name that only one entry carries resolves to that entry. */
  lemma NameResolves(config: LdapConfig, dir: Directory, name: Text, k: Text)
    requires KeysMatch(dir) && config.rootDn == [] && EQUALS !in name
    requires CleanName(name) && OnlyAccount(config, dir, k, name)
    ensures ResolveName(config, dir, name) == Some(k)
  {
    hide FindAccount, OnlyAccount, CleanName;
    FindsTheOnlyAccount(config, dir, name, k);
    NameNotEmpty(name);
  }

  lemma NameNotEmpty(name: Text)
    requires CleanName(name)
    ensures name != []
  {
  }

  /** Whenever a disabled entry's DN has no equals sign and is the login name of another entry, the other entry's
      password opens the disabled one. */
  lemma ShadowOpens(auth: Authenticator, config: LdapConfig, dir: Directory, name: Text, dn: Text, other: Text,
                    password: Text, tls: bool)
    requires UniqueKeys(dir) && KeysMatch(dir) && config.rootDn == [] && !(config.requireConfidentiality && !tls)
    requires 0 !in name && EQUALS !in name && CleanName(name) && OnlyAccount(config, dir, dn, name)
    requires EQUALS !in dn && CleanName(dn) && OnlyAccount(config, dir, other, dn) && other != dn
    requires dn in dir && other in dir && AccountDisabled(dir[dn].attributes)
    requires BindEntry(auth.sha1, dir[other], password) == SUCCESS
    ensures PlainBind(auth, config, dir, PlainCredentials([], name, password), tls) == SaslOutcome(SUCCESS, dn, [])
    ensures IsAccountDisabled(config, dir, dn)
  {
    hide ResolveName, OnlyAccount, CleanName, BindEntry, AccountDisabled, PlainBind, PlainCredentials;
    NameResolves(config, dir, name, dn);
    NameResolves(config, dir, dn, other);
    NameNotEmpty(name);
    FindUnique(dir, dn, dn);
    FindUnique(dir, other, other);
    PlainWith(auth, config, dir, name, password, dn, tls);
  }

  // ---------- one member of it ----------

  lemma TwoTypes(a: Text, va: seq<Text>, b: Text, vb: seq<Text>, name: Text)
    requires |a| != |b|
    ensures ValuesNamed(map[a := va, b := vb], a) == Some(va) && ValuesNamed(map[a := va, b := vb], b) == Some(vb)
    ensures |name| != |a| && |name| != |b| ==> ValuesNamed(map[a := va, b := vb], name) == None
  {
    hide Lower, LexLess;
    var m := map[a := va, b := vb];
    assert m.Keys == {a, b};
    SameIsEqual(a);
    SameIsEqual(b);
    forall x, y: Text | IEquals(x, y) ensures |x| == |y| {
      SameLength(x, y);
    }
  }

  const NAME: Text := [97]
  const SHADOWED: Text := [100]
  const SHADOW: Text := [101]
  const SECRET: Text := [112]
  const DISABLED: Text := [50]

  function TwoAccounts(): Directory {
    map[SHADOWED := DirectoryEntry(SHADOWED, map[UID := [NAME], USER_ACCOUNT_CONTROL := [DISABLED]]),
        SHADOW := DirectoryEntry(SHADOW, map[UID := [SHADOWED], USER_PASSWORD := [SECRET]])]
  }

  function NoRoot(): LdapConfig {
    LdapConfig([], [], [], false, [])
  }

  lemma Lengths()
    ensures |UID| == 3 && |SAM_ACCOUNT| == 14 && |USER_ACCOUNT_CONTROL| == 18 && |USER_PASSWORD| == 12
  {
  }

  lemma TheirValues(name: Text)
    requires name == NAME || name == SHADOWED
    ensures HasValue(TwoAccounts()[SHADOWED], UID, name) <==> name == NAME
    ensures HasValue(TwoAccounts()[SHADOW], UID, name) <==> name == SHADOWED
    ensures !HasValue(TwoAccounts()[SHADOWED], SAM_ACCOUNT, name) && !HasValue(TwoAccounts()[SHADOW], SAM_ACCOUNT, name)
  {
    hide ValuesNamed;
    Lengths();
    TwoTypes(UID, [NAME], USER_ACCOUNT_CONTROL, [DISABLED], SAM_ACCOUNT);
    TwoTypes(UID, [SHADOWED], USER_PASSWORD, [SECRET], SAM_ACCOUNT);
    assert Lower(NAME)[0] == 97 && Lower(SHADOWED)[0] == 100;
    SameIsEqual(name);
    assert TwoAccounts()[SHADOWED].attributes == map[UID := [NAME], USER_ACCOUNT_CONTROL := [DISABLED]];
    assert TwoAccounts()[SHADOW].attributes == map[UID := [SHADOWED], USER_PASSWORD := [SECRET]];
  }

  lemma TheyAreUnique()
    ensures UniqueKeys(TwoAccounts()) && KeysMatch(TwoAccounts())
  {
    assert TwoAccounts().Keys == {SHADOWED, SHADOW};
    assert Lower(SHADOWED)[0] == 100 && Lower(SHADOW)[0] == 101;
  }

  lemma TheyAreAlone(name: Text, k: Text)
    requires (name == NAME && k == SHADOWED) || (name == SHADOWED && k == SHADOW)
    ensures CleanName(name) && OnlyAccount(NoRoot(), TwoAccounts(), k, name)
  {
    hide HasValue;
    TheirValues(name);
    assert TwoAccounts().Keys == {SHADOWED, SHADOW};
    assert SHADOWED[0] != SHADOW[0];
  }

  lemma ItIsDisabled()
    ensures AccountDisabled(TwoAccounts()[SHADOWED].attributes)
  {
    hide ValuesNamed;
    Lengths();
    TwoTypes(UID, [NAME], USER_ACCOUNT_CONTROL, [DISABLED], []);
    assert TwoAccounts()[SHADOWED].attributes == map[UID := [NAME], USER_ACCOUNT_CONTROL := [DISABLED]];
    DecimalRoundTrip(2);
    assert ToDecimal(2) == DISABLED;
    assert DISABLED in [DISABLED];
  }

  lemma ItsPassword(sha1: Sha1)
    ensures BindEntry(sha1, TwoAccounts()[SHADOW], SECRET) == SUCCESS
  {
    hide ValuesNamed;
    Lengths();
    TwoTypes(UID, [SHADOWED], USER_PASSWORD, [SECRET], USER_ACCOUNT_CONTROL);
    assert TwoAccounts()[SHADOW].attributes == map[UID := [SHADOWED], USER_PASSWORD := [SECRET]];
    assert SchemePrefix(SECRET).None?;
    assert VerifyUserPassword(sha1, SECRET, SECRET);
    assert SECRET in [SECRET];
  }

  /** The name `a` with the password of entry `e` binds as the disabled entry `d`. */
  lemma DisabledAccountOpens(auth: Authenticator, tls: bool)
    ensures UniqueKeys(TwoAccounts()) && KeysMatch(TwoAccounts())
    ensures PlainBind(auth, NoRoot(), TwoAccounts(), PlainCredentials([], NAME, SECRET), tls)
         == SaslOutcome(SUCCESS, SHADOWED, [])
    ensures IsAccountDisabled(NoRoot(), TwoAccounts(), SHADOWED)
  {
    hide OnlyAccount, CleanName, BindEntry, AccountDisabled, PlainBind, PlainCredentials;
    TheyAreUnique();
    TheyAreAlone(NAME, SHADOWED);
    TheyAreAlone(SHADOWED, SHADOW);
    ItIsDisabled();
    ItsPassword(auth.sha1);
    assert SHADOW[0] != SHADOWED[0];
    ShadowOpens(auth, NoRoot(), TwoAccounts(), NAME, SHADOWED, SHADOW, SECRET, tls);
  }
}
