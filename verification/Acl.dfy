/** Search and write access control over subtrees. */
module Acl {
  import opened Octets
  import opened Entries
  import opened Dn
  import opened Filters
  import opened Memory

  datatype WhoKind = Anyone | Anonymous | Users | DnWho | Group

  datatype Permission = SearchAccess | WriteAccess

  datatype AclRule = AclRule(who: WhoKind, whoValue: Text, permission: Permission, target: Text)

  /** The settings of the daemon that the handlers read. */
  datatype LdapConfig = LdapConfig(baseDn: Text, rootDn: Text, rootPassword: Text,
                                   requireConfidentiality: bool, acls: seq<AclRule>)

  const MEMBER: Text := Ascii("member")
  const UNIQUE_MEMBER: Text := Ascii("uniqueMember")
  const MEMBER_OF: Text := Ascii("memberOf")
  const MEMBER_UID: Text := Ascii("memberUid")
  const UID: Text := Ascii("uid")

  predicate HasValue(entry: DirectoryEntry, name: Text, value: Text) {
    var values := ValuesNamed(entry.attributes, name);
    values.Some? && exists v | v in values.value :: IEquals(v, value)
  }

  predicate IsRoot(config: LdapConfig, bindDn: Text) {
    bindDn != [] && config.rootDn != [] && DnEquals(bindDn, config.rootDn)
  }

  predicate Covers(rule: AclRule, dn: Text) {
    rule.target == [] || DnEquals(dn, rule.target) || DnEndsWith(dn, rule.target)
  }

  predicate Grants(rule: AclRule, write: bool) {
    write ==> rule.permission == WriteAccess
  }

  /** The uid a member is listed under: the entry's first uid value, or else a uid RDN. */
  function UidOf(dir: Directory, bindDn: Text): Text {
    var user := Lookup(dir, bindDn);
    var values := if user.Some? then ValuesNamed(user.value.attributes, UID) else None;
    var stored := if values.Some? && values.value != [] then values.value[0] else [];
    if stored != [] then stored
    else
      match ParseRdn(DnRdn(bindDn))
      case None => []
      case Some(rdn) => if IEquals(rdn.attribute, UID) then rdn.value else []
  }

  predicate InGroup(dir: Directory, bindDn: Text, groupDn: Text) {
    && bindDn != []
    && var group := Lookup(dir, groupDn);
       var user := Lookup(dir, bindDn);
       && group.Some?
       && (|| HasValue(group.value, MEMBER, bindDn)
           || HasValue(group.value, UNIQUE_MEMBER, bindDn)
           || (user.Some? && HasValue(user.value, MEMBER_OF, groupDn))
           || (UidOf(dir, bindDn) != [] && HasValue(group.value, MEMBER_UID, UidOf(dir, bindDn))))
  }

  predicate WhoMatches(rule: AclRule, bindDn: Text, dir: Directory) {
    match rule.who
    case Anyone => true
    case Anonymous => bindDn == []
    case Users => bindDn != []
    case DnWho => DnEquals(bindDn, rule.whoValue)
    case Group => InGroup(dir, bindDn, rule.whoValue)
  }

  predicate Granted(config: LdapConfig, bindDn: Text, dn: Text, write: bool, dir: Directory) {
    exists rule | rule in config.acls :: WhoMatches(rule, bindDn, dir) && Covers(rule, dn) && Grants(rule, write)
  }

  predicate MaySearch(config: LdapConfig, bindDn: Text, dn: Text, dir: Directory) {
    dn == [] || IsRoot(config, bindDn) || config.acls == [] || Granted(config, bindDn, dn, false, dir)
  }

  predicate MayWrite(config: LdapConfig, bindDn: Text, dn: Text, dir: Directory) {
    IsRoot(config, bindDn) || (config.acls != [] && Granted(config, bindDn, dn, true, dir))
  }

  /** Whoever may write a name may also read it. */
  lemma WriteImpliesSearch(config: LdapConfig, bindDn: Text, dn: Text, dir: Directory)
    requires MayWrite(config, bindDn, dn, dir)
    ensures MaySearch(config, bindDn, dn, dir)
  {
    hide WhoMatches, Covers;
    if !IsRoot(config, bindDn) {
      var rule :| rule in config.acls && WhoMatches(rule, bindDn, dir) && Covers(rule, dn) && Grants(rule, true);
      assert Grants(rule, false);
    }
  }

  lemma CoversBelow(rule: AclRule, base: Text, dn: Text)
    requires base != [] && DnEndsWith(dn, base) && Covers(rule, base)
    ensures Covers(rule, dn)
  {
    hide Lower;
    if rule.target != [] {
      assert DnEndsWith(base, rule.target);
      DnEndsWithTransitive(dn, base, rule.target);
    }
  }

  /** Access, of either kind, to a non-empty name extends to everything below it. */
  lemma AccessClosedDownward(config: LdapConfig, bindDn: Text, base: Text, dn: Text, dir: Directory)
    requires base != [] && DnEndsWith(dn, base)
    ensures MaySearch(config, bindDn, base, dir) ==> MaySearch(config, bindDn, dn, dir)
    ensures MayWrite(config, bindDn, base, dir) ==> MayWrite(config, bindDn, dn, dir)
  {
    hide WhoMatches, Covers, DnEndsWith;
    forall write | Granted(config, bindDn, base, write, dir)
      ensures Granted(config, bindDn, dn, write, dir)
    {
      var rule :| rule in config.acls && WhoMatches(rule, bindDn, dir) && Covers(rule, base) && Grants(rule, write);
      CoversBelow(rule, base, dn);
    }
  }

  // ---------- visibility of search results ----------

  /** The per-entry filter that `handleSearch` applies to the backend's answer. */
  function Visible(config: LdapConfig, bindDn: Text, entries: seq<DirectoryEntry>, dir: Directory): seq<DirectoryEntry> {
    if entries == [] then []
    else
      (if MaySearch(config, bindDn, entries[0].dn, dir) then [entries[0]] else [])
      + Visible(config, bindDn, entries[1..], dir)
  }

  /** Every key is the DN of its entry. */
  ghost predicate KeysMatch(dir: Directory) {
    forall k :: k in dir ==> dir[k].dn == k
  }

  lemma InScopeIsBelow(dn: Text, base: Text, scope: SearchScope)
    requires base != [] && InScope(dn, base, scope)
    ensures DnEndsWith(dn, base)
  {
  }

  lemma {:induction false} NothingHidden(config: LdapConfig, bindDn: Text, entries: seq<DirectoryEntry>, dir: Directory)
    requires forall i :: 0 <= i < |entries| ==> MaySearch(config, bindDn, entries[i].dn, dir)
    ensures Visible(config, bindDn, entries, dir) == entries
    decreases |entries|
  {
    hide MaySearch;
    if entries != [] {
      NothingHidden(config, bindDn, entries[1..], dir);
      assert entries == [entries[0]] + entries[1..];
    }
  }

  /** Once the base itself may be searched, the per-entry filter removes nothing, for every scope and filter. */
  lemma SearchBelowAllowedBase(config: LdapConfig, bindDn: Text, base: Text, scope: SearchScope,
                               filter: SearchFilter, dir: Directory)
    requires KeysMatch(dir) && base != [] && MaySearch(config, bindDn, base, dir)
    ensures Visible(config, bindDn, Search(dir, base, scope, filter), dir) == Search(dir, base, scope, filter)
  {
    hide MaySearch, InScope, FilterMatches, Search, DnEndsWith;
    var entries := Search(dir, base, scope, filter);
    forall i | 0 <= i < |entries|
      ensures MaySearch(config, bindDn, entries[i].dn, dir)
    {
      SearchIsExact(dir, base, scope, filter, entries[i]);
      var k :| k in dir && InScope(k, base, scope) && FilterMatches(filter, dir[k]) && entries[i] == dir[k];
      InScopeIsBelow(k, base, scope);
      AccessClosedDownward(config, bindDn, base, k, dir);
    }
    NothingHidden(config, bindDn, entries, dir);
  }
}
