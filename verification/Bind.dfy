/** Simple bind: resolving a login name and checking the stored password. */
module Bind {
  import opened Octets
  import opened Entries
  import opened Dn
  import opened FilterText
  import opened Memory
  import opened Acl
  import opened Password

  const SPECIAL: seq<byte> := [OPEN, CLOSE, STAR, BACKSLASH]
  const FILTER_UID: Text := Ascii("(|(uid=")
  const FILTER_SAM: Text := Ascii(")(sAMAccountName=")
  const FILTER_END: Text := Ascii("))")

  /** The single entry below the configured base whose uid or sAMAccountName is `name`. */
  function FindAccount(config: LdapConfig, dir: Directory, name: Text): Option<Text> {
    if name == [] || exists b | b in name :: b in SPECIAL then None
    else
      var filter := ParseSearchFilter(FILTER_UID + name + FILTER_SAM + name + FILTER_END);
      var matches := Search(dir, config.baseDn, SUBTREE, filter);
      if |matches| != 1 then None else Some(matches[0].dn)
  }

  function ResolveName(config: LdapConfig, dir: Directory, name: Text): Option<Text> {
    if name == [] then None
    else if EQUALS in name then
      if config.rootDn != [] && DnEquals(name, config.rootDn) then Some(config.rootDn)
      else
        match Lookup(dir, name)
        case Some(entry) => Some(entry.dn)
        case None =>
          match ParseRdn(DnRdn(name))
          case None => None
          case Some(rdn) => FindAccount(config, dir, rdn.value)
    else
      var root := if config.rootDn != [] then ParseRdn(DnRdn(config.rootDn)) else None;
      if root.Some? && IEquals(root.value.value, name) then Some(config.rootDn)
      else FindAccount(config, dir, name)
  }

  function BindEntry(sha1: Sha1, entry: DirectoryEntry, password: Text): ResultCode {
    if AccountDisabled(entry.attributes) then INVALID_CREDENTIALS
    else
      var values := ValuesNamed(entry.attributes, USER_PASSWORD);
      if values.Some? && exists v | v in values.value :: VerifyUserPassword(sha1, v, password) then SUCCESS
      else INVALID_CREDENTIALS
  }

  /** The password check against an already resolved name: the root's own password, or the entry's. */
  function BindResolved(sha1: Sha1, config: LdapConfig, dir: Directory, resolved: Text, password: Text): ResultCode {
    if config.rootDn != [] && DnEquals(resolved, config.rootDn) then
      if config.rootPassword == [] || !VerifyUserPassword(sha1, config.rootPassword, password) then INVALID_CREDENTIALS
      else SUCCESS
    else
      match Lookup(dir, resolved)
      case None => INVALID_CREDENTIALS
      case Some(entry) => BindEntry(sha1, entry, password)
  }

  function SimpleBind(sha1: Sha1, config: LdapConfig, dir: Directory, dn: Text, password: Text): ResultCode {
    if dn == [] then (if password == [] then SUCCESS else INVALID_CREDENTIALS)
    else
      match ResolveName(config, dir, dn)
      case None => INVALID_CREDENTIALS
      case Some(resolved) => BindResolved(sha1, config, dir, resolved, password)
  }

  /** A name with an equals sign that spells a stored DN, and not the root's, binds against exactly that entry. */
  lemma BindToStoredName(sha1: Sha1, config: LdapConfig, dir: Directory, k: Text, name: Text, password: Text)
    requires UniqueKeys(dir) && KeysMatch(dir) && k in dir && DnEquals(k, name) && EQUALS in name
    requires config.rootDn == [] || !DnEquals(name, config.rootDn)
    ensures SimpleBind(sha1, config, dir, name, password) == BindEntry(sha1, dir[k], password)
  {
    hide BindEntry, FindAccount;
    FindUnique(dir, k, name);
    FindUnique(dir, k, k);
  }
}
