/** The write handlers of a session, as steps of the directory. */
module Handlers {
  import opened Octets
  import opened Entries
  import opened Dn
  import opened Modify
  import opened Memory
  import opened Acl
  import opened Schema
  import opened Password
  import opened Bind
  import opened Messages
  import opened PasswordModifyCodec

  /** Who is asking: the session's `bound_` and `bind_dn_`. */
  datatype Identity = Identity(bound: bool, bindDn: Text)

  /** The fixed surroundings of a request; no schema means no checks. */
  datatype Env = Env(config: LdapConfig, schema: Option<Registry>, sha1: Sha1, tls: bool)

  /** Every random draw a request can make, named by what it salts. */
  datatype Draws = Draws(forAttribute: (Text, nat) -> Option<Salt>, forChange: (nat, nat) -> Option<Salt>,
                         forPassword: Option<Salt>)

  datatype Stepped = Stepped(code: ResultCode, dir: Directory)

  // ---------- shared checks ----------

  predicate WriteAllowed(env: Env, who: Identity, dn: Text, dir: Directory) {
    who.bound && MayWrite(env.config, who.bindDn, dn, dir)
  }

  function CheckSchema(env: Env, attributes: Attributes): ResultCode {
    if env.schema.None? then SUCCESS else ValidateEntry(env.schema.value, attributes)
  }

  function EncodeValues(sha1: Sha1, draw: nat -> Option<Salt>, values: seq<Text>): seq<Text> {
    seq(|values|, i requires 0 <= i < |values| => EncodeUserPassword(sha1, draw(i), values[i]))
  }

  function EncodeEntryPasswords(env: Env, draws: Draws, attributes: Attributes): Attributes {
    map k | k in attributes ::
      if IEquals(k, USER_PASSWORD) then EncodeValues(env.sha1, i => draws.forAttribute(k, i), attributes[k])
      else attributes[k]
  }

  function EncodeChangePasswords(env: Env, draws: Draws, changes: seq<AttributeModification>): seq<AttributeModification> {
    seq(|changes|, i requires 0 <= i < |changes| =>
      var c := changes[i];
      if c.op == DELETE || !IEquals(c.attribute, USER_PASSWORD) then c
      else c.(values := EncodeValues(env.sha1, j => draws.forChange(i, j), c.values)))
  }

  /** `toDirectoryEntry`: a repeated type replaces the earlier values. */
  function ToAttributes(list: seq<PartialAttribute>): Attributes {
    if list == [] then map[]
    else
      var last := list[|list| - 1];
      ToAttributes(list[..|list| - 1])[last.attribute := last.values]
  }

  // ---------- the handlers ----------

  function AddStep(env: Env, who: Identity, draws: Draws, dir: Directory, add: EntryData): Stepped {
    var parent := DnParent(add.dn);
    var attributes := EncodeEntryPasswords(env, draws, ToAttributes(add.attributes));
    var schema := CheckSchema(env, attributes);
    if !WriteAllowed(env, who, add.dn, dir) then Stepped(INSUFFICIENT_ACCESS_RIGHTS, dir)
    else if add.dn == [] then Stepped(INVALID_DN_SYNTAX, dir)
    else if Has(dir, add.dn) then Stepped(ENTRY_ALREADY_EXISTS, dir)
    else if parent != [] && !Has(dir, parent) then Stepped(NAMING_VIOLATION, dir)
    else if schema != SUCCESS then Stepped(schema, dir)
    else
      var r := Add(dir, DirectoryEntry(add.dn, attributes));
      Stepped(if r.ok then SUCCESS else OPERATIONS_ERROR, r.after)
  }

  function ModifyStep(env: Env, who: Identity, draws: Draws, dir: Directory, m: ModifyRequestData): Stepped {
    if !WriteAllowed(env, who, m.dn, dir) then Stepped(INSUFFICIENT_ACCESS_RIGHTS, dir)
    else
      match Lookup(dir, m.dn)
      case None => Stepped(NO_SUCH_OBJECT, dir)
      case Some(entry) =>
        var applied := ApplyAll(entry.attributes, EncodeChangePasswords(env, draws, m.changes));
        var schema := CheckSchema(env, applied.after);
        if applied.code != SUCCESS then Stepped(applied.code, dir)
        else if schema != SUCCESS then Stepped(schema, dir)
        else
          var r := Memory.Modify(dir, entry.(attributes := applied.after));
          Stepped(if r.ok then SUCCESS else OPERATIONS_ERROR, r.after)
  }

  function DeleteStep(env: Env, who: Identity, dir: Directory, dn: Text): Stepped {
    if !WriteAllowed(env, who, dn, dir) then Stepped(INSUFFICIENT_ACCESS_RIGHTS, dir)
    else if !Has(dir, dn) then Stepped(NO_SUCH_OBJECT, dir)
    else if HasChildren(dir, dn) then Stepped(NOT_ALLOWED_ON_NON_LEAF, dir)
    else
      var r := Remove(dir, dn);
      Stepped(if r.ok then SUCCESS else OPERATIONS_ERROR, r.after)
  }

  function NewParent(m: ModifyDnRequestData): Text {
    if m.newSuperior == [] then DnParent(m.dn) else m.newSuperior
  }

  function NewDn(m: ModifyDnRequestData): Text {
    ComposeDn(m.newRdn, NewParent(m))
  }

  /** The old RDN value taken out, when asked for; a missing value is not an error. */
  function DropOldRdn(m: ModifyDnRequestData, attributes: Attributes): Applied<Attributes> {
    var rdn := ParseRdn(DnRdn(m.dn));
    if !m.deleteOldRdn || rdn.None? then Applied(SUCCESS, attributes)
    else
      var r := ApplyAll(attributes, [AttributeModification(DELETE, rdn.value.attribute, [rdn.value.value])]);
      if r.code == NO_SUCH_ATTRIBUTE then Applied(SUCCESS, r.after) else r
  }

  /** The new RDN value put in; a present value is not an error. */
  function PutNewRdn(m: ModifyDnRequestData, attributes: Attributes): Applied<Attributes> {
    match ParseRdn(m.newRdn)
    case None => Applied(SUCCESS, attributes)
    case Some(rdn) =>
      var r := ApplyAll(attributes, [AttributeModification(ADD, rdn.attribute, [rdn.value])]);
      if r.code == ATTRIBUTE_OR_VALUE_EXISTS then Applied(SUCCESS, r.after) else r
  }

  function RenamedAttributes(m: ModifyDnRequestData, attributes: Attributes): Applied<Attributes> {
    var dropped := DropOldRdn(m, attributes);
    if dropped.code != SUCCESS then dropped else PutNewRdn(m, dropped.after)
  }

  /** The two writes: attributes first, then the rename. */
  function WriteRenamed(dir: Directory, m: ModifyDnRequestData, entry: DirectoryEntry): Stepped {
    var r := Memory.Modify(dir, entry);
    if !r.ok then Stepped(OPERATIONS_ERROR, r.after)
    else
      var moved := Rename(r.after, m.dn, NewDn(m));
      Stepped(if moved.ok then SUCCESS else OPERATIONS_ERROR, moved.after)
  }

  function ModifyDnStep(env: Env, who: Identity, dir: Directory, m: ModifyDnRequestData): Stepped {
    var parent, newDn := NewParent(m), NewDn(m);
    if m.newRdn == [] then Stepped(INVALID_DN_SYNTAX, dir)
    else if !WriteAllowed(env, who, m.dn, dir) || !WriteAllowed(env, who, newDn, dir) then
      Stepped(INSUFFICIENT_ACCESS_RIGHTS, dir)
    else
      match Lookup(dir, m.dn)
      case None => Stepped(NO_SUCH_OBJECT, dir)
      case Some(entry) =>
        if parent != [] && !Has(dir, parent) then Stepped(NAMING_VIOLATION, dir)
        else if !DnEquals(newDn, m.dn) && Has(dir, newDn) then Stepped(ENTRY_ALREADY_EXISTS, dir)
        else
          var applied := RenamedAttributes(m, entry.attributes);
          var schema := CheckSchema(env, applied.after);
          if applied.code != SUCCESS then Stepped(applied.code, dir)
          else if schema != SUCCESS then Stepped(schema, dir)
          else WriteRenamed(dir, m, entry.(attributes := applied.after))
  }

  /** The entry a password modify request would change, or the refusal. */
  datatype Target = Refused(code: ResultCode) | Chosen(dn: Text, password: Text)

  function PasswordTarget(env: Env, who: Identity, dir: Directory, value: Text): Target {
    if !who.bound || who.bindDn == [] then Refused(INSUFFICIENT_ACCESS_RIGHTS)
    else if env.config.requireConfidentiality && !env.tls then Refused(CONFIDENTIALITY_REQUIRED)
    else
      match ReadPasswordModify(value)
      case None => Refused(PROTOCOL_ERROR)
      case Some(change) =>
        if change.newPassword.None? || change.newPassword.value == [] then Refused(UNWILLING_TO_PERFORM)
        else
          match ResolveName(env.config, dir, if change.userIdentity == [] then who.bindDn else change.userIdentity)
          case None => Refused(NO_SUCH_OBJECT)
          case Some(target) =>
            var rootDn := env.config.rootDn;
            if rootDn != [] && DnEquals(target, rootDn) then Refused(UNWILLING_TO_PERFORM)
            else if !(rootDn != [] && DnEquals(who.bindDn, rootDn)) && !DnEquals(who.bindDn, target)
                    && !WriteAllowed(env, who, target, dir) then Refused(INSUFFICIENT_ACCESS_RIGHTS)
            else if change.oldPassword.Some?
                    && SimpleBind(env.sha1, env.config, dir, target, change.oldPassword.value) != SUCCESS then
              Refused(INVALID_CREDENTIALS)
            else Chosen(target, change.newPassword.value)
  }

  function PasswordChange(env: Env, draws: Draws, password: Text): AttributeModification {
    AttributeModification(REPLACE, USER_PASSWORD, [EncodeUserPassword(env.sha1, draws.forPassword, password)])
  }

  function PasswordModifyStep(env: Env, who: Identity, draws: Draws, dir: Directory, value: Text): Stepped {
    match PasswordTarget(env, who, dir, value)
    case Refused(code) => Stepped(code, dir)
    case Chosen(target, password) =>
      match Lookup(dir, target)
      case None => Stepped(NO_SUCH_OBJECT, dir)
      case Some(entry) =>
        var applied := ApplyAll(entry.attributes, [PasswordChange(env, draws, password)]);
        var schema := CheckSchema(env, applied.after);
        if applied.code != SUCCESS then Stepped(applied.code, dir)
        else if schema != SUCCESS then Stepped(schema, dir)
        else
          var r := Memory.Modify(dir, entry.(attributes := applied.after));
          Stepped(if r.ok then SUCCESS else OPERATIONS_ERROR, r.after)
  }

  // ---------- one request, and a run of them ----------

  datatype WriteRequest =
    | AddEntry(add: EntryData)
    | ModifyEntry(changing: ModifyRequestData)
    | DeleteEntry(dn: Text)
    | RenameEntry(moving: ModifyDnRequestData)
    | ChangePassword(value: Text)

  /** A request with the session it came from and the random draws made for it. */
  datatype Submission = Submission(who: Identity, draws: Draws, request: WriteRequest)

  function Step(env: Env, dir: Directory, s: Submission): Stepped {
    match s.request
    case AddEntry(add) => AddStep(env, s.who, s.draws, dir, add)
    case ModifyEntry(m) => ModifyStep(env, s.who, s.draws, dir, m)
    case DeleteEntry(dn) => DeleteStep(env, s.who, dir, dn)
    case RenameEntry(m) => ModifyDnStep(env, s.who, dir, m)
    case ChangePassword(value) => PasswordModifyStep(env, s.who, s.draws, dir, value)
  }

  function Run(env: Env, dir: Directory, submissions: seq<Submission>): Directory
    decreases |submissions|
  {
    if submissions == [] then dir
    else Run(env, Step(env, dir, submissions[0]).dir, submissions[1..])
  }
}
