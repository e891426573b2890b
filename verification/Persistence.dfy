/** The file a write leaves behind: a restarted daemon finds the directory its last write left. */
module Persistence {
  import opened Octets
  import opened OrderedKeys
  import opened Entries
  import opened Dn
  import opened Modify
  import opened Memory
  import opened Acl
  import opened Password
  import opened Bind
  import opened Messages
  import opened PasswordModifyCodec
  import opened LdifText
  import opened LdifStore
  import opened LdifExactness
  import opened Handlers
  import opened HandlerProperties
  import opened MoveCases

  // ---------- what a request may bring ----------

  predicate RdnFits(rdn: Text) {
    var parsed := ParseRdn(rdn);
    parsed.Some? ==> ItemFits(parsed.value.attribute, [parsed.value.value])
  }

  /** Names and values of the request itself can be written as LDIF, and it adds no type without values. */
  predicate Representable(request: WriteRequest) {
    match request
    case AddEntry(add) => ValueOk(add.dn) && forall a <- add.attributes :: ItemFits(a.attribute, a.values) && a.values != []
    case ModifyEntry(m) => forall c <- m.changes :: ItemFits(c.attribute, c.values) && (c.op == ADD ==> c.values != [])
    case DeleteEntry(_) => true
    case RenameEntry(m) => ValueOk(NewDn(m)) && RdnFits(m.newRdn)
    case ChangePassword(value) =>
      var change := ReadPasswordModify(value);
      change.Some? && change.value.newPassword.Some? ==> ValueOk(change.value.newPassword.value)
  }

  // ---------- stored passwords can be written ----------

  predicate Graphic(s: Text) {
    forall c <- s :: c > 32
  }

  lemma GraphicIsOk(s: Text)
    requires Graphic(s)
    ensures ValueOk(s)
  {
    if s != [] {
      assert s[0] in s && s[|s| - 1] in s;
    }
  }

  lemma {:induction false} Base64Graphic(data: seq<byte>)
    ensures Graphic(Base64(data))
    decreases |data|
  {
    hide EncodeGroup;
    if data != [] {
      GroupGraphic(data);
      if |data| > 3 {
        Base64Graphic(data[3..]);
      }
    }
  }

  lemma GroupGraphic(data: seq<byte>)
    requires data != []
    ensures Graphic(EncodeGroup(data))
  {
  }

  lemma EncodedFits(sha1: Sha1, salt: Option<Salt>, value: Text)
    requires ValueOk(value)
    ensures ValueOk(EncodeUserPassword(sha1, salt, value))
  {
    hide Base64, SchemePrefix;
    var hashed := HashSsha(sha1, salt, value);
    if hashed != [] {
      var octets: Salt := salt.value;
      var digest: Digest := sha1(value + octets).value;
      Base64Graphic(digest + octets);
      PrefixGraphic();
      assert Graphic(hashed);
      GraphicIsOk(hashed);
    }
  }

  lemma PrefixGraphic()
    ensures Graphic(SSHA_PREFIX)
  {
  }

  // ---------- changes keep attributes storable ----------

  lemma {:induction false} DeletedAreFewer(existing: seq<Text>, values: seq<Text>)
    ensures forall v <- DeleteValues(existing, values).after :: v in existing
    decreases |values|
  {
    if values != [] {
      var i := ValueIndex(existing, values[0]);
      if i < |existing| {
        DeletedAreFewer(RemoveAt(existing, i), values[1..]);
      }
    }
  }

  lemma PutKeeps(attributes: Attributes, k: Text, values: seq<Text>)
    requires Storable(attributes) && ItemFits(k, values) && values != []
    ensures Storable(attributes[k := values])
  {
    hide ItemFits;
  }

  lemma DropKeeps(attributes: Attributes, k: Text)
    requires Storable(attributes)
    ensures Storable(attributes - {k})
  {
    hide ItemFits;
  }

  lemma AddKeeps(attributes: Attributes, k: Text, change: AttributeModification)
    requires Storable(attributes) && k in attributes && ItemFits(change.attribute, change.values)
    requires AddValues(attributes[k], change.values).code == SUCCESS
    ensures Storable(attributes[k := AddValues(attributes[k], change.values).after])
  {
    hide NameOk, ValueOk;
    AddValuesAppends(attributes[k], change.values);
    PutKeeps(attributes, k, attributes[k] + change.values);
  }

  lemma DeleteKeeps(attributes: Attributes, k: Text, values: seq<Text>)
    requires Storable(attributes) && k in attributes
    ensures var after := DeleteValues(attributes[k], values).after;
            Storable(if after == [] then attributes - {k} else attributes[k := after])
  {
    hide NameOk, ValueOk;
    var after := DeleteValues(attributes[k], values).after;
    DeletedAreFewer(attributes[k], values);
    if after == [] {
      DropKeeps(attributes, k);
    } else {
      PutKeeps(attributes, k, after);
    }
  }

  lemma ChangeKeeps(attributes: Attributes, change: AttributeModification)
    requires Storable(attributes) && ItemFits(change.attribute, change.values)
    requires change.op == ADD ==> change.values != []
    ensures var r := ApplyOne(attributes, change); r.code == SUCCESS ==> Storable(r.after)
  {
    hide Storable, ItemFits, AddValues, DeleteValues;
    var found := FindKey(attributes.Keys, change.attribute);
    if ApplyOne(attributes, change).code == SUCCESS {
      if change.op == ADD {
        if found.None? {
          PutKeeps(attributes, change.attribute, change.values);
        } else {
          AddKeeps(attributes, found.value, change);
        }
      } else if change.op == DELETE {
        DropKeeps(attributes, found.value);
        DeleteKeeps(attributes, found.value, change.values);
      } else if change.op == REPLACE {
        ReplaceKeeps(attributes, found, change);
      }
    }
  }

  lemma ReplaceKeeps(attributes: Attributes, found: Option<Text>, change: AttributeModification)
    requires Storable(attributes) && ItemFits(change.attribute, change.values)
    requires found.Some? ==> found.value in attributes
    ensures change.values == [] && found.Some? ==> Storable(attributes - {found.value})
    ensures change.values != [] && found.Some? ==> Storable(attributes[found.value := change.values])
    ensures change.values != [] ==> Storable(attributes[change.attribute := change.values])
  {
    hide NameOk, ValueOk;
    if found.Some? {
      DropKeeps(attributes, found.value);
    }
    if change.values != [] {
      PutKeeps(attributes, change.attribute, change.values);
      if found.Some? {
        PutKeeps(attributes, found.value, change.values);
      }
    }
  }

  predicate ChangesFit(changes: seq<AttributeModification>) {
    forall c <- changes :: ItemFits(c.attribute, c.values) && (c.op == ADD ==> c.values != [])
  }

  lemma {:induction false} ChangesKeep(attributes: Attributes, changes: seq<AttributeModification>)
    requires Storable(attributes) && ChangesFit(changes)
    ensures var r := ApplyAll(attributes, changes); r.code == SUCCESS ==> Storable(r.after)
    decreases |changes|
  {
    hide Storable, ItemFits, ApplyOne;
    if changes != [] {
      assert changes[0] in changes;
      assert forall c <- changes[1..] :: c in changes;
      ChangeKeeps(attributes, changes[0]);
      var r := ApplyOne(attributes, changes[0]);
      if r.code == SUCCESS {
        ChangesKeep(r.after, changes[1..]);
      }
    }
  }

  /** A single-value change that is refused changes nothing. */
  lemma RefusedOne(attributes: Attributes, op: ModifyOp, name: Text, value: Text)
    requires op == ADD || op == DELETE
    ensures var r := ApplyAll(attributes, [AttributeModification(op, name, [value])]);
            r.code != SUCCESS ==> r.after == attributes
  {
    OneChange(attributes, AttributeModification(op, name, [value]));
    var found := FindKey(attributes.Keys, name);
    if found.Some? {
      var existing := attributes[found.value];
      var i := ValueIndex(existing, value);
      assert AddValues(existing + [value], [value][1..]) == Applied(SUCCESS, existing + [value]);
      if i < |existing| {
        assert DeleteValues(RemoveAt(existing, i), [value][1..]) == Applied(SUCCESS, RemoveAt(existing, i));
      }
    }
  }

  lemma OneValueKeeps(attributes: Attributes, op: ModifyOp, name: Text, value: Text)
    requires Storable(attributes) && (op == DELETE || (op == ADD && ItemFits(name, [value])))
    ensures Storable(ApplyAll(attributes, [AttributeModification(op, name, [value])]).after)
  {
    hide Storable, ItemFits, FindKey;
    var change := AttributeModification(op, name, [value]);
    RefusedOne(attributes, op, name, value);
    OneChange(attributes, change);
    if op == ADD {
      ChangeKeeps(attributes, change);
    } else if ApplyOne(attributes, change).code == SUCCESS {
      DeleteKeeps(attributes, FindKey(attributes.Keys, name).value, [value]);
    }
  }

  // ---------- every request keeps the directory storable ----------

  lemma EncodedValuesFit(sha1: Sha1, draw: nat -> Option<Salt>, values: seq<Text>)
    requires forall v <- values :: ValueOk(v)
    ensures forall v <- EncodeValues(sha1, draw, values) :: ValueOk(v)
    ensures |EncodeValues(sha1, draw, values)| == |values|
  {
    hide ValueOk, EncodeUserPassword;
    var encoded := EncodeValues(sha1, draw, values);
    forall i | 0 <= i < |encoded| ensures ValueOk(encoded[i]) {
      assert values[i] in values;
      EncodedFits(sha1, draw(i), values[i]);
    }
  }

  lemma {:induction false} ListedKeep(list: seq<PartialAttribute>)
    requires forall a <- list :: ItemFits(a.attribute, a.values) && a.values != []
    ensures Storable(ToAttributes(list))
    decreases |list|
  {
    hide ItemFits, Storable;
    if list == [] {
      NothingStorable();
    } else {
      var last := list[|list| - 1];
      assert last in list;
      ListedKeep(list[..|list| - 1]);
      PutKeeps(ToAttributes(list[..|list| - 1]), last.attribute, last.values);
    }
  }

  lemma NothingStorable()
    ensures Storable(map[])
  {
  }

  lemma EncodedEntryKeeps(env: Env, draws: Draws, attributes: Attributes)
    requires Storable(attributes)
    ensures Storable(EncodeEntryPasswords(env, draws, attributes))
  {
    hide NameOk, ValueOk, EncodeValues, IEquals;
    forall k | k in attributes
      ensures var v := EncodeEntryPasswords(env, draws, attributes)[k]; ItemFits(k, v) && v != []
    {
      EncodedValuesFit(env.sha1, i => draws.forAttribute(k, i), attributes[k]);
    }
  }

  lemma EncodedChangesFit(env: Env, draws: Draws, changes: seq<AttributeModification>)
    requires ChangesFit(changes)
    ensures ChangesFit(EncodeChangePasswords(env, draws, changes))
  {
    hide NameOk, ValueOk, EncodeValues, IEquals;
    var encoded := EncodeChangePasswords(env, draws, changes);
    forall i | 0 <= i < |changes|
      ensures ItemFits(encoded[i].attribute, encoded[i].values) && (encoded[i].op == ADD ==> encoded[i].values != [])
    {
      assert changes[i] in changes;
      EncodedValuesFit(env.sha1, j => draws.forChange(i, j), changes[i].values);
    }
  }

  lemma EditedRdnKeeps(m: ModifyDnRequestData, attributes: Attributes)
    requires Storable(attributes) && RdnFits(m.newRdn)
    ensures Storable(RenamedAttributes(m, attributes).after)
  {
    hide Storable, ItemFits, ApplyAll, ParseRdn, DnRdn;
    var gone, put := ParseRdn(DnRdn(m.dn)), ParseRdn(m.newRdn);
    if gone.Some? {
      OneValueKeeps(attributes, DELETE, gone.value.attribute, gone.value.value);
    }
    if put.Some? {
      OneValueKeeps(DropOldRdn(m, attributes).after, ADD, put.value.attribute, put.value.value);
    }
  }

  lemma WriteKeepsStorable(dir: Directory, dn: Text, attributes: Attributes)
    requires AllStorable(dir) && Storable(attributes) && Lookup(dir, dn).Some?
    ensures AllStorable(Memory.Modify(dir, Lookup(dir, dn).value.(attributes := attributes)).after)
  {
    hide Storable, ValueOk, LexLess, Lower;
  }

  lemma RenameKeepsStorable(dir: Directory, from: Text, to: Text)
    requires AllStorable(dir) && ValueOk(to)
    ensures AllStorable(Rename(dir, from, to).after)
  {
    hide Storable, ValueOk, LexLess, Lower;
  }

  lemma AddKeepsStorable(env: Env, who: Identity, draws: Draws, dir: Directory, add: EntryData)
    requires AllStorable(dir) && Representable(AddEntry(add))
    ensures AllStorable(AddStep(env, who, draws, dir, add).dir)
  {
    hide WriteAllowed, CheckSchema, EncodeEntryPasswords, ToAttributes, FindKey, Storable, ItemFits, ValueOk;
    ListedKeep(add.attributes);
    EncodedEntryKeeps(env, draws, ToAttributes(add.attributes));
  }

  lemma ModifyKeepsStorable(env: Env, who: Identity, draws: Draws, dir: Directory, m: ModifyRequestData)
    requires AllStorable(dir) && Representable(ModifyEntry(m))
    ensures AllStorable(ModifyStep(env, who, draws, dir, m).dir)
  {
    hide WriteAllowed, CheckSchema, EncodeChangePasswords, ApplyAll, FindKey, Storable, ItemFits, ValueOk, Memory.Modify;
    var found := Lookup(dir, m.dn);
    if found.Some? {
      var changes := EncodeChangePasswords(env, draws, m.changes);
      EncodedChangesFit(env, draws, m.changes);
      ChangesKeep(found.value.attributes, changes);
      var r := ApplyAll(found.value.attributes, changes);
      if r.code == SUCCESS {
        WriteKeepsStorable(dir, m.dn, r.after);
      }
    }
  }

  lemma PasswordKeepsStorable(env: Env, who: Identity, draws: Draws, dir: Directory, value: Text)
    requires AllStorable(dir) && Representable(ChangePassword(value))
    ensures AllStorable(PasswordModifyStep(env, who, draws, dir, value).dir)
  {
    hide PasswordTarget, CheckSchema, ApplyAll, FindKey, Storable, ValueOk, Memory.Modify, EncodeUserPassword, Representable,
         NameOk;
    var target := PasswordTarget(env, who, dir, value);
    if target.Chosen? {
      TargetPassword(env, who, dir, value);
      var found := Lookup(dir, target.dn);
      if found.Some? {
        var change := PasswordChange(env, draws, target.password);
        EncodedFits(env.sha1, draws.forPassword, target.password);
        PasswordName();
        assert ChangesFit([change]);
        ChangesKeep(found.value.attributes, [change]);
        var r := ApplyAll(found.value.attributes, [change]);
        if r.code == SUCCESS {
          WriteKeepsStorable(dir, target.dn, r.after);
        }
      }
    }
  }

  lemma PasswordName()
    ensures NameOk(USER_PASSWORD) && USER_PASSWORD != DN
  {
    assert |USER_PASSWORD| == 12;
    assert Graphic(USER_PASSWORD);
    GraphicIsOk(USER_PASSWORD);
  }

  lemma TargetPassword(env: Env, who: Identity, dir: Directory, value: Text)
    requires Representable(ChangePassword(value))
    ensures var target := PasswordTarget(env, who, dir, value); target.Chosen? ==> ValueOk(target.password)
  {
    hide ResolveName, SimpleBind, WriteAllowed, ValueOk, ReadPasswordModify, DnEquals;
  }

  lemma MoveKeepsStorable(env: Env, who: Identity, dir: Directory, m: ModifyDnRequestData)
    requires AllStorable(dir) && Representable(RenameEntry(m))
    ensures AllStorable(ModifyDnStep(env, who, dir, m).dir)
  {
    hide ModifyDnStep, WriteAllowed, CheckSchema, RenamedAttributes, FindKey, Storable, ValueOk, Memory.Modify, Rename, NewDn,
         NewParent, RdnFits;
    StepByChecks(env, who, dir, m);
    if ReachesWrite(env, who, dir, m) {
      var entry := Lookup(dir, m.dn).value;
      var attributes := RenamedAttributes(m, entry.attributes).after;
      EditedRdnKeeps(m, entry.attributes);
      WriteKeepsStorable(dir, m.dn, attributes);
      RenameKeepsStorable(Memory.Modify(dir, entry.(attributes := attributes)).after, m.dn, NewDn(m));
    }
  }

  lemma DeleteKeepsStorable(env: Env, who: Identity, dir: Directory, dn: Text)
    requires AllStorable(dir)
    ensures AllStorable(DeleteStep(env, who, dir, dn).dir)
  {
    hide WriteAllowed, FindKey, HasChildren, Storable, ValueOk;
  }

  /** A request whose own names and values can be written keeps the whole directory that way. */
  lemma StepKeepsStorable(env: Env, dir: Directory, s: Submission)
    requires AllStorable(dir) && Representable(s.request)
    ensures AllStorable(Step(env, dir, s).dir)
  {
    hide AddStep, ModifyStep, DeleteStep, ModifyDnStep, PasswordModifyStep, AllStorable, Representable;
    match s.request
    case AddEntry(add) => AddKeepsStorable(env, s.who, s.draws, dir, add);
    case ModifyEntry(m) => ModifyKeepsStorable(env, s.who, s.draws, dir, m);
    case DeleteEntry(dn) => DeleteKeepsStorable(env, s.who, dir, dn);
    case RenameEntry(m) => MoveKeepsStorable(env, s.who, dir, m);
    case ChangePassword(value) => PasswordKeepsStorable(env, s.who, s.draws, dir, value);
  }

  // ---------- the file follows the directory ----------

  /** The directory and the file, which every successful write exports anew. */
  datatype Served = Served(dir: Directory, file: Text)

  function Serve(env: Env, s: Served, submission: Submission): Served {
    var r := Step(env, s.dir, submission);
    Served(r.dir, if r.code == SUCCESS then ExportFile(r.dir) else s.file)
  }

  function ServeRun(env: Env, s: Served, submissions: seq<Submission>): Served
    decreases |submissions|
  {
    if submissions == [] then s else ServeRun(env, Serve(env, s, submissions[0]), submissions[1..])
  }

  lemma ConsistentRestores(dir: Directory)
    requires Consistent(dir)
    ensures ImportFile(ExportFile(dir)) == dir <==> AllStorable(dir)
  {
    hide ImportFile, ExportFile, AllStorable, UniqueKeys, KeysMatch;
    RestoredExactly(dir);
  }

  /** Over every run of representable requests by any sessions, what a restart would import is the directory. */
  lemma {:induction false} RestartRestores(env: Env, s: Served, submissions: seq<Submission>)
    requires Consistent(s.dir) && AllStorable(s.dir) && ImportFile(s.file) == s.dir
    requires forall x <- submissions :: Representable(x.request)
    ensures var after := ServeRun(env, s, submissions);
            ImportFile(after.file) == after.dir == Run(env, s.dir, submissions)
    decreases |submissions|
  {
    hide Step, Consistent, AllStorable, Representable, ImportFile, ExportFile, AllValid;
    if submissions != [] {
      var first := submissions[0];
      assert first in submissions;
      assert forall x <- submissions[1..] :: x in submissions;
      StepKeepsDirectory(env, s.dir, first);
      StepKeepsStorable(env, s.dir, first);
      ConsistentRestores(Step(env, s.dir, first).dir);
      RestartRestores(env, Serve(env, s, first), submissions[1..]);
    }
  }
}
