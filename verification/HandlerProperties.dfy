/** What every write keeps: all-or-nothing, unique and matching keys, valid entries, and the tree. */
module HandlerProperties {
  import opened Octets
  import opened OrderedKeys
  import opened Entries
  import opened Dn
  import opened Modify
  import opened Memory
  import opened Acl
  import opened Password
  import opened Bind
  import opened Messages
  import opened Handlers

  /** Keys unique up to case, none empty, each the DN of its entry. */
  ghost predicate Consistent(dir: Directory) {
    UniqueKeys(dir) && KeysMatch(dir)
  }

  /** Every entry passes the loaded schema. */
  ghost predicate AllValid(env: Env, dir: Directory) {
    forall k :: k in dir ==> CheckSchema(env, dir[k].attributes) == SUCCESS
  }

  // ---------- the shape of each step's effect ----------

  /** The directory with one entry's attributes replaced. */
  function Rewritten(dir: Directory, k: Text, attributes: Attributes): Directory
    requires k in dir
  {
    dir[k := dir[k].(attributes := attributes)]
  }

  /** The directory with the entry at `k` moved to `to` with new attributes. */
  function Moved(dir: Directory, k: Text, to: Text, attributes: Attributes): Directory
    requires k in dir
  {
    (dir - {k})[to := DirectoryEntry(to, attributes)]
  }

  datatype Effect =
    | Nothing
    | Inserted(dn: Text, attributes: Attributes)
    | Rewrote(k: Text, attributes: Attributes)
    | Removed(k: Text)
    | Renamed(k: Text, to: Text, attributes: Attributes)

  function After(dir: Directory, e: Effect): Directory {
    match e
    case Nothing => dir
    case Inserted(dn, attributes) => dir[dn := DirectoryEntry(dn, attributes)]
    case Rewrote(k, attributes) => if k in dir then Rewritten(dir, k, attributes) else dir
    case Removed(k) => dir - {k}
    case Renamed(k, to, attributes) => if k in dir then Moved(dir, k, to, attributes) else dir
  }

  /** What the handlers have checked by the time they write. */
  ghost predicate Sound(env: Env, dir: Directory, e: Effect) {
    match e
    case Nothing => true
    case Inserted(dn, attributes) =>
      && dn != [] && !Has(dir, dn)
      && (DnParent(dn) == [] || Has(dir, DnParent(dn)))
      && CheckSchema(env, attributes) == SUCCESS
    case Rewrote(k, attributes) => k in dir && CheckSchema(env, attributes) == SUCCESS
    case Removed(k) => k in dir && !HasChildren(dir, k)
    case Renamed(k, to, attributes) =>
      && k in dir && to != [] && !DnEquals(to, k) && !Has(dir, to)
      && CheckSchema(env, attributes) == SUCCESS
  }

  /** A step is all or nothing: it fails and changes nothing, or succeeds with one sound effect. */
  ghost predicate AllOrNothing(env: Env, dir: Directory, r: Stepped, e: Effect) {
    && Sound(env, dir, e)
    && r.dir == After(dir, e)
    && (r.code != SUCCESS ==> e == Nothing)
    && (r.code == SUCCESS ==> e != Nothing)
  }

  lemma AddEffect(env: Env, who: Identity, draws: Draws, dir: Directory, add: EntryData) returns (e: Effect)
    requires Consistent(dir)
    ensures AllOrNothing(env, dir, AddStep(env, who, draws, dir, add), e)
    ensures e.Nothing? || e.Inserted?
  {
    hide WriteAllowed, CheckSchema, EncodeEntryPasswords, ToAttributes;
    var r := AddStep(env, who, draws, dir, add);
    var attributes := EncodeEntryPasswords(env, draws, ToAttributes(add.attributes));
    e := if r.code == SUCCESS then Inserted(add.dn, attributes) else Nothing;
  }

  /** A looked-up entry is the one stored under its own key, so writing it back hits that key. */
  lemma WriteBack(dir: Directory, dn: Text, attributes: Attributes) returns (k: Text)
    requires Consistent(dir) && Lookup(dir, dn).Some?
    ensures k in dir && DnEquals(k, dn) && Lookup(dir, dn) == Some(dir[k]) && FindKey(dir.Keys, dn) == Some(k)
    ensures Memory.Modify(dir, dir[k].(attributes := attributes)) == Outcome(true, Rewritten(dir, k, attributes))
  {
    hide Lower;
    k := FindKey(dir.Keys, dn).value;
    assert dir[k].dn == k;
    assert DnEquals(k, k);
    FindUnique(dir, k, k);
  }

  lemma ModifyEffect(env: Env, who: Identity, draws: Draws, dir: Directory, m: ModifyRequestData) returns (e: Effect)
    requires Consistent(dir)
    ensures AllOrNothing(env, dir, ModifyStep(env, who, draws, dir, m), e)
    ensures e.Nothing? || e.Rewrote?
  {
    hide WriteAllowed, CheckSchema, EncodeChangePasswords, ApplyAll, Consistent, Memory.Modify, Has, HasChildren;
    var r := ModifyStep(env, who, draws, dir, m);
    e := Nothing;
    if WriteAllowed(env, who, m.dn, dir) && Lookup(dir, m.dn).Some? {
      var applied := ApplyAll(Lookup(dir, m.dn).value.attributes, EncodeChangePasswords(env, draws, m.changes));
      var k := WriteBack(dir, m.dn, applied.after);
      if applied.code == SUCCESS && CheckSchema(env, applied.after) == SUCCESS {
        e := Rewrote(k, applied.after);
      }
    }
  }

  lemma PasswordModifyEffect(env: Env, who: Identity, draws: Draws, dir: Directory, value: Text) returns (e: Effect)
    requires Consistent(dir)
    ensures AllOrNothing(env, dir, PasswordModifyStep(env, who, draws, dir, value), e)
    ensures e.Nothing? || e.Rewrote?
  {
    hide PasswordTarget, CheckSchema, PasswordChange, ApplyAll, Consistent, Memory.Modify, Has, HasChildren;
    var target := PasswordTarget(env, who, dir, value);
    e := Nothing;
    if target.Refused? {
      assert target.code != SUCCESS by {
        RefusalIsNotSuccess(env, who, dir, value);
      }
    } else if Lookup(dir, target.dn).Some? {
      var applied := ApplyAll(Lookup(dir, target.dn).value.attributes, [PasswordChange(env, draws, target.password)]);
      var k := WriteBack(dir, target.dn, applied.after);
      if applied.code == SUCCESS && CheckSchema(env, applied.after) == SUCCESS {
        e := Rewrote(k, applied.after);
      }
    }
  }

  lemma RefusalIsNotSuccess(env: Env, who: Identity, dir: Directory, value: Text)
    ensures PasswordTarget(env, who, dir, value).Refused? ==> PasswordTarget(env, who, dir, value).code != SUCCESS
  {
    hide ResolveName, SimpleBind, WriteAllowed;
  }

  lemma DeleteEffect(env: Env, who: Identity, dir: Directory, dn: Text) returns (e: Effect)
    requires Consistent(dir)
    ensures AllOrNothing(env, dir, DeleteStep(env, who, dir, dn), e)
    ensures e.Nothing? || e.Removed?
  {
    hide WriteAllowed, Lower, HasChildren;
    var r := DeleteStep(env, who, dir, dn);
    e := Nothing;
    if r.code == SUCCESS {
      var k := FindKey(dir.Keys, dn).value;
      ChildrenRespectCase(dir, k, dn);
      e := Removed(k);
    }
  }

  lemma ChildrenRespectCase(dir: Directory, a: Text, b: Text)
    requires DnEquals(a, b) && a != [] && b != []
    ensures HasChildren(dir, a) == HasChildren(dir, b)
  {
    forall k | k in dir
      ensures DnIsOneLevelChild(k, a) == DnIsOneLevelChild(k, b)
    {
      hide DnIsOneLevelChild;
      OneLevelChildIffParent(k, a);
      OneLevelChildIffParent(k, b);
    }
  }

  // ---------- ModifyDN ----------

  lemma NewDnNonEmpty(m: ModifyDnRequestData)
    requires m.newRdn != []
    ensures NewDn(m) != []
  {
  }

  /** Once ModifyDN reaches its attribute write, the rename that follows cannot fail. */
  lemma RenameCannotFail(dir: Directory, m: ModifyDnRequestData, k: Text, attributes: Attributes)
    requires Consistent(dir) && m.newRdn != []
    requires k in dir && DnEquals(k, m.dn)
    requires DnEquals(NewDn(m), m.dn) || !Has(dir, NewDn(m))
    ensures WriteRenamed(dir, m, dir[k].(attributes := attributes))
         == Stepped(SUCCESS, if DnEquals(NewDn(m), m.dn) then Rewritten(dir, k, attributes)
                             else Moved(dir, k, NewDn(m), attributes))
  {
    var newDn := NewDn(m);
    NewDnNonEmpty(m);
    FindUnique(dir, k, m.dn);
    assert Lookup(dir, m.dn) == Some(dir[k]);
    assert m.dn != [] by {
      assert |k| == |m.dn| && k != [];
    }
    var k2 := WriteBack(dir, m.dn, attributes);
    hide NewDn, Lower, Memory.Modify, Rename, KeysMatch, LexLess;
    assert k2 == k;
    var between := Rewritten(dir, k, attributes);
    assert between.Keys == dir.Keys;
    assert UniqueKeys(between);
    RenameFrom(between, m.dn, newDn, k);
    assert (between - {k})[newDn := between[k].(dn := newDn)] == Moved(dir, k, newDn, attributes);
  }

  lemma ModifyDnEffect(env: Env, who: Identity, dir: Directory, m: ModifyDnRequestData) returns (e: Effect)
    requires Consistent(dir)
    ensures AllOrNothing(env, dir, ModifyDnStep(env, who, dir, m), e)
    ensures e.Nothing? || (e.Rewrote? && DnEquals(NewDn(m), m.dn))
         || (e.Renamed? && e.to == NewDn(m) && DnEquals(e.k, m.dn) && !DnEquals(NewDn(m), m.dn))
    ensures !e.Nothing? ==> m.newRdn != [] && (NewParent(m) == [] || Has(dir, NewParent(m)))
  {
    hide WriteAllowed, CheckSchema, RenamedAttributes, NewDn, NewParent, Consistent, WriteRenamed, Has, HasChildren, Lower;
    e := Nothing;
    var newDn := NewDn(m);
    if m.newRdn != [] && WriteAllowed(env, who, m.dn, dir) && WriteAllowed(env, who, newDn, dir)
       && Lookup(dir, m.dn).Some?
       && (NewParent(m) == [] || Has(dir, NewParent(m)))
       && (DnEquals(newDn, m.dn) || !Has(dir, newDn)) {
      var applied := RenamedAttributes(m, Lookup(dir, m.dn).value.attributes);
      if applied.code == SUCCESS && CheckSchema(env, applied.after) == SUCCESS {
        var k := WriteBack(dir, m.dn, applied.after);
        RenameCannotFail(dir, m, k, applied.after);
        NewDnNonEmpty(m);
        e := if DnEquals(newDn, m.dn) then Rewrote(k, applied.after) else Renamed(k, newDn, applied.after);
      }
    }
  }

  // ---------- every request ----------

  lemma StepEffect(env: Env, dir: Directory, s: Submission) returns (e: Effect)
    requires Consistent(dir)
    ensures AllOrNothing(env, dir, Step(env, dir, s), e)
    ensures !s.request.RenameEntry? ==> !e.Renamed?
  {
    hide AllOrNothing, Consistent, AddStep, ModifyStep, DeleteStep, ModifyDnStep, PasswordModifyStep;
    match s.request
    case AddEntry(add) => e := AddEffect(env, s.who, s.draws, dir, add);
    case ModifyEntry(m) => e := ModifyEffect(env, s.who, s.draws, dir, m);
    case DeleteEntry(dn) => e := DeleteEffect(env, s.who, dir, dn);
    case RenameEntry(m) => e := ModifyDnEffect(env, s.who, dir, m);
    case ChangePassword(value) => e := PasswordModifyEffect(env, s.who, s.draws, dir, value);
  }

  lemma InsertKeeps(dir: Directory, dn: Text, attributes: Attributes)
    requires Consistent(dir) && dn != [] && !Has(dir, dn)
    ensures Consistent(dir[dn := DirectoryEntry(dn, attributes)])
  {
    hide Lower, LexLess;
    assert dir[dn := DirectoryEntry(dn, attributes)].Keys == dir.Keys + {dn};
  }

  lemma DropKeepsConsistent(dir: Directory, k: Text)
    requires Consistent(dir)
    ensures Consistent(dir - {k})
  {
    hide Lower;
  }

  lemma EffectKeepsConsistent(env: Env, dir: Directory, e: Effect)
    requires Consistent(dir) && Sound(env, dir, e)
    ensures Consistent(After(dir, e))
  {
    hide Lower, LexLess, CheckSchema, HasChildren, Has, Consistent;
    match e
    case Nothing =>
    case Inserted(dn, attributes) => InsertKeeps(dir, dn, attributes);
    case Rewrote(k, attributes) => RewriteKeeps(dir, k, attributes);
    case Removed(k) => DropKeepsConsistent(dir, k);
    case Renamed(k, to, attributes) =>
      DropKeepsConsistent(dir, k);
      LessHas(dir, k, to);
      InsertKeeps(dir - {k}, to, attributes);
  }

  lemma RewriteKeeps(dir: Directory, k: Text, attributes: Attributes)
    requires Consistent(dir) && k in dir
    ensures Consistent(Rewritten(dir, k, attributes))
  {
    hide Lower;
    assert Rewritten(dir, k, attributes).Keys == dir.Keys;
  }

  lemma LessHas(dir: Directory, k: Text, dn: Text)
    requires !Has(dir, dn)
    ensures !Has(dir - {k}, dn)
  {
    hide Lower, LexLess;
  }

  lemma EffectKeepsValid(env: Env, dir: Directory, e: Effect)
    requires AllValid(env, dir) && Sound(env, dir, e)
    ensures AllValid(env, After(dir, e))
  {
    hide CheckSchema, HasChildren, Has;
  }

  /** Every write request, from any session and with any random draws, is all-or-nothing, keeps keys unique up to
      case and equal to their entries' DNs, and keeps every entry valid under the loaded schema. */
  lemma StepKeepsDirectory(env: Env, dir: Directory, s: Submission)
    requires Consistent(dir)
    ensures var r := Step(env, dir, s);
            && (r.code != SUCCESS ==> r.dir == dir)
            && Consistent(r.dir)
            && (AllValid(env, dir) ==> AllValid(env, r.dir))
  {
    hide Sound, Step, Consistent, AllValid;
    var e := StepEffect(env, dir, s);
    EffectKeepsConsistent(env, dir, e);
    if AllValid(env, dir) {
      EffectKeepsValid(env, dir, e);
    }
  }

  /** The same over every run of requests by any number of sessions. */
  lemma {:induction false} RunKeepsDirectory(env: Env, dir: Directory, submissions: seq<Submission>)
    requires Consistent(dir)
    ensures Consistent(Run(env, dir, submissions))
    ensures AllValid(env, dir) ==> AllValid(env, Run(env, dir, submissions))
    decreases |submissions|
  {
    hide Step, Consistent, AllValid;
    if submissions != [] {
      StepKeepsDirectory(env, dir, submissions[0]);
      RunKeepsDirectory(env, Step(env, dir, submissions[0]).dir, submissions[1..]);
    }
  }

  // ---------- the tree ----------

  /** A stored name whose non-empty parent is not stored. */
  predicate IsOrphan(dir: Directory, k: Text) {
    k in dir && DnParent(k) != [] && !Has(dir, DnParent(k))
  }

  function Orphans(dir: Directory): set<Text> {
    set k | k in dir && IsOrphan(dir, k)
  }

  lemma HasRespectsCase(dir: Directory, a: Text, b: Text)
    requires DnEquals(a, b)
    ensures Has(dir, a) == Has(dir, b)
  {
    hide Lower;
    forall k | k in dir ensures DnEquals(k, a) == DnEquals(k, b) {
    }
  }

  lemma HasAfterInsert(dir: Directory, k: Text, entry: DirectoryEntry, dn: Text)
    requires Has(dir, dn)
    ensures Has(dir[k := entry], dn)
  {
    hide Lower;
    var found := FindKey(dir.Keys, dn).value;
    assert found in dir[k := entry];
  }

  /** The parent of a stored name survives when what is removed has no children. */
  lemma ParentSurvives(dir: Directory, k: Text, c: Text)
    requires UniqueKeys(dir) && k in dir && c in dir && !HasChildren(dir, k)
    requires DnParent(c) != [] && Has(dir, DnParent(c))
    ensures Has(dir - {k}, DnParent(c))
  {
    hide Lower, DnIsOneLevelChild, DnParent;
    var p := FindKey(dir.Keys, DnParent(c)).value;
    OneLevelChildIffParent(c, k);
    assert p != k;
    assert p in dir - {k};
  }

  lemma EffectKeepsTree(env: Env, dir: Directory, e: Effect)
    requires Consistent(dir) && Sound(env, dir, e) && !e.Renamed?
    ensures Orphans(After(dir, e)) <= Orphans(dir)
  {
    hide Has, HasChildren, CheckSchema, DnParent, UniqueKeys, KeysMatch;
    var after := After(dir, e);
    forall c | c in Orphans(after)
      ensures c in Orphans(dir)
    {
      match e
      case Nothing =>
      case Inserted(dn, attributes) =>
        if Has(dir, DnParent(c)) {
          HasAfterInsert(dir, dn, DirectoryEntry(dn, attributes), DnParent(c));
          assert false;
        }
      case Rewrote(k, attributes) =>
        if Has(dir, DnParent(c)) {
          HasAfterInsert(dir, k, dir[k].(attributes := attributes), DnParent(c));
          assert false;
        }
      case Removed(k) =>
        if Has(dir, DnParent(c)) {
          ParentSurvives(dir, k, c);
          assert false;
        }
    }
  }

  /** Add, modify, delete and password modify never orphan an entry. */
  lemma StepKeepsTree(env: Env, dir: Directory, s: Submission)
    requires Consistent(dir) && !s.request.RenameEntry?
    ensures Orphans(Step(env, dir, s).dir) <= Orphans(dir)
  {
    hide Sound, Step, Consistent, Orphans;
    var e := StepEffect(env, dir, s);
    EffectKeepsTree(env, dir, e);
  }

  // ---------- ModifyDN and the tree ----------

  /** What a caller can check beforehand: the entry has no children, and the new name's textual parent
      is empty or stored under a name other than the one being moved. */
  predicate MoveKeepsTree(dir: Directory, m: ModifyDnRequestData) {
    var above := DnParent(NewDn(m));
    !HasChildren(dir, m.dn) && (above == [] || (Has(dir, above) && !DnEquals(above, m.dn)))
  }

  lemma HasAfterMove(dir: Directory, k: Text, to: Text, attributes: Attributes, dn: Text)
    requires k in dir
    ensures Has(Moved(dir, k, to, attributes), dn)
       <==> DnEquals(to, dn) || exists j :: j in dir && j != k && DnEquals(j, dn)
  {
    hide Lower;
    var after := Moved(dir, k, to, attributes);
    assert after.Keys == (dir.Keys - {k}) + {to};
    if j :| j in dir && j != k && DnEquals(j, dn) {
      assert j in after;
    }
    if DnEquals(to, dn) {
      assert to in after;
    }
  }

  /** The moved entry itself is not an orphan afterwards iff its textual parent is another stored entry. */
  lemma MovedParent(dir: Directory, k: Text, to: Text, attributes: Attributes, above: Text)
    requires UniqueKeys(dir) && k in dir && above != [] && !DnEquals(above, to)
    ensures Has(Moved(dir, k, to, attributes), above) <==> Has(dir, above) && !DnEquals(above, k)
  {
    hide Lower;
    HasAfterMove(dir, k, to, attributes, above);
    if Has(dir, above) && !DnEquals(above, k) {
      var j := FindKey(dir.Keys, above).value;
      assert j in dir && j != k && DnEquals(j, above);
    }
  }

  lemma ChildWitness(dir: Directory, k: Text) returns (c: Text)
    requires UniqueKeys(dir) && k in dir && HasChildren(dir, k)
    ensures c in dir && c != k && DnParent(c) != [] && DnEquals(DnParent(c), k)
  {
    hide Lower, DnIsOneLevelChild;
    c :| c in dir && DnIsOneLevelChild(c, k);
    OneLevelChildIffParent(c, k);
    if c == k {
      DnParentShorter(k);
    }
    assert |DnParent(c)| == |k| by {
      SameLength(DnParent(c), k);
    }
  }

  lemma ChildrenOrphaned(dir: Directory, k: Text, to: Text, attributes: Attributes)
    requires UniqueKeys(dir) && k in dir && !DnEquals(to, k) && HasChildren(dir, k)
    ensures !(Orphans(Moved(dir, k, to, attributes)) <= Orphans(dir))
  {
    hide Lower, DnParent;
    var c := ChildWitness(dir, k);
    var after := Moved(dir, k, to, attributes);
    HasAfterMove(dir, k, to, attributes, DnParent(c));
    assert forall j :: j in dir && j != k ==> !DnEquals(j, DnParent(c)) by {
      forall j | j in dir && j != k ensures !DnEquals(j, DnParent(c)) {
        assert !DnEquals(j, k);
      }
    }
    assert c in Orphans(after);
    HasRespectsCase(dir, DnParent(c), k);
    assert Has(dir, k) by {
      assert k in dir && DnEquals(k, k);
    }
    assert c !in Orphans(dir);
  }

  lemma OthersKeepParents(dir: Directory, k: Text, to: Text, attributes: Attributes, c: Text)
    requires UniqueKeys(dir) && k in dir && c in dir && c != k && !HasChildren(dir, k)
    requires IsOrphan(Moved(dir, k, to, attributes), c)
    ensures IsOrphan(dir, c)
  {
    hide Lower, DnIsOneLevelChild, DnParent;
    if Has(dir, DnParent(c)) {
      ParentSurvives(dir, k, c);
      HasAfterInsert(dir - {k}, to, DirectoryEntry(to, attributes), DnParent(c));
      assert false;
    }
  }

  /** A successful ModifyDN to a different name adds no orphan exactly when the caller's check holds. */
  lemma ModifyDnKeepsTreeExactly(env: Env, who: Identity, dir: Directory, m: ModifyDnRequestData)
    requires Consistent(dir)
    requires ModifyDnStep(env, who, dir, m).code == SUCCESS && !DnEquals(NewDn(m), m.dn)
    ensures Orphans(ModifyDnStep(env, who, dir, m).dir) <= Orphans(dir) <==> MoveKeepsTree(dir, m)
  {
    hide Has, HasChildren, ModifyDnStep, NewDn, NewParent, Lower, DnParent, CheckSchema, KeysMatch, DnIsOneLevelChild;
    var e := ModifyDnEffect(env, who, dir, m);
    var k, to, attributes := e.k, e.to, e.attributes;
    var after := Moved(dir, k, to, attributes);
    assert ModifyDnStep(env, who, dir, m).dir == after;
    var above := DnParent(to);
    KeyNonEmpty(dir, k, m.dn);
    ChildrenRespectCase(dir, k, m.dn);
    if HasChildren(dir, k) {
      ChildrenOrphaned(dir, k, to, attributes);
    } else {
      DnParentShorter(to);
      if above != [] {
        MovedParent(dir, k, to, attributes, above);
        EqualsBoth(above, k, m.dn);
      }
      assert to !in dir by {
        NotStored(dir, to);
      }
      assert to in Orphans(after) <==> above != [] && !Has(after, above);
      forall c | c in Orphans(after) && c != to
        ensures c in Orphans(dir)
      {
        OthersKeepParents(dir, k, to, attributes, c);
      }
    }
  }

  lemma KeyNonEmpty(dir: Directory, k: Text, dn: Text)
    requires UniqueKeys(dir) && k in dir && DnEquals(k, dn)
    ensures k != [] && dn != []
  {
    SameLength(k, dn);
  }

  lemma EqualsBoth(a: Text, b: Text, c: Text)
    requires DnEquals(b, c)
    ensures DnEquals(a, b) <==> DnEquals(a, c)
  {
  }

  lemma NotStored(dir: Directory, dn: Text)
    requires !Has(dir, dn)
    ensures dn !in dir
  {
    if dn in dir {
      assert IEquals(dn, dn);
    }
  }

  /** With a comma-free new RDN the check is: no children, and the new superior is not the entry itself. */
  lemma CommaFreeMoveKeepsTree(env: Env, who: Identity, dir: Directory, m: ModifyDnRequestData)
    requires Consistent(dir) && COMMA !in m.newRdn
    requires ModifyDnStep(env, who, dir, m).code == SUCCESS && !DnEquals(NewDn(m), m.dn)
    ensures Orphans(ModifyDnStep(env, who, dir, m).dir) <= Orphans(dir)
       <==> !HasChildren(dir, m.dn) && !DnEquals(m.newSuperior, m.dn)
  {
    hide ModifyDnStep, HasChildren, Has, Lower, CheckSchema, KeysMatch;
    ModifyDnKeepsTreeExactly(env, who, dir, m);
    var e := ModifyDnEffect(env, who, dir, m);
    KeyNonEmpty(dir, e.k, m.dn);
    ComposedParent(m.newRdn, NewParent(m));
    DnParentShorter(m.dn);
    assert DnParent(NewDn(m)) == NewParent(m);
    if m.newSuperior == [] {
      assert !DnEquals(m.newSuperior, m.dn) by {
        if DnEquals(m.newSuperior, m.dn) {
          SameLength(m.newSuperior, m.dn);
        }
      }
    }
  }

  // ---------- runs ----------

  /** Every ModifyDN of the run meets the caller's check, or does not change the name, at the moment it is made. */
  ghost predicate CarefulRun(env: Env, dir: Directory, submissions: seq<Submission>)
    decreases |submissions|
  {
    submissions != [] ==>
      && (submissions[0].request.RenameEntry? ==>
            var m := submissions[0].request.moving;
            DnEquals(NewDn(m), m.dn) || MoveKeepsTree(dir, m))
      && CarefulRun(env, Step(env, dir, submissions[0]).dir, submissions[1..])
  }

  lemma CarefulStepKeepsTree(env: Env, dir: Directory, s: Submission)
    requires Consistent(dir)
    requires s.request.RenameEntry? ==>
               var m := s.request.moving; DnEquals(NewDn(m), m.dn) || MoveKeepsTree(dir, m)
    ensures Orphans(Step(env, dir, s).dir) <= Orphans(dir)
  {
    hide Sound, Consistent, Orphans, AddStep, ModifyStep, DeleteStep, ModifyDnStep, PasswordModifyStep;
    hide MoveKeepsTree, NewDn, Lower;
    if s.request.RenameEntry? {
      var m := s.request.moving;
      var e := ModifyDnEffect(env, s.who, dir, m);
      if e.Renamed? {
        ModifyDnKeepsTreeExactly(env, s.who, dir, m);
      } else {
        EffectKeepsTree(env, dir, e);
      }
    } else {
      StepKeepsTree(env, dir, s);
    }
  }

  /** Over every such run the set of entries with a missing parent never grows. */
  lemma {:induction false} RunKeepsTree(env: Env, dir: Directory, submissions: seq<Submission>)
    requires Consistent(dir) && CarefulRun(env, dir, submissions)
    ensures Orphans(Run(env, dir, submissions)) <= Orphans(dir)
    decreases |submissions|
  {
    hide Step, Consistent, Orphans, MoveKeepsTree, AllValid;
    if submissions != [] {
      StepKeepsDirectory(env, dir, submissions[0]);
      CarefulStepKeepsTree(env, dir, submissions[0]);
      RunKeepsTree(env, Step(env, dir, submissions[0]).dir, submissions[1..]);
    }
  }

  // ---------- password modify, then bind ----------

  lemma ReplacedPassword(attributes: Attributes, value: Text)
    ensures var r := ApplyAll(attributes, [AttributeModification(REPLACE, USER_PASSWORD, [value])]);
            r.code == SUCCESS && ValuesNamed(r.after, USER_PASSWORD) == Some([value])
  {
    var change := AttributeModification(REPLACE, USER_PASSWORD, [value]);
    var one := ApplyOne(attributes, change);
    assert |USER_PASSWORD| > 0;
    assert [change][1..] == [];
    assert ApplyAll(attributes, [change]) == one by {
      assert ApplyAll(one.after, [change][1..]) == Applied(SUCCESS, one.after);
    }
    hide Lower;
    match FindKey(attributes.Keys, USER_PASSWORD)
    case None =>
      assert one.after.Keys == attributes.Keys + {USER_PASSWORD};
      assert IEquals(USER_PASSWORD, USER_PASSWORD);
      assert FindKey(one.after.Keys, USER_PASSWORD) == Some(USER_PASSWORD);
    case Some(k) =>
      assert one.after.Keys == attributes.Keys;
  }

  /** The target entry after a successful password modify: stored under its key, with the encoded password alone. */
  lemma PasswordStored(env: Env, who: Identity, draws: Draws, dir: Directory, value: Text) returns (k: Text)
    requires Consistent(dir)
    requires PasswordModifyStep(env, who, draws, dir, value).code == SUCCESS
    ensures var target := PasswordTarget(env, who, dir, value);
            var after := PasswordModifyStep(env, who, draws, dir, value).dir;
            && target.Chosen? && (env.config.rootDn == [] || !DnEquals(target.dn, env.config.rootDn))
            && Consistent(after) && k in after && DnEquals(k, target.dn) && Lookup(after, target.dn) == Some(after[k])
            && ValuesNamed(after[k].attributes, USER_PASSWORD)
               == Some([EncodeUserPassword(env.sha1, draws.forPassword, target.password)])
  {
    hide CheckSchema, ApplyAll, EncodeUserPassword, Lower, LexLess;
    TargetIsNotRoot(env, who, dir, value);
    hide PasswordTarget;
    var target := PasswordTarget(env, who, dir, value);
    assert target.Chosen? by {
      RefusalIsNotSuccess(env, who, dir, value);
    }
    var entry := Lookup(dir, target.dn).value;
    var applied := ApplyAll(entry.attributes, [PasswordChange(env, draws, target.password)]);
    ReplacedPassword(entry.attributes, EncodeUserPassword(env.sha1, draws.forPassword, target.password));
    k := WriteBack(dir, target.dn, applied.after);
    var after := Rewritten(dir, k, applied.after);
    assert after.Keys == dir.Keys;
    assert PasswordModifyStep(env, who, draws, dir, value).dir == after;
    assert Lookup(after, target.dn) == Some(after[k]);
  }

  /** After a successful password modify, a simple bind under any name that resolves to the target, with the new
      password, succeeds exactly when the account is not disabled and the stored form verifies against it. */
  lemma NewPasswordBindsExactly(env: Env, who: Identity, draws: Draws, dir: Directory, value: Text, name: Text)
    requires Consistent(dir)
    requires PasswordModifyStep(env, who, draws, dir, value).code == SUCCESS
    ensures var target := PasswordTarget(env, who, dir, value);
            var after := PasswordModifyStep(env, who, draws, dir, value).dir;
            && target.Chosen? && Lookup(after, target.dn).Some?
            && var resolved := ResolveName(env.config, after, name);
               (name != [] && resolved.Some? && DnEquals(resolved.value, target.dn) ==>
                  (SimpleBind(env.sha1, env.config, after, name, target.password) == SUCCESS <==>
                     && !AccountDisabled(Lookup(after, target.dn).value.attributes)
                     && VerifyUserPassword(env.sha1, EncodeUserPassword(env.sha1, draws.forPassword, target.password),
                                           target.password)))
  {
    hide PasswordModifyStep, PasswordTarget, ResolveName, VerifyUserPassword, EncodeUserPassword, AccountDisabled, Lower,
         LexLess, ValuesNamed, KeysMatch;
    var k := PasswordStored(env, who, draws, dir, value);
    var target := PasswordTarget(env, who, dir, value);
    var after := PasswordModifyStep(env, who, draws, dir, value).dir;
    var resolved := ResolveName(env.config, after, name);
    if name != [] && resolved.Some? && DnEquals(resolved.value, target.dn) {
      FindUnique(after, k, resolved.value);
      var stored := EncodeUserPassword(env.sha1, draws.forPassword, target.password);
      assert forall v :: v in [stored] <==> v == stored;
    }
  }

  /** A spelling of the target DN that contains an equals sign resolves to it, and a password without a scheme prefix
      verifies, for every digest function and every salt: the bind succeeds unless the account is disabled. */
  lemma NewPasswordBinds(env: Env, who: Identity, draws: Draws, dir: Directory, value: Text, name: Text)
    requires Consistent(dir)
    requires PasswordModifyStep(env, who, draws, dir, value).code == SUCCESS
    ensures var target := PasswordTarget(env, who, dir, value);
            var after := PasswordModifyStep(env, who, draws, dir, value).dir;
            && target.Chosen? && Lookup(after, target.dn).Some?
            && (DnEquals(name, target.dn) && EQUALS in name && SchemePrefix(target.password).None? ==>
                  (SimpleBind(env.sha1, env.config, after, name, target.password) == SUCCESS <==>
                     !AccountDisabled(Lookup(after, target.dn).value.attributes)))
  {
    hide PasswordModifyStep, PasswordTarget, VerifyUserPassword, EncodeUserPassword, AccountDisabled, SchemePrefix,
         SimpleBind, FindAccount, ValuesNamed, LexLess, Lower;
    var k := PasswordStored(env, who, draws, dir, value);
    NewPasswordBindsExactly(env, who, draws, dir, value, name);
    var target := PasswordTarget(env, who, dir, value);
    var after := PasswordModifyStep(env, who, draws, dir, value).dir;
    if DnEquals(name, target.dn) && EQUALS in name && SchemePrefix(target.password).None? {
      FindUnique(after, k, name);
      StoredPasswordVerifies(env.sha1, draws.forPassword, target.password);
    }
  }

  lemma TargetIsNotRoot(env: Env, who: Identity, dir: Directory, value: Text)
    ensures var target := PasswordTarget(env, who, dir, value);
            target.Chosen? ==> env.config.rootDn == [] || !DnEquals(target.dn, env.config.rootDn)
  {
    hide ResolveName, SimpleBind, WriteAllowed, Lower;
  }
}
