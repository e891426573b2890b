/** When ModifyDN succeeds, and inputs on which it orphans entries or leaves a half-done write. */
module MoveCases {
  import opened Octets
  import opened OrderedKeys
  import opened Entries
  import opened Dn
  import opened Modify
  import opened Memory
  import opened Acl
  import opened Messages
  import opened Handlers
  import opened HandlerProperties

  // ---------- success ----------

  lemma OneChange(attributes: Attributes, change: AttributeModification)
    ensures ApplyAll(attributes, [change]) == ApplyOne(attributes, change)
  {
    hide ApplyOne;
    var one := ApplyOne(attributes, change);
    assert [change][1..] == [];
    assert ApplyAll(one.after, []) == Applied(SUCCESS, one.after);
  }

  /** Editing the RDN values never fails. */
  lemma RdnEditsSucceed(m: ModifyDnRequestData, attributes: Attributes)
    ensures RenamedAttributes(m, attributes).code == SUCCESS
  {
    hide ApplyAll, ApplyOne, ParseRdn, DnRdn;
    var gone, put := ParseRdn(DnRdn(m.dn)), ParseRdn(m.newRdn);
    if gone.Some? {
      RdnHasType(DnRdn(m.dn));
      DeleteOneValue(attributes, gone.value.attribute, gone.value.value);
    }
    if put.Some? {
      RdnHasType(m.newRdn);
      AddOneValue(DropOldRdn(m, attributes).after, put.value.attribute, put.value.value);
    }
  }

  lemma RdnHasType(rdn: Text)
    ensures ParseRdn(rdn).Some? ==> ParseRdn(rdn).value.attribute != []
  {
  }

  lemma DeleteOneValue(attributes: Attributes, name: Text, value: Text)
    requires name != []
    ensures ApplyAll(attributes, [AttributeModification(DELETE, name, [value])]).code in {SUCCESS, NO_SUCH_ATTRIBUTE}
  {
    OneChange(attributes, AttributeModification(DELETE, name, [value]));
    var found := FindKey(attributes.Keys, name);
    if found.Some? {
      var existing := attributes[found.value];
      var i := ValueIndex(existing, value);
      if i < |existing| {
        assert DeleteValues(RemoveAt(existing, i), [value][1..]) == Applied(SUCCESS, RemoveAt(existing, i));
      }
    }
  }

  lemma AddOneValue(attributes: Attributes, name: Text, value: Text)
    requires name != []
    ensures ApplyAll(attributes, [AttributeModification(ADD, name, [value])]).code in {SUCCESS, ATTRIBUTE_OR_VALUE_EXISTS}
  {
    OneChange(attributes, AttributeModification(ADD, name, [value]));
    var found := FindKey(attributes.Keys, name);
    if found.Some? {
      var existing := attributes[found.value];
      assert AddValues(existing + [value], [value][1..]) == Applied(SUCCESS, existing + [value]);
    }
  }

  /** Everything ModifyDN checks before its first write. */
  predicate ReachesWrite(env: Env, who: Identity, dir: Directory, m: ModifyDnRequestData) {
    && m.newRdn != []
    && WriteAllowed(env, who, m.dn, dir) && WriteAllowed(env, who, NewDn(m), dir)
    && Has(dir, m.dn)
    && (NewParent(m) == [] || Has(dir, NewParent(m)))
    && (DnEquals(NewDn(m), m.dn) || !Has(dir, NewDn(m)))
    && CheckSchema(env, RenamedAttributes(m, Lookup(dir, m.dn).value.attributes).after) == SUCCESS
  }

  lemma StepByChecks(env: Env, who: Identity, dir: Directory, m: ModifyDnRequestData)
    ensures var r := ModifyDnStep(env, who, dir, m);
            if ReachesWrite(env, who, dir, m) then
              var entry := Lookup(dir, m.dn).value;
              r == WriteRenamed(dir, m, entry.(attributes := RenamedAttributes(m, entry.attributes).after))
            else r.code != SUCCESS && r.dir == dir
  {
    hide WriteAllowed, CheckSchema, RenamedAttributes, WriteRenamed, FindKey, Lower, NewDn, NewParent;
    if Has(dir, m.dn) {
      RdnEditsSucceed(m, Lookup(dir, m.dn).value.attributes);
    }
  }

  /** Both writes succeed for every stored name but the empty one, even in directories with case duplicates. */
  lemma WritesSucceed(dir: Directory, m: ModifyDnRequestData, attributes: Attributes)
    requires KeysMatch(dir) && m.newRdn != [] && m.dn != [] && Has(dir, m.dn)
    requires DnEquals(NewDn(m), m.dn) || !Has(dir, NewDn(m))
    ensures WriteRenamed(dir, m, Lookup(dir, m.dn).value.(attributes := attributes)).code == SUCCESS
  {
    hide Lower, LexLess, NewDn;
    NewDnNonEmpty(m);
    var entry := Lookup(dir, m.dn).value.(attributes := attributes);
    SameIsEqual(entry.dn);
    var r := Memory.Modify(dir, entry);
    assert r.ok && r.after.Keys == dir.Keys;
    assert FindKey(r.after.Keys, m.dn).Some?;
    assert forall t :: t in r.after && DnEquals(t, NewDn(m)) ==> DnEquals(t, m.dn);
  }

  /** ModifyDN answers Success exactly when every check before its first write passes. */
  lemma ModifyDnSucceedsExactly(env: Env, who: Identity, dir: Directory, m: ModifyDnRequestData)
    requires Consistent(dir)
    ensures ModifyDnStep(env, who, dir, m).code == SUCCESS <==> ReachesWrite(env, who, dir, m)
  {
    hide ModifyDnStep, WriteAllowed, CheckSchema, RenamedAttributes, WriteRenamed, FindKey, Lower, NewDn, NewParent;
    StepByChecks(env, who, dir, m);
    if ReachesWrite(env, who, dir, m) {
      KeyNonEmpty(dir, FindKey(dir.Keys, m.dn).value, m.dn);
      WritesSucceed(dir, m, RenamedAttributes(m, Lookup(dir, m.dn).value.attributes).after);
    }
  }

  // ---------- all or nothing, and the empty name ----------

  lemma EmptyNameWrites(dir: Directory, m: ModifyDnRequestData, attributes: Attributes)
    requires KeysMatch(dir) && m.dn == [] && [] in dir
    ensures WriteRenamed(dir, m, dir[[]].(attributes := attributes))
         == Stepped(OPERATIONS_ERROR, Rewritten(dir, [], attributes))
  {
    hide Lower, LexLess, NewDn;
    EmptyIsFound(dir);
  }

  lemma EmptyIsFound(dir: Directory)
    ensures Has(dir, []) <==> [] in dir
    ensures [] in dir ==> FindKey(dir.Keys, []) == Some([])
  {
    hide Lower, LexLess;
    SameIsEqual([]);
    var found := FindKey(dir.Keys, []);
    if found.Some? {
      SameLength(found.value, []);
    }
  }

  /** In any directory whose keys are its entries' DNs, a refused ModifyDN changes something exactly when it names the
      empty DN, passes every check, and edits the RDN values: the attribute write is done and the rename refused. */
  lemma HalfDoneExactly(env: Env, who: Identity, dir: Directory, m: ModifyDnRequestData)
    requires KeysMatch(dir)
    ensures var r := ModifyDnStep(env, who, dir, m);
            r.code != SUCCESS && r.dir != dir <==>
              && m.dn == [] && ReachesWrite(env, who, dir, m)
              && RenamedAttributes(m, Lookup(dir, m.dn).value.attributes).after != Lookup(dir, m.dn).value.attributes
  {
    hide ModifyDnStep, WriteAllowed, CheckSchema, RenamedAttributes, WriteRenamed, Lower, NewDn, NewParent, LexLess;
    StepByChecks(env, who, dir, m);
    if ReachesWrite(env, who, dir, m) {
      var attributes := RenamedAttributes(m, Lookup(dir, m.dn).value.attributes).after;
      if m.dn == [] {
        EmptyIsFound(dir);
        EmptyNameWrites(dir, m, attributes);
        assert Rewritten(dir, [], attributes)[[]].attributes == attributes;
      } else {
        WritesSucceed(dir, m, attributes);
      }
    }
  }

  // ---------- inputs ----------

  /** The root, with no schema loaded: every access and schema check passes. */
  predicate RootSession(env: Env, who: Identity) {
    env.schema.None? && who.bound && IsRoot(env.config, who.bindDn)
  }

  lemma RootMoves(env: Env, who: Identity, dir: Directory, m: ModifyDnRequestData)
    requires RootSession(env, who) && m.newRdn != [] && Has(dir, m.dn)
    requires (NewParent(m) == [] || Has(dir, NewParent(m))) && !Has(dir, NewDn(m))
    ensures ReachesWrite(env, who, dir, m)
  {
    hide FindKey, IsRoot, NewDn, NewParent;
  }

  /** The root moving an entry to a free name below a stored parent succeeds, and orphans an entry exactly when the
      check fails. */
  lemma RootMoveOrphansExactly(env: Env, who: Identity, dir: Directory, m: ModifyDnRequestData)
    requires Consistent(dir) && RootSession(env, who) && m.newRdn != [] && Has(dir, m.dn)
    requires (NewParent(m) == [] || Has(dir, NewParent(m))) && !Has(dir, NewDn(m))
    ensures var r := ModifyDnStep(env, who, dir, m);
            r.code == SUCCESS && (Orphans(r.dir) <= Orphans(dir) <==> MoveKeepsTree(dir, m))
  {
    hide ModifyDnStep, Orphans, MoveKeepsTree, ReachesWrite, Lower, NewDn, NewParent, RootSession;
    RootMoves(env, who, dir, m);
    ModifyDnSucceedsExactly(env, who, dir, m);
    if DnEquals(NewDn(m), m.dn) {
      HasRespectsCase(dir, NewDn(m), m.dn);
    }
    ModifyDnKeepsTreeExactly(env, who, dir, m);
  }

  const A: Text := [97]
  const C: Text := [99]
  const BELOW_A: Text := [98, COMMA, 97]
  const TWO_RDNS: Text := [98, COMMA, 99]

  function Plain(dn: Text): DirectoryEntry {
    DirectoryEntry(dn, map[])
  }

  function JustA(): Directory {
    map[A := Plain(A)]
  }

  function AAndChild(): Directory {
    map[A := Plain(A), BELOW_A := Plain(BELOW_A)]
  }

  lemma HasByLength(dir: Directory, dn: Text)
    ensures dn in dir ==> Has(dir, dn)
    ensures dn != [] && (forall k <- dir :: |k| == |dn| ==> LowerByte(k[|dn| - 1]) != LowerByte(dn[|dn| - 1])) ==>
              !Has(dir, dn)
  {
    hide LexLess;
    SameIsEqual(dn);
    if Has(dir, dn) && dn != [] {
      var k := FindKey(dir.Keys, dn).value;
      SameLength(k, dn);
      assert Lower(k)[|k| - 1] == Lower(dn)[|dn| - 1];
    }
  }

  lemma SmallDirectories()
    ensures Consistent(JustA()) && Consistent(AAndChild())
    ensures HasChildren(AAndChild(), A) && !HasChildren(JustA(), A)
  {
    assert JustA().Keys == {A} && AAndChild().Keys == {A, BELOW_A};
    assert |Lower(A)| != |Lower(BELOW_A)|;
    assert DnParent(BELOW_A) == A by {
      IndexOfUnique(BELOW_A, COMMA, 1);
    }
    SameIsEqual(A);
    OneLevelChildIffParent(BELOW_A, A);
    assert DnParent(A) == [] by {
      IndexOfUnique(A, COMMA, 1);
    }
    OneLevelChildIffParent(A, A);
    assert |Lower([])| != |Lower(A)|;
  }

  lemma NoParent(dn: Text)
    requires COMMA !in dn
    ensures DnParent(dn) == []
  {
    IndexOfUnique(dn, COMMA, |dn|);
  }

  /** Children are orphaned, although the RDN has no comma and the new superior is not the entry. */
  lemma ChildlessnessIsNeeded(env: Env, who: Identity)
    requires RootSession(env, who)
    ensures var dir, m := AAndChild(), ModifyDnRequestData(A, C, false, []);
            var r := ModifyDnStep(env, who, dir, m);
            && Consistent(dir) && HasChildren(dir, m.dn) && COMMA !in m.newRdn && !DnEquals(m.newSuperior, m.dn)
            && r.code == SUCCESS && !(Orphans(r.dir) <= Orphans(dir))
  {
    hide ModifyDnStep, Orphans, RootSession, FindKey, HasChildren;
    var dir, m := AAndChild(), ModifyDnRequestData(A, C, false, []);
    SmallDirectories();
    NoParent(A);
    assert NewDn(m) == C;
    HasByLength(dir, A);
    HasByLength(dir, C);
    RootMoveOrphansExactly(env, who, dir, m);
    assert |Lower([])| != |Lower(A)|;
  }

  /** The moved entry is orphaned below its own old name, although it has no children and the RDN has no comma. */
  lemma OtherSuperiorIsNeeded(env: Env, who: Identity)
    requires RootSession(env, who)
    ensures var dir, m := JustA(), ModifyDnRequestData(A, C, false, A);
            var r := ModifyDnStep(env, who, dir, m);
            && Consistent(dir) && !HasChildren(dir, m.dn) && COMMA !in m.newRdn && DnEquals(m.newSuperior, m.dn)
            && r.code == SUCCESS && !(Orphans(r.dir) <= Orphans(dir))
  {
    hide ModifyDnStep, Orphans, RootSession, FindKey, HasChildren;
    var dir, m := JustA(), ModifyDnRequestData(A, C, false, A);
    SmallDirectories();
    ComposedParent(C, A);
    SameIsEqual(A);
    HasByLength(dir, A);
    HasByLength(dir, NewDn(m));
    RootMoveOrphansExactly(env, who, dir, m);
  }

  /** The moved entry is orphaned below the second half of its RDN, although it has no children and stays in place. */
  lemma CommaFreedomIsNeeded(env: Env, who: Identity)
    requires RootSession(env, who)
    ensures var dir, m := JustA(), ModifyDnRequestData(A, TWO_RDNS, false, []);
            var r := ModifyDnStep(env, who, dir, m);
            && Consistent(dir) && !HasChildren(dir, m.dn) && COMMA in m.newRdn && !DnEquals(m.newSuperior, m.dn)
            && r.code == SUCCESS && !(Orphans(r.dir) <= Orphans(dir))
  {
    hide ModifyDnStep, Orphans, RootSession, FindKey, HasChildren;
    var dir, m := JustA(), ModifyDnRequestData(A, TWO_RDNS, false, []);
    SmallDirectories();
    NoParent(A);
    assert NewDn(m) == TWO_RDNS;
    assert DnParent(TWO_RDNS) == C by {
      IndexOfUnique(TWO_RDNS, COMMA, 1);
    }
    HasByLength(dir, A);
    HasByLength(dir, C);
    HasByLength(dir, TWO_RDNS);
    RootMoveOrphansExactly(env, who, dir, m);
    assert |Lower([])| != |Lower(A)|;
    assert TWO_RDNS[1] == COMMA;
  }

  function JustEmpty(): Directory {
    map[[] := Plain([])]
  }

  const C_IS_3: Text := [99, EQUALS, 51]

  /** An entry with the empty DN is changed by a ModifyDN that is refused. */
  lemma NonEmptyNamesAreNeeded(env: Env, who: Identity)
    requires RootSession(env, who)
    ensures var dir, m := JustEmpty(), ModifyDnRequestData([], C_IS_3, false, []);
            var r := ModifyDnStep(env, who, dir, m);
            UniqueUpToCase(dir.Keys) && KeysMatch(dir) && r.code != SUCCESS && r.dir != dir
  {
    hide ModifyDnStep, RootSession, FindKey, LexLess;
    var dir, m := JustEmpty(), ModifyDnRequestData([], C_IS_3, false, []);
    NoParent([]);
    assert NewDn(m) == C_IS_3;
    EmptyIsFound(dir);
    HasByLength(dir, C_IS_3);
    RootMoves(env, who, dir, m);
    assert Lookup(dir, []) == Some(Plain([]));
    EditsEmpty(m);
    HalfDoneExactly(env, who, dir, m);
  }

  lemma EditsEmpty(m: ModifyDnRequestData)
    requires m.newRdn == C_IS_3 && !m.deleteOldRdn
    ensures RenamedAttributes(m, map[]).after != map[]
  {
    IndexOfUnique(C_IS_3, EQUALS, 1);
    var change := AttributeModification(ADD, [99], [[51]]);
    assert C_IS_3[..1] == [99] && C_IS_3[2..] == [51];
    assert ParseRdn(C_IS_3) == Some(TypeAndValue([99], [51]));
    OneChange(map[], change);
    var empty: Attributes := map[];
    assert FindKey(empty.Keys, [99]).None?;
    assert [99] in ApplyOne(empty, change).after;
  }
}
