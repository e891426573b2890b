/** What a valid entry is, said over the classes reachable from its objectClass values. */
module SchemaMeaning {
  import opened Octets
  import opened OrderedKeys
  import opened Entries
  import opened Schema

  /** The class is one of the entry's classes or a superclass of one. */
  ghost predicate InClosure(reg: Registry, names: seq<Text>, c: ObjectClass) {
    exists k :: Reachable(reg, names, k) && ClassAt(reg, k) == Some(c)
  }

  ghost predicate HasStructural(reg: Registry, names: seq<Text>, n: Text) {
    exists c :: InClosure(reg, names, c) && c.kind == Structural && Primary(c) == n
  }

  ghost predicate HasStructuralChild(reg: Registry, names: seq<Text>, n: Text) {
    exists c, p :: InClosure(reg, names, c) && c.kind == Structural && p in StructuralParents(reg, c) && Primary(p) == n
  }

  /** A structural class of the entry that no other structural class of it lists as a parent. */
  ghost predicate IsLeaf(reg: Registry, names: seq<Text>, n: Text) {
    HasStructural(reg, names, n) && !HasStructuralChild(reg, names, n)
  }

  ghost predicate OnlyLeaf(reg: Registry, names: seq<Text>, n: Text) {
    forall m :: IsLeaf(reg, names, m) <==> m == n
  }

  ghost predicate Requires(reg: Registry, names: seq<Text>, key: Text) {
    exists c :: InClosure(reg, names, c) && key in FoldNames(c.must)
  }

  ghost predicate Allows(reg: Registry, names: seq<Text>, key: Text) {
    exists c :: InClosure(reg, names, c) && (key in FoldNames(c.must) || key in FoldNames(c.may))
  }

  /** A defined type, allowed by some class, not multi-valued against its definition, values in its syntax. */
  ghost predicate AttributeFits(reg: Registry, names: seq<Text>, name: Text, values: seq<Text>) {
    var found := FindSchemaAttribute(reg, name);
    && found.Some?
    && Allows(reg, names, Lower(name))
    && (found.value.singleValue ==> |values| <= 1)
    && var source := SyntaxSource(reg, found.value, 32);
       var syntax := if source.Some? then source.value.syntax else found.value.syntax;
       syntax != [] ==> forall v <- values :: ValueMatchesSyntax(syntax, v)
  }

  ghost predicate EntryFollows(reg: Registry, names: seq<Text>, attributes: Attributes) {
    && (forall k :: Reachable(reg, names, k) ==> ClassAt(reg, k).Some?)
    && (exists n :: OnlyLeaf(reg, names, n))
    && (forall key :: Requires(reg, names, key) ==> HasNonEmpty(attributes, key))
    && (forall k <- attributes :: Lower(k) == OBJECT_CLASS_KEY || AttributeFits(reg, names, k, attributes[k]))
  }

  // ---------- the sets the validator fills ----------

  lemma ClosureIs(reg: Registry, names: seq<Text>, classes: seq<ObjectClass>, c: ObjectClass)
    requires ExactClosure(reg, names, classes)
    ensures c in classes <==> InClosure(reg, names, c)
  {
    hide ClassAt, Reachable;
  }

  lemma SetsAre(reg: Registry, names: seq<Text>, classes: seq<ObjectClass>, key: Text)
    requires ExactClosure(reg, names, classes)
    ensures key in StructuralNames(classes) <==> HasStructural(reg, names, key)
    ensures key in StructuralSuperiors(reg, classes) <==> HasStructuralChild(reg, names, key)
    ensures key in Required(classes) <==> Requires(reg, names, key)
    ensures key in Allowed(classes) <==> key == OBJECT_CLASS_KEY || Allows(reg, names, key)
  {
    hide ExactClosure, InClosure, Primary, StructuralParents, Lower;
    forall c: ObjectClass ensures c in classes <==> InClosure(reg, names, c) {
      ClosureIs(reg, names, classes, c);
    }
  }

  lemma LeafIs(reg: Registry, names: seq<Text>, classes: seq<ObjectClass>, n: Text)
    requires ExactClosure(reg, names, classes)
    ensures n in Leaves(reg, classes) <==> IsLeaf(reg, names, n)
  {
    hide ExactClosure, StructuralNames, StructuralSuperiors, HasStructural, HasStructuralChild;
    SetsAre(reg, names, classes, n);
  }

  lemma LeafAlone(reg: Registry, names: seq<Text>, classes: seq<ObjectClass>, n: Text)
    requires ExactClosure(reg, names, classes) && Leaves(reg, classes) == {n}
    ensures OnlyLeaf(reg, names, n)
  {
    hide ExactClosure, Leaves, IsLeaf;
    forall m: Text ensures IsLeaf(reg, names, m) <==> m in {n} {
      LeafIs(reg, names, classes, m);
    }
  }

  lemma AloneIsOne(reg: Registry, names: seq<Text>, classes: seq<ObjectClass>, n: Text)
    requires ExactClosure(reg, names, classes) && OnlyLeaf(reg, names, n)
    ensures Leaves(reg, classes) == {n}
  {
    hide ExactClosure, Leaves, IsLeaf;
    forall m: Text ensures m in Leaves(reg, classes) <==> m == n {
      LeafIs(reg, names, classes, m);
    }
  }

  lemma OneLeaf(reg: Registry, names: seq<Text>, classes: seq<ObjectClass>)
    requires ExactClosure(reg, names, classes)
    ensures |Leaves(reg, classes)| == 1 <==> exists n :: OnlyLeaf(reg, names, n)
  {
    hide ExactClosure, Leaves, OnlyLeaf;
    var leaves := Leaves(reg, classes);
    if |leaves| == 1 {
      var n :| n in leaves;
      OnlyMember(leaves, n);
      LeafAlone(reg, names, classes, n);
    }
    if n :| OnlyLeaf(reg, names, n) {
      AloneIsOne(reg, names, classes, n);
    }
  }

  lemma AttributeAgrees(reg: Registry, names: seq<Text>, classes: seq<ObjectClass>, name: Text, values: seq<Text>)
    requires ExactClosure(reg, names, classes)
    ensures AttributeStatus(reg, Allowed(classes), name, values) == SUCCESS
       <==> Lower(name) == OBJECT_CLASS_KEY || AttributeFits(reg, names, name, values)
  {
    hide ExactClosure, FindSchemaAttribute, SyntaxSource, ValueMatchesSyntax, Lower, Allows;
    SetsAre(reg, names, classes, Lower(name));
  }

  lemma {:induction false} AllAttributes(reg: Registry, allowed: set<Text>, attributes: Attributes, ks: seq<Text>)
    requires forall k <- ks :: k in attributes
    ensures AttributesStatus(reg, allowed, attributes, ks) == SUCCESS
       <==> forall k <- ks :: AttributeStatus(reg, allowed, k, attributes[k]) == SUCCESS
    decreases |ks|
  {
    hide AttributeStatus;
    if ks != [] {
      AllAttributes(reg, allowed, attributes, ks[1..]);
      assert forall k <- ks :: k == ks[0] || k in ks[1..];
      assert ks[0] in ks;
    }
  }

  /** Validation succeeds exactly on the entries that follow the schema. */
  lemma ValidExactly(reg: Registry, attributes: Attributes)
    requires reg.classes != []
    ensures var names := ValuesNamed(attributes, OBJECT_CLASS_NAME);
            ValidateEntry(reg, attributes) == SUCCESS <==>
              names.Some? && names.value != [] && EntryFollows(reg, names.value, attributes)
  {
    hide FindKey, ExactClosure, Reachable, ClassAt, Leaves, Required, Allowed, AttributesStatus, HasNonEmpty, LexLess,
         CollectObjectClasses, OnlyLeaf, Requires, AttributeFits, AttributeStatus, Lower, SortedKeys;
    var found := ValuesNamed(attributes, OBJECT_CLASS_NAME);
    if found.Some? && found.value != [] {
      var names := found.value;
      CollectObjectClassesCorrect(reg, names);
      match CollectObjectClasses(reg, names)
      case UnknownClass(_) =>
      case Collected(classes) =>
        OneLeaf(reg, names, classes);
        forall key: Text ensures key in Required(classes) <==> Requires(reg, names, key) {
          SetsAre(reg, names, classes, key);
        }
        var ks := SortedKeys(attributes.Keys);
        AllAttributes(reg, Allowed(classes), attributes, ks);
        forall k | k in attributes
          ensures AttributeStatus(reg, Allowed(classes), k, attributes[k]) == SUCCESS
             <==> Lower(k) == OBJECT_CLASS_KEY || AttributeFits(reg, names, k, attributes[k])
        {
          AttributeAgrees(reg, names, classes, k, attributes[k]);
        }
    }
  }

  // ---------- the name index ----------

  predicate Named(c: ObjectClass, key: Text) {
    exists n | n in c.names :: Lower(n) == key
  }

  lemma IndexOneMore(classes: seq<ObjectClass>, key: Text)
    requires classes != []
    ensures var n := |classes| - 1;
            var before, index := ClassIndex(classes[..n]), ClassIndex(classes);
            && (key in index <==> key in before || Named(classes[n], key))
            && (key in index ==> index[key] == if Named(classes[n], key) then n else before[key])
  {
    hide Lower;
  }

  /** Class `i` lists the name and no later one does. */
  ghost predicate LastNamed(classes: seq<ObjectClass>, key: Text, i: nat) {
    i < |classes| && Named(classes[i], key) && forall j :: i < j < |classes| ==> !Named(classes[j], key)
  }

  ghost predicate NoneNamed(classes: seq<ObjectClass>, key: Text) {
    forall c <- classes :: !Named(c, key)
  }

  lemma OneClassMore(init: seq<ObjectClass>, c: ObjectClass, key: Text)
    ensures Named(c, key) ==> LastNamed(init + [c], key, |init|)
    ensures !Named(c, key) && NoneNamed(init, key) ==> NoneNamed(init + [c], key)
    ensures !Named(c, key) ==> forall i: nat :: LastNamed(init, key, i) ==> LastNamed(init + [c], key, i)
  {
    hide Named;
  }

  /** A name stands for the last class that lists it, up to case, and for nothing when none does. */
  lemma {:induction false} LastDefinitionWins(classes: seq<ObjectClass>, key: Text)
    ensures var index := ClassIndex(classes);
            if key in index then LastNamed(classes, key, index[key]) else NoneNamed(classes, key)
    decreases |classes|
  {
    if classes != [] {
      hide ClassIndex, Named, LastNamed, NoneNamed;
      var init, c := classes[..|classes| - 1], classes[|classes| - 1];
      assert classes == init + [c];
      IndexOneMore(classes, key);
      LastDefinitionWins(init, key);
      OneClassMore(init, c, key);
    }
  }
}
