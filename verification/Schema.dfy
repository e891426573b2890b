/** The schema registry: name indexes, the superclass closure, and entry validation. */
module Schema {
  import opened Octets
  import opened OrderedKeys
  import opened Entries

  datatype SchemaAttribute = SchemaAttribute(names: seq<Text>, superior: Text, syntax: Text, singleValue: bool)

  datatype ObjectClassKind = Abstract | Structural | Auxiliary

  datatype ObjectClassData = ObjectClassData(names: seq<Text>, superiors: seq<Text>, kind: ObjectClassKind,
                                             must: seq<Text>, may: seq<Text>)

  /** The schema loader rejects a class without a name. */
  type ObjectClass = c: ObjectClassData | c.names != []
    witness ObjectClassData([[]], [], Abstract, [], [])

  datatype Registry = Registry(attributes: seq<SchemaAttribute>, classes: seq<ObjectClass>)

  // ---------- the name indexes: the last definition of a name wins ----------

  type Index = map<Text, nat>

  function IndexNames(index: Index, names: seq<Text>, at: nat): (r: Index)
    ensures forall k :: k in r <==> k in index || exists n :: n in names && Lower(n) == k
    ensures forall k :: k in r ==> r[k] == (if exists n :: n in names && Lower(n) == k then at else index[k])
    decreases |names|
  {
    if names == [] then index
    else
      assert forall n :: n in names <==> n == names[0] || n in names[1..];
      IndexNames(index[Lower(names[0]) := at], names[1..], at)
  }

  function ClassIndex(classes: seq<ObjectClass>): (r: Index)
    ensures forall k :: k in r ==> r[k] < |classes|
  {
    if classes == [] then map[]
    else
      var n := |classes| - 1;
      IndexNames(ClassIndex(classes[..n]), classes[n].names, n)
  }

  function AttributeIndex(attributes: seq<SchemaAttribute>): (r: Index)
    ensures forall k :: k in r ==> r[k] < |attributes|
  {
    if attributes == [] then map[]
    else
      var n := |attributes| - 1;
      IndexNames(AttributeIndex(attributes[..n]), attributes[n].names, n)
  }

  /** The class filed under a folded name. */
  function ClassAt(reg: Registry, key: Text): (r: Option<ObjectClass>)
    ensures r.Some? ==> r.value in reg.classes
  {
    var index := ClassIndex(reg.classes);
    if key in index then Some(reg.classes[index[key]]) else None
  }

  function FindClass(reg: Registry, name: Text): (r: Option<ObjectClass>)
    ensures r.Some? ==> r.value in reg.classes
  {
    ClassAt(reg, Lower(name))
  }

  function FindSchemaAttribute(reg: Registry, name: Text): Option<SchemaAttribute> {
    var index := AttributeIndex(reg.attributes);
    if Lower(name) in index then Some(reg.attributes[index[Lower(name)]]) else None
  }

  // ---------- the superclass closure ----------

  datatype Collected = Collected(classes: seq<ObjectClass>) | UnknownClass(name: Text)

  /** The worklist loop: `pending` is a stack, `seen` holds folded names. */
  function CollectFrom(reg: Registry, pending: seq<Text>, seen: set<Text>, classes: seq<ObjectClass>): Collected
    decreases |ClassIndex(reg.classes).Keys - seen|, |pending|
  {
    if pending == [] then Collected(classes)
    else
      var name, rest := pending[|pending| - 1], pending[..|pending| - 1];
      var key := Lower(name);
      if key in seen then CollectFrom(reg, rest, seen, classes)
      else
        match ClassAt(reg, key)
        case None => UnknownClass(name)
        case Some(c) =>
          SeenGrows(ClassIndex(reg.classes).Keys, seen, key);
          CollectFrom(reg, rest + c.superiors, seen + {key}, classes + [c])
  }

  lemma SeenGrows(known: set<Text>, seen: set<Text>, key: Text)
    requires key in known && key !in seen
    ensures |known - (seen + {key})| < |known - seen|
  {
    assert known - seen == (known - (seen + {key})) + {key};
  }

  function CollectObjectClasses(reg: Registry, names: seq<Text>): Collected {
    CollectFrom(reg, names, {}, [])
  }

  function FoldNames(names: seq<Text>): set<Text> {
    set n | n in names :: Lower(n)
  }

  function SuperiorKeys(reg: Registry, key: Text): set<Text> {
    match ClassAt(reg, key)
    case None => {}
    case Some(c) => FoldNames(c.superiors)
  }

  /** A chain of SUP references starting at one of the given names. */
  ghost predicate IsPath(reg: Registry, names: seq<Text>, path: seq<Text>) {
    && path != []
    && path[0] in FoldNames(names)
    && forall i :: 0 <= i < |path| - 1 ==> path[i + 1] in SuperiorKeys(reg, path[i])
  }

  ghost predicate Reachable(reg: Registry, names: seq<Text>, key: Text) {
    exists path :: IsPath(reg, names, path) && path[|path| - 1] == key
  }

  lemma ReachableStart(reg: Registry, names: seq<Text>, key: Text)
    requires key in FoldNames(names)
    ensures Reachable(reg, names, key)
  {
    assert IsPath(reg, names, [key]);
    assert [key][|[key]| - 1] == key;
  }

  lemma ReachableStep(reg: Registry, names: seq<Text>, key: Text, next: Text)
    requires Reachable(reg, names, key) && next in SuperiorKeys(reg, key)
    ensures Reachable(reg, names, next)
  {
    hide SuperiorKeys, FoldNames;
    var path :| IsPath(reg, names, path) && path[|path| - 1] == key;
    var longer := path + [next];
    assert IsPath(reg, names, longer);
    assert longer[|longer| - 1] == next;
  }

  /** A set that holds the starting names and is closed under SUP holds everything reachable. */
  lemma {:induction false} PathStaysInside(reg: Registry, names: seq<Text>, path: seq<Text>, all: set<Text>)
    requires IsPath(reg, names, path) && FoldNames(names) <= all
    requires forall k :: k in all ==> SuperiorKeys(reg, k) <= all
    ensures path[|path| - 1] in all
    decreases |path|
  {
    hide SuperiorKeys, FoldNames;
    if |path| > 1 {
      var prefix := path[..|path| - 1];
      assert IsPath(reg, names, prefix);
      PathStaysInside(reg, names, prefix, all);
      assert path[|path| - 1] in SuperiorKeys(reg, path[|path| - 2]);
    }
  }

  lemma FoldNamesConcat(a: seq<Text>, b: seq<Text>)
    ensures FoldNames(a + b) == FoldNames(a) + FoldNames(b)
  {
    hide Lower;
    forall n | n in a ensures Lower(n) in FoldNames(a + b) {
      assert n in a + b;
    }
    forall n | n in b ensures Lower(n) in FoldNames(a + b) {
      assert n in a + b;
    }
  }

  /** Everything met is reachable, everything seen is defined and collected. */
  ghost predicate MetIsReachable(reg: Registry, names: seq<Text>, todo: set<Text>, seen: set<Text>,
                                 classes: seq<ObjectClass>) {
    && (forall k :: k in todo ==> Reachable(reg, names, k))
    && (forall k :: k in seen ==> Reachable(reg, names, k) && ClassAt(reg, k).Some? && ClassAt(reg, k).value in classes)
    && (forall c :: c in classes ==> exists k :: k in seen && ClassAt(reg, k) == Some(c))
  }

  /** Nothing reachable is lost. */
  ghost predicate NothingLost(reg: Registry, names: seq<Text>, todo: set<Text>, seen: set<Text>) {
    && (forall k :: k in seen ==> SuperiorKeys(reg, k) <= seen + todo)
    && FoldNames(names) <= seen + todo
  }

  ghost predicate WorkInvariant(reg: Registry, names: seq<Text>, todo: set<Text>, seen: set<Text>,
                                classes: seq<ObjectClass>) {
    MetIsReachable(reg, names, todo, seen, classes) && NothingLost(reg, names, todo, seen)
  }

  /** The collected classes are exactly those of the reachable names, all of which are defined. */
  ghost predicate ExactClosure(reg: Registry, names: seq<Text>, classes: seq<ObjectClass>) {
    && (forall k :: Reachable(reg, names, k) ==> ClassAt(reg, k).Some? && ClassAt(reg, k).value in classes)
    && (forall c :: c in classes ==> exists k :: Reachable(reg, names, k) && ClassAt(reg, k) == Some(c))
  }

  lemma PendingSplits(pending: seq<Text>)
    requires pending != []
    ensures FoldNames(pending) == FoldNames(pending[..|pending| - 1]) + {Lower(pending[|pending| - 1])}
  {
    var name, rest := pending[|pending| - 1], pending[..|pending| - 1];
    assert pending == rest + [name];
    FoldNamesConcat(rest, [name]);
    assert FoldNames([name]) == {Lower(name)};
  }

  lemma ExpandMet(reg: Registry, names: seq<Text>, rest: set<Text>, seen: set<Text>, classes: seq<ObjectClass>,
                  key: Text, c: ObjectClass)
    requires MetIsReachable(reg, names, rest + {key}, seen, classes) && ClassAt(reg, key) == Some(c)
    ensures MetIsReachable(reg, names, rest + SuperiorKeys(reg, key), seen + {key}, classes + [c])
  {
    hide Reachable, ClassAt, SuperiorKeys;
    assert key in rest + {key};
    forall k | k in SuperiorKeys(reg, key)
      ensures Reachable(reg, names, k)
    {
      ReachableStep(reg, names, key, k);
    }
    forall d | d in classes + [c]
      ensures exists k :: k in seen + {key} && ClassAt(reg, k) == Some(d)
    {
      if d in classes {
        var k :| k in seen && ClassAt(reg, k) == Some(d);
        assert k in seen + {key};
      } else {
        assert key in seen + {key};
      }
    }
  }

  lemma ExpandKeeps(reg: Registry, names: seq<Text>, rest: set<Text>, seen: set<Text>, key: Text)
    requires NothingLost(reg, names, rest + {key}, seen)
    ensures NothingLost(reg, names, rest + SuperiorKeys(reg, key), seen + {key})
  {
    hide SuperiorKeys, FoldNames;
    var before, after := seen + (rest + {key}), (seen + {key}) + (rest + SuperiorKeys(reg, key));
    assert before <= after;
  }

  lemma WorkDone(reg: Registry, names: seq<Text>, seen: set<Text>, classes: seq<ObjectClass>)
    requires WorkInvariant(reg, names, {}, seen, classes)
    ensures ExactClosure(reg, names, classes)
  {
    hide ClassAt, SuperiorKeys, FoldNames, IsPath, Reachable;
    assert seen + {} == seen;
    forall k | Reachable(reg, names, k)
      ensures k in seen
    {
      ReachedStaysInside(reg, names, k, seen);
    }
    forall c | c in classes
      ensures exists k :: Reachable(reg, names, k) && ClassAt(reg, k) == Some(c)
    {
      var k :| k in seen && ClassAt(reg, k) == Some(c);
    }
  }

  lemma ReachedStaysInside(reg: Registry, names: seq<Text>, k: Text, all: set<Text>)
    requires Reachable(reg, names, k) && FoldNames(names) <= all
    requires forall j :: j in all ==> SuperiorKeys(reg, j) <= all
    ensures k in all
  {
    hide SuperiorKeys, FoldNames;
    var path :| IsPath(reg, names, path) && path[|path| - 1] == k;
    PathStaysInside(reg, names, path, all);
  }

  lemma {:induction false} CollectFromCorrect(reg: Registry, names: seq<Text>, pending: seq<Text>, seen: set<Text>,
                                              classes: seq<ObjectClass>)
    requires WorkInvariant(reg, names, FoldNames(pending), seen, classes)
    ensures match CollectFrom(reg, pending, seen, classes)
            case Collected(all) => ExactClosure(reg, names, all)
            case UnknownClass(name) => Reachable(reg, names, Lower(name)) && ClassAt(reg, Lower(name)).None?
    decreases |ClassIndex(reg.classes).Keys - seen|, |pending|
  {
    hide ClassAt, ClassIndex, Reachable, NothingLost, FoldNames, Lower;
    if pending == [] {
      assert FoldNames([]) == {} by {
        NoNames();
      }
      WorkDone(reg, names, seen, classes);
    } else {
      var name, rest := pending[|pending| - 1], pending[..|pending| - 1];
      var key := Lower(name);
      PendingSplits(pending);
      var todo := FoldNames(rest);
      assert key in todo + {key};
      if key in seen {
        SkipKeeps(reg, names, todo, seen, key);
        CollectFromCorrect(reg, names, rest, seen, classes);
      } else if ClassAt(reg, key).Some? {
        var c := ClassAt(reg, key).value;
        KnownKey(reg, key);
        SeenGrows(ClassIndex(reg.classes).Keys, seen, key);
        ExpandMet(reg, names, todo, seen, classes, key, c);
        ExpandKeeps(reg, names, todo, seen, key);
        FoldNamesConcat(rest, c.superiors);
        CollectFromCorrect(reg, names, rest + c.superiors, seen + {key}, classes + [c]);
      }
    }
  }

  lemma NoNames()
    ensures FoldNames([]) == {}
  {
  }

  lemma KnownKey(reg: Registry, key: Text)
    requires ClassAt(reg, key).Some?
    ensures key in ClassIndex(reg.classes)
  {
  }

  lemma SkipKeeps(reg: Registry, names: seq<Text>, rest: set<Text>, seen: set<Text>, key: Text)
    requires NothingLost(reg, names, rest + {key}, seen) && key in seen
    ensures NothingLost(reg, names, rest, seen)
  {
    hide SuperiorKeys, FoldNames;
    assert seen + (rest + {key}) == seen + rest;
  }

  /** The closure succeeds exactly when every reachable name is defined, and then returns exactly the reachable
      classes; on failure it names a reachable, undefined class. Cyclic SUP graphs included. */
  lemma CollectObjectClassesCorrect(reg: Registry, names: seq<Text>)
    ensures match CollectObjectClasses(reg, names)
            case Collected(all) => ExactClosure(reg, names, all)
            case UnknownClass(name) => Reachable(reg, names, Lower(name)) && ClassAt(reg, Lower(name)).None?
    ensures CollectObjectClasses(reg, names).Collected?
       <==> forall k :: Reachable(reg, names, k) ==> ClassAt(reg, k).Some?
  {
    hide CollectFrom, ClassAt, Reachable;
    forall k | k in FoldNames(names) ensures Reachable(reg, names, k) {
      ReachableStart(reg, names, k);
    }
    CollectFromCorrect(reg, names, names, {}, []);
  }

  // ---------- entry validation ----------

  const OBJECT_CLASS_NAME: Text := Ascii("objectClass")
  const OBJECT_CLASS_KEY: Text := Ascii("objectclass")
  const SYNTAX_INTEGER: Text := Ascii("1.3.6.1.4.1.1466.115.121.1.27")
  const SYNTAX_BOOLEAN: Text := Ascii("1.3.6.1.4.1.1466.115.121.1.7")
  const SYNTAX_DN: Text := Ascii("1.3.6.1.4.1.1466.115.121.1.12")
  const SYNTAX_OID: Text := Ascii("1.3.6.1.4.1.1466.115.121.1.38")
  const SYNTAX_IA5: Text := Ascii("1.3.6.1.4.1.1466.115.121.1.26")

  predicate AllDigits(s: Text) {
    s != [] && forall i :: 0 <= i < |s| ==> IsDigit(s[i])
  }

  predicate ValueMatchesSyntax(syntax: Text, value: Text) {
    var oid := syntax[..IndexOf(syntax, '{' as int)];
    if oid == SYNTAX_INTEGER then AllDigits(if value != [] && value[0] == '-' as int then value[1..] else value)
    else if oid == SYNTAX_BOOLEAN then value == Ascii("TRUE") || value == Ascii("FALSE")
    else if oid == SYNTAX_DN then '=' as int in value
    else if oid == SYNTAX_OID then
      && value != []
      && (forall i :: 0 <= i < |value| - 1 ==> !(value[i] == value[i + 1] == '.' as int))
      && forall i :: 0 <= i < |value| ==> IsDigit(value[i]) || value[i] == '.' as int
    else if oid == SYNTAX_IA5 then forall i :: 0 <= i < |value| ==> value[i] <= 127
    else true
  }

  /** The attribute whose syntax applies: up the SUP chain, at most 32 steps, until one has a syntax. */
  function SyntaxSource(reg: Registry, attribute: SchemaAttribute, steps: nat): Option<SchemaAttribute>
    decreases steps
  {
    if attribute.syntax == [] && attribute.superior != [] && steps > 0 then
      var next :- FindSchemaAttribute(reg, attribute.superior);
      SyntaxSource(reg, next, steps - 1)
    else Some(attribute)
  }

  predicate HasNonEmpty(attributes: Attributes, name: Text) {
    var values := ValuesNamed(attributes, name);
    values.Some? && exists v | v in values.value :: v != []
  }

  function Primary(c: ObjectClass): Text {
    Lower(c.names[0])
  }

  /** The structural parents of a class among all defined classes. */
  function StructuralParents(reg: Registry, c: ObjectClass): set<ObjectClass> {
    set s | s in c.superiors && FindClass(reg, s).Some? && FindClass(reg, s).value.kind == Structural
          :: FindClass(reg, s).value
  }

  function StructuralNames(classes: seq<ObjectClass>): set<Text> {
    set c | c in classes && c.kind == Structural :: Primary(c)
  }

  function StructuralSuperiors(reg: Registry, classes: seq<ObjectClass>): set<Text> {
    set c, p | c in classes && c.kind == Structural && p in StructuralParents(reg, c) :: Primary(p)
  }

  function Leaves(reg: Registry, classes: seq<ObjectClass>): set<Text> {
    StructuralNames(classes) - StructuralSuperiors(reg, classes)
  }

  function Required(classes: seq<ObjectClass>): set<Text> {
    set c, n | c in classes && n in c.must :: Lower(n)
  }

  function Allowed(classes: seq<ObjectClass>): set<Text> {
    Required(classes) + (set c, n | c in classes && n in c.may :: Lower(n)) + {OBJECT_CLASS_KEY}
  }

  function AttributeStatus(reg: Registry, allowed: set<Text>, name: Text, values: seq<Text>): ResultCode {
    if Lower(name) == OBJECT_CLASS_KEY then SUCCESS
    else
      match FindSchemaAttribute(reg, name)
      case None => UNDEFINED_ATTRIBUTE_TYPE
      case Some(attribute) =>
        var source := SyntaxSource(reg, attribute, 32);
        var syntax := if source.Some? then source.value.syntax else attribute.syntax;
        if Lower(name) !in allowed then OBJECT_CLASS_VIOLATION
        else if attribute.singleValue && |values| > 1 then CONSTRAINT_VIOLATION
        else if syntax != [] && exists v | v in values :: !ValueMatchesSyntax(syntax, v) then INVALID_ATTRIBUTE_SYNTAX
        else SUCCESS
  }

  /** The first failing attribute in map order decides. */
  function AttributesStatus(reg: Registry, allowed: set<Text>, attributes: Attributes, ks: seq<Text>): ResultCode
    requires forall k :: k in ks ==> k in attributes
  {
    if ks == [] then SUCCESS
    else
      var status := AttributeStatus(reg, allowed, ks[0], attributes[ks[0]]);
      if status != SUCCESS then status else AttributesStatus(reg, allowed, attributes, ks[1..])
  }

  /** `validateEntry`. The DN plays no part, so the attributes alone are the argument. */
  function ValidateEntry(reg: Registry, attributes: Attributes): ResultCode {
    if reg.classes == [] then SUCCESS
    else
      match ValuesNamed(attributes, OBJECT_CLASS_NAME)
      case None => OBJECT_CLASS_VIOLATION
      case Some(names) =>
        if names == [] then OBJECT_CLASS_VIOLATION
        else
          match CollectObjectClasses(reg, names)
          case UnknownClass(_) => OBJECT_CLASS_VIOLATION
          case Collected(classes) =>
            if |Leaves(reg, classes)| != 1 then OBJECT_CLASS_VIOLATION
            else if exists n | n in Required(classes) :: !HasNonEmpty(attributes, n) then OBJECT_CLASS_VIOLATION
            else AttributesStatus(reg, Allowed(classes), attributes, SortedKeys(attributes.Keys))
  }

  // ---------- the single structural leaf ----------

  /** A chain of structural SUP steps from `chain[0]` up to its last class. */
  ghost predicate StructuralChain(reg: Registry, chain: seq<ObjectClass>) {
    && chain != []
    && forall i :: 0 <= i < |chain| - 1 ==> chain[i + 1] in StructuralParents(reg, chain[i])
  }

  ghost predicate StructuralAncestor(reg: Registry, leaf: ObjectClass, c: ObjectClass) {
    exists chain :: StructuralChain(reg, chain) && chain[0] == leaf && chain[|chain| - 1] == c
  }

  ghost predicate DistinctPrimaryNames(reg: Registry) {
    forall a, b :: a in reg.classes && b in reg.classes && Primary(a) == Primary(b) ==> a == b
  }

  /** Structural SUP edges strictly lower `rank`, so they have no cycle. */
  ghost predicate Ranked(reg: Registry, rank: ObjectClass -> nat, top: nat) {
    forall c, p :: c in reg.classes && c.kind == Structural && p in StructuralParents(reg, c)
                   ==> rank(p) < rank(c) <= top
  }

  lemma AncestorStep(reg: Registry, leaf: ObjectClass, d: ObjectClass, c: ObjectClass)
    requires StructuralAncestor(reg, leaf, d) && c in StructuralParents(reg, d)
    ensures StructuralAncestor(reg, leaf, c)
  {
    hide StructuralParents;
    var chain :| StructuralChain(reg, chain) && chain[0] == leaf && chain[|chain| - 1] == d;
    var longer := chain + [c];
    assert StructuralChain(reg, longer) && longer[0] == leaf && longer[|longer| - 1] == c;
  }

  lemma AncestorSelf(reg: Registry, c: ObjectClass)
    ensures StructuralAncestor(reg, c, c)
  {
    var chain := [c];
    assert StructuralChain(reg, chain) && chain[0] == c && chain[|chain| - 1] == c;
  }

  /** Climbing down from any structural class ends at the leaf. */
  lemma {:induction false} UnderTheLeaf(reg: Registry, classes: seq<ObjectClass>, leaf: ObjectClass, c: ObjectClass,
                                        rank: ObjectClass -> nat, top: nat)
    requires DistinctPrimaryNames(reg) && Ranked(reg, rank, top)
    requires forall d :: d in classes ==> d in reg.classes
    requires Leaves(reg, classes) == {Primary(leaf)} && leaf in reg.classes
    requires c in classes && c.kind == Structural
    ensures StructuralAncestor(reg, leaf, c)
    decreases top + 1 - rank(c)
  {
    hide StructuralParents, StructuralAncestor, Primary;
    assert Primary(c) in StructuralNames(classes);
    if Primary(c) in StructuralSuperiors(reg, classes) {
      var d, p :| d in classes && d.kind == Structural && p in StructuralParents(reg, d) && Primary(p) == Primary(c);
      ParentDefined(reg, d, p);
      assert p == c;
      UnderTheLeaf(reg, classes, leaf, d, rank, top);
      AncestorStep(reg, leaf, d, c);
    } else {
      assert Primary(c) in Leaves(reg, classes);
      AncestorSelf(reg, c);
    }
  }

  lemma ParentDefined(reg: Registry, c: ObjectClass, p: ObjectClass)
    requires p in StructuralParents(reg, c)
    ensures p in reg.classes && p.kind == Structural
  {
  }

  lemma {:induction false} CollectedAreDefined(reg: Registry, pending: seq<Text>, seen: set<Text>, classes: seq<ObjectClass>)
    requires forall c :: c in classes ==> c in reg.classes
    ensures var r := CollectFrom(reg, pending, seen, classes);
            r.Collected? ==> forall c :: c in r.classes ==> c in reg.classes
    decreases |ClassIndex(reg.classes).Keys - seen|, |pending|
  {
    hide ClassIndex, Lower;
    if pending != [] {
      var name, rest := pending[|pending| - 1], pending[..|pending| - 1];
      var key := Lower(name);
      if key in seen {
        CollectedAreDefined(reg, rest, seen, classes);
      } else if ClassAt(reg, key).Some? {
        var c := ClassAt(reg, key).value;
        SeenGrows(ClassIndex(reg.classes).Keys, seen, key);
        CollectedAreDefined(reg, rest + c.superiors, seen + {key}, classes + [c]);
      }
    }
  }

  lemma RankedChainTop(reg: Registry, attributes: Attributes, rank: ObjectClass -> nat, top: nat)
    returns (leaf: ObjectClass)
    requires reg.classes != [] && ValidateEntry(reg, attributes) == SUCCESS
    requires DistinctPrimaryNames(reg) && Ranked(reg, rank, top)
    ensures var classes := CollectObjectClasses(reg, ValuesNamed(attributes, OBJECT_CLASS_NAME).value).classes;
            && leaf in classes && leaf.kind == Structural
            && forall c :: c in classes && c.kind == Structural ==> StructuralAncestor(reg, leaf, c)
  {
    hide AttributesStatus, StructuralParents, StructuralAncestor, ValuesNamed, HasNonEmpty, CollectFrom, Primary;
    var names := ValuesNamed(attributes, OBJECT_CLASS_NAME).value;
    var classes := CollectObjectClasses(reg, names).classes;
    CollectedAreDefined(reg, names, {}, []);
    var leaves := Leaves(reg, classes);
    var name :| name in leaves;
    assert leaves == {name} by {
      OnlyMember(leaves, name);
    }
    leaf :| leaf in classes && leaf.kind == Structural && Primary(leaf) == name;
    forall c | c in classes && c.kind == Structural
      ensures StructuralAncestor(reg, leaf, c)
    {
      UnderTheLeaf(reg, classes, leaf, c, rank, top);
    }
  }

  // ---------- acyclic SUP edges have a rank ----------

  /** A chain of at least one structural SUP step leads from `c` to `d`. */
  ghost predicate ProperAncestor(reg: Registry, c: ObjectClass, d: ObjectClass) {
    exists chain :: StructuralChain(reg, chain) && |chain| >= 2 && chain[0] == c && chain[|chain| - 1] == d
  }

  /** No structural class is its own proper ancestor. */
  ghost predicate Acyclic(reg: Registry) {
    forall c :: c in reg.classes && c.kind == Structural ==> !ProperAncestor(reg, c, c)
  }

  ghost function Ancestors(reg: Registry, c: ObjectClass): set<ObjectClass> {
    set d | d in reg.classes && ProperAncestor(reg, c, d)
  }

  lemma AncestorOfParent(reg: Registry, c: ObjectClass, p: ObjectClass, d: ObjectClass)
    requires p in StructuralParents(reg, c)
    ensures ProperAncestor(reg, c, p)
    ensures ProperAncestor(reg, p, d) ==> ProperAncestor(reg, c, d)
  {
    hide StructuralParents;
    assert StructuralChain(reg, [c, p]);
    if ProperAncestor(reg, p, d) {
      var chain :| StructuralChain(reg, chain) && |chain| >= 2 && chain[0] == p && chain[|chain| - 1] == d;
      var longer := [c] + chain;
      assert StructuralChain(reg, longer);
    }
  }

  lemma FewerAncestors(reg: Registry, c: ObjectClass, p: ObjectClass)
    requires Acyclic(reg) && p in StructuralParents(reg, c)
    ensures |Ancestors(reg, p)| < |Ancestors(reg, c)|
  {
    hide StructuralParents, ProperAncestor;
    ParentDefined(reg, c, p);
    forall d | d in Ancestors(reg, p) ensures d in Ancestors(reg, c) {
      AncestorOfParent(reg, c, p, d);
    }
    AncestorOfParent(reg, c, p, p);
    assert p in Ancestors(reg, c) && p !in Ancestors(reg, p);
    Smaller(Ancestors(reg, p), Ancestors(reg, c), p);
  }

  lemma Smaller<T>(a: set<T>, b: set<T>, x: T)
    requires a <= b && x in b && x !in a
    ensures |a| < |b|
  {
    assert a <= b - {x};
    NoLarger(a, b - {x});
  }

  lemma NoLarger<T>(a: set<T>, b: set<T>)
    requires a <= b
    ensures |a| <= |b|
  {
    assert b == a + (b - a);
  }

  lemma AcyclicIsRanked(reg: Registry)
    requires Acyclic(reg)
    ensures Ranked(reg, c => |Ancestors(reg, c)|, |set c | c in reg.classes|)
  {
    hide StructuralParents, Acyclic, Ancestors;
    var top := |set c | c in reg.classes|;
    forall c, p | c in reg.classes && c.kind == Structural && p in StructuralParents(reg, c)
      ensures |Ancestors(reg, p)| < |Ancestors(reg, c)| <= top
    {
      FewerAncestors(reg, c, p);
      AncestorsDefined(reg, c);
      NoLarger(Ancestors(reg, c), set d | d in reg.classes);
    }
  }

  lemma AncestorsDefined(reg: Registry, c: ObjectClass)
    ensures Ancestors(reg, c) <= set d | d in reg.classes
  {
  }

  /** In a valid entry, every collected structural class is a structural ancestor of one collected leaf class
      (section 2.4.2 of RFC 4512), given acyclic structural SUP edges and distinct primary names. */
  lemma ValidEntryHasOneChainTop(reg: Registry, attributes: Attributes) returns (leaf: ObjectClass)
    requires reg.classes != [] && ValidateEntry(reg, attributes) == SUCCESS
    requires DistinctPrimaryNames(reg) && Acyclic(reg)
    ensures var classes := CollectObjectClasses(reg, ValuesNamed(attributes, OBJECT_CLASS_NAME).value).classes;
            && leaf in classes && leaf.kind == Structural
            && forall c :: c in classes && c.kind == Structural ==> StructuralAncestor(reg, leaf, c)
  {
    hide ValidateEntry, CollectObjectClasses, StructuralAncestor, Ranked, DistinctPrimaryNames;
    AcyclicIsRanked(reg);
    leaf := RankedChainTop(reg, attributes, c => |Ancestors(reg, c)|, |set c | c in reg.classes|);
  }

  lemma OnlyMember(s: set<Text>, x: Text)
    requires |s| == 1 && x in s
    ensures s == {x}
  {
    assert |s - {x}| == 0;
  }

  // ---------- the registry object ----------

  /** The registry with its two indexes, filled one definition at a time by the loader. */
  class SchemaRegistry {
    var attributes: seq<SchemaAttribute>
    var classes: seq<ObjectClass>
    var attributeIndex: Index
    var classIndex: Index

    ghost predicate Valid()
      reads this
    {
      attributeIndex == AttributeIndex(attributes) && classIndex == ClassIndex(classes)
    }

    ghost function Value(): Registry
      reads this
    {
      Registry(attributes, classes)
    }

    constructor ()
      ensures Valid() && Value() == Registry([], [])
    {
      attributes, classes, attributeIndex, classIndex := [], [], map[], map[];
    }

    /** `push_back` and `indexObjectClass`. */
    method AddObjectClass(c: ObjectClass)
      requires Valid()
      modifies this
      ensures Valid() && Value() == Registry(old(attributes), old(classes) + [c])
    {
      var at := |classes|;
      classes := classes + [c];
      assert classes[..at] == old(classes);
      var i := 0;
      while i < |c.names|
        invariant 0 <= i <= |c.names|
        invariant classes == old(classes) + [c] && attributes == old(attributes) && attributeIndex == old(attributeIndex)
        invariant IndexNames(classIndex, c.names[i..], at) == ClassIndex(classes)
      {
        assert c.names[i..][0] == c.names[i] && c.names[i..][1..] == c.names[i + 1..];
        classIndex := classIndex[Lower(c.names[i]) := at];
        i := i + 1;
      }
    }

    /** `push_back` and `indexAttribute`. */
    method AddAttribute(a: SchemaAttribute)
      requires Valid()
      modifies this
      ensures Valid() && Value() == Registry(old(attributes) + [a], old(classes))
    {
      var at := |attributes|;
      attributes := attributes + [a];
      assert attributes[..at] == old(attributes);
      var i := 0;
      while i < |a.names|
        invariant 0 <= i <= |a.names|
        invariant attributes == old(attributes) + [a] && classes == old(classes) && classIndex == old(classIndex)
        invariant IndexNames(attributeIndex, a.names[i..], at) == AttributeIndex(attributes)
      {
        assert a.names[i..][0] == a.names[i] && a.names[i..][1..] == a.names[i + 1..];
        attributeIndex := attributeIndex[Lower(a.names[i]) := at];
        i := i + 1;
      }
    }

    /** The worklist over the live index. */
    method Collect(names: seq<Text>) returns (r: Collected)
      requires Valid()
      ensures r == CollectObjectClasses(Value(), names)
      ensures r.Collected? ==> ExactClosure(Value(), names, r.classes)
    {
      CollectObjectClassesCorrect(Value(), names);
      hide ClassIndex, Lower, ExactClosure;
      var pending, seen, found: seq<ObjectClass> := names, {}, [];
      while pending != []
        invariant CollectFrom(Value(), pending, seen, found) == CollectObjectClasses(Value(), names)
        decreases |classIndex.Keys - seen|, |pending|
      {
        var name := pending[|pending| - 1];
        pending := pending[..|pending| - 1];
        var key := Lower(name);
        if key !in seen {
          if key !in classIndex {
            return UnknownClass(name);
          }
          SeenGrows(classIndex.Keys, seen, key);
          seen := seen + {key};
          var c := classes[classIndex[key]];
          found := found + [c];
          pending := pending + c.superiors;
        }
      }
      return Collected(found);
    }
  }
}
