/** Entry validation as the registry runs it: sets filled class by class, attributes checked in map order. */
module SchemaValidation {
  import opened Octets
  import opened OrderedKeys
  import opened Entries
  import opened Schema

  method FindObjectClass(registry: SchemaRegistry, name: Text) returns (r: Option<ObjectClass>)
    requires registry.Valid()
    ensures r == FindClass(registry.Value(), name)
  {
    hide ClassIndex, Lower;
    var key := Lower(name);
    if key in registry.classIndex {
      return Some(registry.classes[registry.classIndex[key]]);
    }
    return None;
  }

  method FindAttributeType(registry: SchemaRegistry, name: Text) returns (r: Option<SchemaAttribute>)
    requires registry.Valid()
    ensures r == FindSchemaAttribute(registry.Value(), name)
  {
    hide AttributeIndex, Lower;
    var key := Lower(name);
    if key in registry.attributeIndex {
      return Some(registry.attributes[registry.attributeIndex[key]]);
    }
    return None;
  }

  /** Climbs the superior types, at most 32 of them, until one has a syntax. */
  method FindSyntax(registry: SchemaRegistry, attribute: SchemaAttribute) returns (syntax: Text)
    requires registry.Valid()
    ensures var source := SyntaxSource(registry.Value(), attribute, 32);
            syntax == if source.Some? then source.value.syntax else attribute.syntax
  {
    hide FindSchemaAttribute;
    var current := Some(attribute);
    var depth := 0;
    while current.Some? && current.value.syntax == [] && current.value.superior != [] && depth < 32
      invariant 0 <= depth <= 32
      invariant current.Some? ==>
                  SyntaxSource(registry.Value(), current.value, 32 - depth) == SyntaxSource(registry.Value(), attribute, 32)
      invariant current.None? ==> SyntaxSource(registry.Value(), attribute, 32) == None
      decreases 32 - depth
    {
      current := FindAttributeType(registry, current.value.superior);
      depth := depth + 1;
    }
    return if current.Some? then current.value.syntax else attribute.syntax;
  }

  lemma NamesOneMore(reg: Registry, classes: seq<ObjectClass>, i: nat)
    requires i < |classes|
    ensures var c, before, after := classes[i], classes[..i], classes[..i + 1];
            && StructuralNames(after) == StructuralNames(before) + (if c.kind == Structural then {Primary(c)} else {})
            && StructuralSuperiors(reg, after)
               == StructuralSuperiors(reg, before)
                  + (if c.kind == Structural then set p | p in StructuralParents(reg, c) :: Primary(p) else {})
  {
    hide Primary, StructuralParents;
    assert classes[..i + 1] == classes[..i] + [classes[i]];
  }

  function MayNames(classes: seq<ObjectClass>): set<Text> {
    set c, n | c in classes && n in c.may :: Lower(n)
  }

  lemma AttributesOneMore(classes: seq<ObjectClass>, i: nat)
    requires i < |classes|
    ensures var c, before, after := classes[i], classes[..i], classes[..i + 1];
            && Required(after) == Required(before) + FoldNames(c.must)
            && MayNames(after) == MayNames(before) + FoldNames(c.may)
  {
    hide Lower;
    assert classes[..i + 1] == classes[..i] + [classes[i]];
  }

  /** The structural parents' primary names of one class. */
  method ParentNames(registry: SchemaRegistry, c: ObjectClass) returns (names: set<Text>)
    requires registry.Valid()
    ensures names == set p | p in StructuralParents(registry.Value(), c) :: Primary(p)
  {
    hide FindClass, Primary;
    names := {};
    var i := 0;
    while i < |c.superiors|
      invariant 0 <= i <= |c.superiors|
      invariant forall n :: n in names <==>
                  exists j :: 0 <= j < i && IsStructuralParent(registry.Value(), c.superiors[j])
                              && n == Primary(FindClass(registry.Value(), c.superiors[j]).value)
    {
      var parent := FindObjectClass(registry, c.superiors[i]);
      if parent.Some? && parent.value.kind == Structural {
        names := names + {Primary(parent.value)};
      }
      i := i + 1;
    }
    assert forall p :: p in StructuralParents(registry.Value(), c) <==>
             exists j :: 0 <= j < |c.superiors| && IsStructuralParent(registry.Value(), c.superiors[j])
                         && p == FindClass(registry.Value(), c.superiors[j]).value;
  }

  predicate IsStructuralParent(reg: Registry, name: Text) {
    FindClass(reg, name).Some? && FindClass(reg, name).value.kind == Structural
  }

  datatype Gathered = Gathered(leaves: set<Text>, required: set<Text>, allowed: set<Text>)

  method Gather(registry: SchemaRegistry, classes: seq<ObjectClass>) returns (g: Gathered)
    requires registry.Valid()
    ensures g == Gathered(Leaves(registry.Value(), classes), Required(classes), Allowed(classes))
  {
    hide StructuralNames, StructuralSuperiors, Required, MayNames, FoldNames, Primary, StructuralParents, Lower;
    var structural, superiors, required, may := {}, {}, {}, {};
    var i := 0;
    NothingGathered(registry.Value());
    assert classes[..0] == [];
    while i < |classes|
      invariant 0 <= i <= |classes|
      invariant structural == StructuralNames(classes[..i])
      invariant superiors == StructuralSuperiors(registry.Value(), classes[..i])
      invariant required == Required(classes[..i]) && may == MayNames(classes[..i])
    {
      var c := classes[i];
      NamesOneMore(registry.Value(), classes, i);
      AttributesOneMore(classes, i);
      if c.kind == Structural {
        structural := structural + {Primary(c)};
        var parents := ParentNames(registry, c);
        superiors := superiors + parents;
      }
      required := required + FoldNames(c.must);
      may := may + FoldNames(c.may);
      i := i + 1;
    }
    assert classes[..|classes|] == classes;
    AllowedParts(classes);
    return Gathered(structural - superiors, required, required + may + {OBJECT_CLASS_KEY});
  }

  lemma NothingGathered(reg: Registry)
    ensures StructuralNames([]) == {} && StructuralSuperiors(reg, []) == {} && Required([]) == {} && MayNames([]) == {}
  {
  }

  lemma AllowedParts(classes: seq<ObjectClass>)
    ensures Allowed(classes) == Required(classes) + MayNames(classes) + {OBJECT_CLASS_KEY}
  {
  }

  method CheckAttribute(registry: SchemaRegistry, allowed: set<Text>, name: Text, values: seq<Text>)
    returns (code: ResultCode)
    requires registry.Valid()
    ensures code == AttributeStatus(registry.Value(), allowed, name, values)
  {
    hide FindSchemaAttribute, SyntaxSource, ValueMatchesSyntax, Lower;
    if Lower(name) == OBJECT_CLASS_KEY {
      return SUCCESS;
    }
    var attribute := FindAttributeType(registry, name);
    if attribute.None? {
      return UNDEFINED_ATTRIBUTE_TYPE;
    }
    if Lower(name) !in allowed {
      return OBJECT_CLASS_VIOLATION;
    }
    if attribute.value.singleValue && |values| > 1 {
      return CONSTRAINT_VIOLATION;
    }
    var syntax := FindSyntax(registry, attribute.value);
    if syntax != [] {
      var i := 0;
      while i < |values|
        invariant 0 <= i <= |values|
        invariant forall j :: 0 <= j < i ==> ValueMatchesSyntax(syntax, values[j])
      {
        if !ValueMatchesSyntax(syntax, values[i]) {
          assert values[i] in values;
          return INVALID_ATTRIBUTE_SYNTAX;
        }
        i := i + 1;
      }
    }
    return SUCCESS;
  }

  /** `validateEntry`. */
  method Validate(registry: SchemaRegistry, attributes: Attributes) returns (code: ResultCode)
    requires registry.Valid()
    ensures code == ValidateEntry(registry.Value(), attributes)
  {
    hide CollectObjectClasses, Leaves, Required, Allowed, AttributeStatus, HasNonEmpty, LexLess, ExactClosure, FindKey,
         SortedKeys;
    if registry.classes == [] {
      return SUCCESS;
    }
    var names := ValuesNamed(attributes, OBJECT_CLASS_NAME);
    if names.None? || names.value == [] {
      return OBJECT_CLASS_VIOLATION;
    }
    var collected := registry.Collect(names.value);
    if collected.UnknownClass? {
      return OBJECT_CLASS_VIOLATION;
    }
    var g := Gather(registry, collected.classes);
    if |g.leaves| != 1 {
      return OBJECT_CLASS_VIOLATION;
    }
    if exists n | n in g.required :: !HasNonEmpty(attributes, n) {
      return OBJECT_CLASS_VIOLATION;
    }
    var ks := SortedKeys(attributes.Keys);
    var i := 0;
    assert ks[0..] == ks;
    while i < |ks|
      invariant 0 <= i <= |ks|
      invariant AttributesStatus(registry.Value(), g.allowed, attributes, ks[i..])
             == AttributesStatus(registry.Value(), g.allowed, attributes, ks)
    {
      assert ks[i] in ks;
      assert ks[i..][1..] == ks[i + 1..];
      code := CheckAttribute(registry, g.allowed, ks[i], attributes[ks[i]]);
      if code != SUCCESS {
        return;
      }
      i := i + 1;
    }
    return SUCCESS;
  }
}
