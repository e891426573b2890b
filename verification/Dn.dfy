/** Distinguished names as the daemon handles them: raw strings split at the first comma. */
module Dn {
  import opened Octets

  const COMMA: byte := ',' as int

  predicate DnEquals(left: Text, right: Text) {
    IEquals(left, right)
  }

  predicate DnEndsWith(dn: Text, base: Text) {
    base == [] ||
    var hay, needle := Lower(dn), Lower(base);
    || hay == needle
    || (&& |hay| > |needle|
        && hay[|hay| - |needle|..] == needle
        && hay[|hay| - |needle| - 1] == COMMA)
  }

  predicate DnIsOneLevelChild(dn: Text, base: Text) {
    if base == [] then
      COMMA !in dn && dn != []
    else
      && DnEndsWith(dn, base)
      && !DnEquals(dn, base)
      && COMMA !in Lower(dn)[..|dn| - |base| - 1]
  }

  function DnParent(dn: Text): Text {
    var comma := IndexOf(dn, COMMA);
    if comma == |dn| then [] else dn[comma + 1..]
  }

  function DnRdn(dn: Text): Text {
    dn[..IndexOf(dn, COMMA)]
  }

  function ComposeDn(rdn: Text, parent: Text): Text {
    if parent == [] then rdn
    else if rdn == [] then parent
    else rdn + [COMMA] + parent
  }

  datatype TypeAndValue = TypeAndValue(attribute: Text, value: Text)

  function ParseRdn(rdn: Text): Option<TypeAndValue> {
    var eq := IndexOf(rdn, EQUALS);
    if eq == |rdn| || eq == 0 || eq + 1 >= |rdn| then None
    else Some(TypeAndValue(rdn[..eq], rdn[eq + 1..]))
  }

  lemma CommaSurvivesFolding(s: Text)
    ensures COMMA in s <==> COMMA in Lower(s)
    ensures IndexOf(Lower(s), COMMA) == IndexOf(s, COMMA)
  {
    assert forall i :: 0 <= i < |s| ==> (s[i] == COMMA <==> Lower(s)[i] == COMMA);
    IndexOfUnique(Lower(s), COMMA, IndexOf(s, COMMA));
    if i :| 0 <= i < |s| && s[i] == COMMA {
      assert Lower(s)[i] == COMMA;
    }
    if i :| 0 <= i < |s| && Lower(s)[i] == COMMA {
      assert s[i] == COMMA;
    }
  }

  lemma DnParentShorter(dn: Text)
    requires dn != []
    ensures |DnParent(dn)| < |dn|
    ensures !DnEquals(DnParent(dn), dn)
  {
  }

  /** The textual one-level test is exactly "the parent is this base". */
  lemma OneLevelChildIffParent(dn: Text, base: Text)
    requires base != []
    ensures DnIsOneLevelChild(dn, base) <==> DnEquals(DnParent(dn), base)
  {
    CommaSurvivesFolding(dn);
    var hay, needle := Lower(dn), Lower(base);
    if DnIsOneLevelChild(dn, base) {
      IndexOfUnique(hay, COMMA, |hay| - |needle| - 1);
    }
    if DnEquals(DnParent(dn), base) {
      assert |DnParent(dn)| == |base|;
      assert hay[IndexOf(dn, COMMA) + 1..] == needle;
    }
  }

  /** Subtree membership composes down the tree. */
  lemma DnEndsWithTransitive(a: Text, b: Text, c: Text)
    requires DnEndsWith(a, b) && DnEndsWith(b, c) && b != []
    ensures DnEndsWith(a, c)
  {
    hide Lower;
    var x, y, z := Lower(a), Lower(b), Lower(c);
    if c != [] && x != y && y != z {
      assert x[|x| - |z|..] == x[|x| - |y|..][|y| - |z|..];
      assert x[|x| - |z| - 1] == x[|x| - |y|..][|y| - |z| - 1];
    }
  }

  /** A name composed with a comma-free, non-empty RDN has the given parent. */
  lemma ComposedParent(rdn: Text, parent: Text)
    requires rdn != [] && COMMA !in rdn
    ensures DnParent(ComposeDn(rdn, parent)) == parent
  {
    var dn := ComposeDn(rdn, parent);
    IndexOfUnique(dn, COMMA, |rdn|);
  }
}
