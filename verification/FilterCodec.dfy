/** The BER form of search filters (section 4.5.1 of RFC 4511, the subset the daemon speaks). */
module FilterCodec {
  import opened Octets
  import opened Ber
  import opened Filters

  const FILTER_AND: byte := 0xA0
  const FILTER_OR: byte := 0xA1
  const FILTER_NOT: byte := 0xA2
  const FILTER_EQUALITY: byte := 0xA3
  const FILTER_SUBSTRINGS: byte := 0xA4
  const FILTER_PRESENT: byte := 0x87
  const SUBSTRING_INITIAL: byte := 0x80
  const SUBSTRING_ANY: byte := 0x81
  const SUBSTRING_FINAL: byte := 0x82

  // ---------- writing ----------

  function NodeBytes(node: Filter): (s: seq<byte>)
    ensures |s| >= 2
    decreases node
  {
    match node
    case And(children) => Element(FILTER_AND, NodesBytes(children))
    case Or(children) => Element(FILTER_OR, NodesBytes(children))
    case Not(children) => Element(FILTER_NOT, if children == [] then [] else NodeBytes(children[0]))
    case Present(attribute) => Element(FILTER_PRESENT, attribute)
    case Equality(attribute, value) => Element(FILTER_EQUALITY, OctetString(attribute) + OctetString(value))
    case Substring(attribute, initial, any, final) =>
      Element(FILTER_SUBSTRINGS, OctetString(attribute) + Element(BER_SEQUENCE, PartsBytes(initial, any, final)))
    case True => Element(FILTER_PRESENT, OBJECT_CLASS)
    case False => Element(FILTER_NOT, Element(FILTER_PRESENT, OBJECT_CLASS))
  }

  function NodesBytes(nodes: seq<Filter>): seq<byte>
    decreases nodes
  {
    if nodes == [] then [] else NodeBytes(nodes[0]) + NodesBytes(nodes[1..])
  }

  function OptionalPart(tag: byte, part: Text): seq<byte> {
    if part == [] then [] else Element(tag, part)
  }

  function AnyBytes(any: seq<Text>): seq<byte> {
    if any == [] then [] else Element(SUBSTRING_ANY, any[0]) + AnyBytes(any[1..])
  }

  function PartsBytes(initial: Text, any: seq<Text>, final: Text): seq<byte> {
    OptionalPart(SUBSTRING_INITIAL, initial) + AnyBytes(any) + OptionalPart(SUBSTRING_FINAL, final)
  }

  // ---------- reading ----------

  datatype Parts = Parts(initial: Text, any: seq<Text>, final: Text)

  /** The component loop of a substrings element; a repeated initial or final replaces the earlier one. */
  function ReadParts(s: seq<byte>, sofar: Parts): Option<Parts>
    decreases |s|
  {
    if s == [] then Some(sofar)
    else
      var (e, rest) :- ReadElement(s);
      if e.tag == SUBSTRING_INITIAL then ReadParts(rest, sofar.(initial := e.body))
      else if e.tag == SUBSTRING_ANY then ReadParts(rest, sofar.(any := sofar.any + [e.body]))
      else if e.tag == SUBSTRING_FINAL then ReadParts(rest, sofar.(final := e.body))
      else ReadParts(rest, sofar)
  }

  function ReadNode(s: seq<byte>): (r: Option<(Filter, seq<byte>)>)
    ensures r.Some? ==> |r.value.1| < |s|
    decreases |s|, 0
  {
    if s == [] then None
    else if s[0] == FILTER_AND || s[0] == FILTER_OR then
      var (body, rest) :- ReadTagged(s[0], s);
      var children :- ReadNodes(body);
      Some((if s[0] == FILTER_AND then And(children) else Or(children), rest))
    else if s[0] == FILTER_NOT then
      var (body, rest) :- ReadTagged(FILTER_NOT, s);
      var (child, _) :- ReadNode(body);
      Some((Not([child]), rest))
    else if s[0] == FILTER_PRESENT then
      var (attribute, rest) :- ReadTagged(FILTER_PRESENT, s);
      Some((Present(attribute), rest))
    else if s[0] == FILTER_EQUALITY then
      var (body, rest) :- ReadTagged(FILTER_EQUALITY, s);
      var (attribute, more) :- ReadOctetString(body);
      var (value, _) :- ReadOctetString(more);
      Some((Equality(attribute, value), rest))
    else if s[0] == FILTER_SUBSTRINGS then
      var (body, rest) :- ReadTagged(FILTER_SUBSTRINGS, s);
      var (attribute, more) :- ReadOctetString(body);
      var (list, _) :- ReadTagged(BER_SEQUENCE, more);
      var parts :- ReadParts(list, Parts([], [], []));
      Some((Substring(attribute, parts.initial, parts.any, parts.final), rest))
    else None
  }

  function ReadNodes(s: seq<byte>): Option<seq<Filter>>
    decreases |s|, 1
  {
    if s == [] then Some([])
    else
      var (node, rest) :- ReadNode(s);
      var nodes :- ReadNodes(rest);
      Some([node] + nodes)
  }

  // ---------- what can travel ----------

  /** Structurally expressible: no constant nodes, and a negation has exactly one child. */
  predicate WellFormed(node: Filter) {
    match node
    case And(children) => forall c | c in children :: WellFormed(c)
    case Or(children) => forall c | c in children :: WellFormed(c)
    case Not(children) => |children| == 1 && WellFormed(children[0])
    case True => false
    case False => false
    case _ => true
  }

  /** Every nested body has a length the four-octet form can carry. */
  ghost predicate Fits(node: Filter)
    decreases node
  {
    match node
    case And(children) => |NodesBytes(children)| < TWO_32 && forall c | c in children :: Fits(c)
    case Or(children) => |NodesBytes(children)| < TWO_32 && forall c | c in children :: Fits(c)
    case Not(children) => |children| == 1 ==> |NodeBytes(children[0])| < TWO_32 && Fits(children[0])
    case Present(attribute) => |attribute| < TWO_32
    case Equality(attribute, value) => |OctetString(attribute) + OctetString(value)| < TWO_32
    case Substring(attribute, initial, any, final) =>
      |OctetString(attribute) + Element(BER_SEQUENCE, PartsBytes(initial, any, final))| < TWO_32
    case _ => true
  }

  lemma {:induction false} SmallNodesFit(nodes: seq<Filter>)
    requires |NodesBytes(nodes)| < TWO_32
    ensures forall c | c in nodes :: Fits(c)
    decreases nodes, 0
  {
    if nodes != [] {
      SmallNodeFits(nodes[0]);
      SmallNodesFit(nodes[1..]);
      assert nodes == [nodes[0]] + nodes[1..];
    }
  }

  lemma {:induction false} SmallNodeFits(node: Filter)
    requires |NodeBytes(node)| < TWO_32
    ensures Fits(node)
    decreases node, 1
  {
    match node
    case And(children) => SmallNodesFit(children);
    case Or(children) => SmallNodesFit(children);
    case Not(children) =>
      if |children| == 1 {
        SmallNodeFits(children[0]);
      }
    case _ =>
  }

  // ---------- round trip ----------

  lemma {:induction false} AnyRoundTrip(any: seq<Text>, tail: seq<byte>, sofar: Parts)
    requires |AnyBytes(any)| < TWO_32
    ensures ReadParts(AnyBytes(any) + tail, sofar) == ReadParts(tail, sofar.(any := sofar.any + any))
    decreases |any|
  {
    hide Element, ReadElement;
    if any == [] {
      assert AnyBytes(any) + tail == tail && sofar.any + any == sofar.any;
    } else {
      var more := AnyBytes(any[1..]) + tail;
      assert AnyBytes(any) + tail == Element(SUBSTRING_ANY, any[0]) + more;
      ElementRoundTrip(SUBSTRING_ANY, any[0], more);
      AnyRoundTrip(any[1..], tail, sofar.(any := sofar.any + [any[0]]));
      assert sofar.any + any == sofar.any + [any[0]] + any[1..];
    }
  }

  lemma PartsRoundTrip(initial: Text, any: seq<Text>, final: Text)
    requires |PartsBytes(initial, any, final)| < TWO_32
    ensures ReadParts(PartsBytes(initial, any, final), Parts([], [], [])) == Some(Parts(initial, any, final))
  {
    hide Element, ReadElement;
    var last := OptionalPart(SUBSTRING_FINAL, final);
    var middle := AnyBytes(any) + last;
    assert PartsBytes(initial, any, final) == OptionalPart(SUBSTRING_INITIAL, initial) + middle;
    if initial != [] {
      ElementRoundTrip(SUBSTRING_INITIAL, initial, middle);
    } else {
      assert [] + middle == middle;
    }
    AnyRoundTrip(any, last, Parts(initial, [], []));
    assert [] + any == any;
    if final != [] {
      ElementRoundTrip(SUBSTRING_FINAL, final, []);
      assert last + [] == last;
    }
  }

  lemma LeafRoundTrip(node: Filter, tail: seq<byte>)
    requires (node.Equality? || node.Substring?) && Fits(node)
    ensures ReadNode(NodeBytes(node) + tail) == Some((node, tail))
  {
    hide Element, ReadElement, ReadTagged, ReadParts, PartsBytes, NodesBytes, ReadNodes;
    match node
    case Equality(attribute, value) =>
      TaggedRoundTrip(FILTER_EQUALITY, OctetString(attribute) + OctetString(value), tail);
      TaggedRoundTrip(BER_OCTET_STRING, attribute, OctetString(value));
      TaggedRoundTripEnd(BER_OCTET_STRING, value);
    case Substring(attribute, initial, any, final) =>
      var list := Element(BER_SEQUENCE, PartsBytes(initial, any, final));
      TaggedRoundTrip(FILTER_SUBSTRINGS, OctetString(attribute) + list, tail);
      TaggedRoundTrip(BER_OCTET_STRING, attribute, list);
      TaggedRoundTripEnd(BER_SEQUENCE, PartsBytes(initial, any, final));
      PartsRoundTrip(initial, any, final);
  }

  lemma {:induction false} NodeRoundTrip(node: Filter, tail: seq<byte>)
    requires WellFormed(node) && Fits(node)
    ensures ReadNode(NodeBytes(node) + tail) == Some((node, tail))
    decreases node, 1
  {
    hide Element, ReadElement, ReadTagged, ReadParts, PartsBytes, OctetString, ReadOctetString, NodesBytes, ReadNodes;
    var s := NodeBytes(node) + tail;
    match node
    case And(children) =>
      TaggedRoundTrip(FILTER_AND, NodesBytes(children), tail);
      NodesRoundTrip(children);
    case Or(children) =>
      TaggedRoundTrip(FILTER_OR, NodesBytes(children), tail);
      NodesRoundTrip(children);
    case Not(children) =>
      var child := NodeBytes(children[0]);
      TaggedRoundTrip(FILTER_NOT, child, tail);
      NodeRoundTrip(children[0], []);
      assert child + [] == child && children == [children[0]];
    case Present(attribute) =>
      TaggedRoundTrip(FILTER_PRESENT, attribute, tail);
    case _ => LeafRoundTrip(node, tail);
  }

  lemma {:induction false} NodesRoundTrip(nodes: seq<Filter>)
    requires forall c | c in nodes :: WellFormed(c) && Fits(c)
    ensures ReadNodes(NodesBytes(nodes)) == Some(nodes)
    decreases nodes, 0
  {
    hide NodeBytes, ReadNode, WellFormed, Fits;
    if nodes != [] {
      NodeRoundTrip(nodes[0], NodesBytes(nodes[1..]));
      NodesRoundTrip(nodes[1..]);
      assert nodes == [nodes[0]] + nodes[1..];
    }
  }

  // ---------- everything the reader accepts is canonical after one trip ----------

  lemma {:induction false} AnyBytesAppend(any: seq<Text>, part: Text)
    ensures AnyBytes(any + [part]) == AnyBytes(any) + Element(SUBSTRING_ANY, part)
  {
    if any == [] {
      assert any + [part] == [part];
      assert AnyBytes([part][1..]) == [];
    } else {
      assert (any + [part])[1..] == any[1..] + [part];
      AnyBytesAppend(any[1..], part);
    }
  }

  lemma {:induction false} ReadPartsNoLonger(s: seq<byte>, sofar: Parts)
    requires ReadParts(s, sofar).Some?
    ensures var p := ReadParts(s, sofar).value;
            |PartsBytes(p.initial, p.any, p.final)| <= |PartsBytes(sofar.initial, sofar.any, sofar.final)| + |s|
    decreases |s|
  {
    if s != [] {
      var (e, rest) := ReadElement(s).value;
      AnyBytesAppend(sofar.any, e.body);
      var next :=
        if e.tag == SUBSTRING_INITIAL then sofar.(initial := e.body)
        else if e.tag == SUBSTRING_ANY then sofar.(any := sofar.any + [e.body])
        else if e.tag == SUBSTRING_FINAL then sofar.(final := e.body)
        else sofar;
      ReadPartsNoLonger(rest, next);
    }
  }

  lemma {:induction false} ReadNodeNoLonger(s: seq<byte>)
    requires ReadNode(s).Some?
    ensures var (node, rest) := ReadNode(s).value;
            WellFormed(node) && Fits(node) && |NodeBytes(node)| + |rest| <= |s|
    decreases |s|, 0
  {
    var tag := s[0];
    var (body, rest) := ReadTagged(tag, s).value;
    if tag == FILTER_AND || tag == FILTER_OR {
      ReadNodesNoLonger(body);
      LengthMonotone(|NodesBytes(ReadNodes(body).value)|, |body|);
    } else if tag == FILTER_NOT {
      ReadNodeNoLonger(body);
      LengthMonotone(|NodeBytes(ReadNode(body).value.0)|, |body|);
    } else if tag == FILTER_EQUALITY {
      var (attribute, more) := ReadOctetString(body).value;
      var (value, _) := ReadOctetString(more).value;
      LengthMonotone(|OctetString(attribute) + OctetString(value)|, |body|);
    } else if tag == FILTER_SUBSTRINGS {
      var (attribute, more) := ReadOctetString(body).value;
      var (list, _) := ReadTagged(BER_SEQUENCE, more).value;
      ReadPartsNoLonger(list, Parts([], [], []));
      var p := ReadParts(list, Parts([], [], [])).value;
      LengthMonotone(|PartsBytes(p.initial, p.any, p.final)|, |list|);
      var inner := OctetString(attribute) + Element(BER_SEQUENCE, PartsBytes(p.initial, p.any, p.final));
      LengthMonotone(|inner|, |body|);
    }
  }

  lemma {:induction false} ReadNodesNoLonger(s: seq<byte>)
    requires ReadNodes(s).Some?
    ensures var nodes := ReadNodes(s).value;
            (forall c | c in nodes :: WellFormed(c) && Fits(c)) && |NodesBytes(nodes)| <= |s|
    decreases |s|, 1
  {
    if s != [] {
      ReadNodeNoLonger(s);
      ReadNodesNoLonger(ReadNode(s).value.1);
    }
  }

  /** A shorter body never needs a longer length field. */
  lemma LengthMonotone(m: nat, n: nat)
    requires m <= n < TWO_32
    ensures |LengthBytes(m)| <= |LengthBytes(n)|
  {
    if m >= 128 {
      var k := |BigEndian(n)|;
      BigEndianWidth(n, k);
      BigEndianWidth(m, k);
    }
  }

  /** Any accepted octets re-encode to no more octets, which decode to the identical tree
      and therefore match exactly the same entries. */
  lemma AcceptedFilterIsStable(s: seq<byte>, tail: seq<byte>)
    requires ReadNode(s).Some?
    ensures var (node, rest) := ReadNode(s).value;
            && |NodeBytes(node)| <= |s| - |rest|
            && ReadNode(NodeBytes(node) + tail) == Some((node, tail))
  {
    ReadNodeNoLonger(s);
    NodeRoundTrip(ReadNode(s).value.0, tail);
  }
}
