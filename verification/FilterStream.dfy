/** Filters written to a BER writer and read from a BER reader, node by node. */
module FilterStream {
  import opened Octets
  import opened Ber
  import opened BerStream
  import opened Filters
  import opened FilterCodec

  // ---------- writing ----------

  lemma {:induction false} NodesBytesLast(nodes: seq<Filter>, i: nat)
    requires i < |nodes|
    ensures NodesBytes(nodes[..i + 1]) == NodesBytes(nodes[..i]) + NodeBytes(nodes[i])
    decreases i
  {
    hide NodeBytes;
    if i == 0 {
      assert nodes[..1][1..] == [] && nodes[..0] == [];
      assert NodesBytes(nodes[..1]) == NodeBytes(nodes[0]) + NodesBytes([]);
    } else {
      NodesBytesLast(nodes[1..], i - 1);
      assert nodes[..i + 1][1..] == nodes[1..][..i];
      assert nodes[..i][1..] == nodes[1..][..i - 1];
    }
  }

  lemma {:induction false} AnyBytesLast(any: seq<Text>, i: nat)
    requires i < |any|
    ensures AnyBytes(any[..i + 1]) == AnyBytes(any[..i]) + Element(SUBSTRING_ANY, any[i])
    decreases i
  {
    hide Element;
    if i == 0 {
      assert any[..1][1..] == [] && any[..0] == [];
      assert AnyBytes(any[..1]) == Element(SUBSTRING_ANY, any[0]) + AnyBytes([]);
    } else {
      AnyBytesLast(any[1..], i - 1);
      assert any[..i + 1][1..] == any[1..][..i];
      assert any[..i][1..] == any[1..][..i - 1];
    }
  }

  method EncodeParts(initial: Text, any: seq<Text>, final: Text) returns (parts: BerWriter)
    ensures fresh(parts) && parts.bytes == PartsBytes(initial, any, final)
  {
    hide Element, AnyBytes;
    parts := new BerWriter();
    if initial != [] {
      parts.WriteElement(SUBSTRING_INITIAL, initial);
    }
    var i := 0;
    ghost var head := OptionalPart(SUBSTRING_INITIAL, initial);
    assert any[..0] == [];
    NoAnyBytes();
    assert parts.bytes == head + AnyBytes(any[..0]);
    while i < |any|
      invariant 0 <= i <= |any| && fresh(parts)
      invariant parts.bytes == head + AnyBytes(any[..i])
    {
      parts.WriteElement(SUBSTRING_ANY, any[i]);
      AnyBytesLast(any, i);
      assert head + (AnyBytes(any[..i]) + Element(SUBSTRING_ANY, any[i]))
          == head + AnyBytes(any[..i]) + Element(SUBSTRING_ANY, any[i]);
      i := i + 1;
    }
    assert any[..|any|] == any;
    if final != [] {
      parts.WriteElement(SUBSTRING_FINAL, final);
    }
  }

  lemma NoAnyBytes()
    ensures AnyBytes([]) == []
  {
  }

  lemma NoNodesBytes()
    ensures NodesBytes([]) == []
  {
  }

  method EncodeNodes(nodes: seq<Filter>) returns (inner: BerWriter)
    ensures fresh(inner) && inner.bytes == NodesBytes(nodes)
    decreases nodes
  {
    hide NodeBytes, NodesBytes;
    inner := new BerWriter();
    var i := 0;
    NoNodesBytes();
    assert nodes[..0] == [];
    while i < |nodes|
      invariant 0 <= i <= |nodes| && fresh(inner)
      invariant inner.bytes == NodesBytes(nodes[..i])
    {
      EncodeNode(inner, nodes[i]);
      NodesBytesLast(nodes, i);
      i := i + 1;
    }
    assert nodes[..|nodes|] == nodes;
  }

  /** `encodeNode`: the node appended to what the writer already holds. */
  method EncodeNode(writer: BerWriter, node: Filter)
    modifies writer
    ensures writer.bytes == old(writer.bytes) + NodeBytes(node)
    decreases node
  {
    hide Element, NodesBytes, PartsBytes;
    match node {
      case And(children) =>
        var inner := EncodeNodes(children);
        writer.WriteElement(FILTER_AND, inner.bytes);
      case Or(children) =>
        var inner := EncodeNodes(children);
        writer.WriteElement(FILTER_OR, inner.bytes);
      case Not(children) =>
        var inner := new BerWriter();
        if children != [] {
          EncodeNode(inner, children[0]);
          assert inner.bytes == NodeBytes(children[0]);
        }
        writer.WriteElement(FILTER_NOT, inner.bytes);
      case Present(attribute) => writer.WriteElement(FILTER_PRESENT, attribute);
      case Equality(attribute, value) =>
        var inner := new BerWriter();
        inner.WriteOctetString(attribute);
        inner.WriteOctetString(value);
        assert inner.bytes == OctetString(attribute) + OctetString(value);
        writer.WriteElement(FILTER_EQUALITY, inner.bytes);
      case Substring(attribute, initial, any, final) =>
        var inner := new BerWriter();
        inner.WriteOctetString(attribute);
        var parts := EncodeParts(initial, any, final);
        inner.WriteElement(BER_SEQUENCE, parts.bytes);
        assert inner.bytes == OctetString(attribute) + Element(BER_SEQUENCE, PartsBytes(initial, any, final));
        writer.WriteElement(FILTER_SUBSTRINGS, inner.bytes);
      case True => writer.WriteElement(FILTER_PRESENT, OBJECT_CLASS);
      case False =>
        var inner := new BerWriter();
        inner.WriteElement(FILTER_PRESENT, OBJECT_CLASS);
        assert inner.bytes == Element(FILTER_PRESENT, OBJECT_CLASS);
        writer.WriteElement(FILTER_NOT, inner.bytes);
    }
  }

  // ---------- reading ----------

  /** What a list reader returns once `done` has been read. */
  ghost function After<T>(done: seq<T>, more: Option<seq<T>>): Option<seq<T>> {
    if more.None? then None else Some(done + more.value)
  }

  lemma AfterOneMore<T>(done: seq<T>, item: T, more: Option<seq<T>>)
    ensures After(done, After([item], more)) == After(done + [item], more)
  {
    if more.Some? {
      assert done + ([item] + more.value) == done + [item] + more.value;
    }
  }

  lemma AfterAll<T>(done: seq<T>)
    ensures After(done, Some([])) == Some(done)
  {
    assert done + [] == done;
  }

  lemma AfterNothing<T>(all: Option<seq<T>>)
    ensures After([], all) == all
  {
    if all.Some? {
      assert [] + all.value == all.value;
    }
  }

  lemma NodesStep(s: seq<byte>)
    ensures s == [] ==> ReadNodes(s) == Some([])
    ensures s != [] && ReadNode(s).None? ==> ReadNodes(s) == None
    ensures s != [] && ReadNode(s).Some? ==>
              ReadNodes(s) == After([ReadNode(s).value.0], ReadNodes(ReadNode(s).value.1))
  {
    hide ReadNode;
  }

  lemma PartsStep(s: seq<byte>, sofar: Parts)
    requires s != []
    ensures IsPart(s[0]) ==>
              var read := ReadTagged(s[0], s);
              ReadParts(s, sofar)
                == if read.None? then None else ReadParts(read.value.1, PartAdded(sofar, s[0], read.value.0))
    ensures !IsPart(s[0]) ==>
              var rest := Skip(s);
              ReadParts(s, sofar) == if rest.None? then None else ReadParts(rest.value, sofar)
  {
    hide ReadElement;
  }

  predicate IsPart(tag: byte) {
    tag == SUBSTRING_INITIAL || tag == SUBSTRING_ANY || tag == SUBSTRING_FINAL
  }

  function PartAdded(sofar: Parts, tag: byte, body: Text): Parts {
    if tag == SUBSTRING_INITIAL then sofar.(initial := body)
    else if tag == SUBSTRING_ANY then sofar.(any := sofar.any + [body])
    else sofar.(final := body)
  }

  /** The component loop of a substrings filter. */
  method DecodeParts(reader: BerReader) returns (r: bool, parts: Parts)
    requires reader.Valid() && reader.ok
    modifies reader
    ensures reader.Valid()
    ensures ReadParts(old(reader.Rest()), Parts([], [], [])) == if r then Some(parts) else None
  {
    hide ReadTagged, Skip, ReadParts, PartAdded;
    ghost var start := reader.Rest();
    parts := Parts([], [], []);
    var done := reader.AtEnd();
    while !done
      invariant reader.Valid() && reader.ok && done == (reader.Rest() == [])
      invariant ReadParts(reader.Rest(), parts) == ReadParts(start, Parts([], [], []))
      decreases |reader.Rest()|
    {
      PartsStep(reader.Rest(), parts);
      var tag := reader.PeekTag();
      if IsPart(tag) {
        var component;
        r, component := reader.NextTagged(tag);
        if !r {
          return;
        }
        parts := PartAdded(parts, tag, component);
      } else {
        r := reader.SkipElement();
        if !r {
          return;
        }
      }
      done := reader.AtEnd();
    }
    NoParts(parts);
    return true, parts;
  }

  lemma NoParts(sofar: Parts)
    ensures ReadParts([], sofar) == Some(sofar)
  {
  }

  method DecodeNodes(reader: BerReader) returns (r: bool, nodes: seq<Filter>)
    requires reader.Valid() && reader.ok
    modifies reader
    ensures reader.Valid()
    ensures ReadNodes(old(reader.Rest())) == if r then Some(nodes) else None
    decreases |reader.Rest()|, 1
  {
    hide ReadNode, ReadNodes, After;
    ghost var start := reader.Rest();
    nodes := [];
    var done := reader.AtEnd();
    AfterNothing(ReadNodes(start));
    while !done
      invariant reader.Valid() && reader.ok && done == (reader.Rest() == []) && |reader.Rest()| <= |start|
      invariant After(nodes, ReadNodes(reader.Rest())) == ReadNodes(start)
      decreases |reader.Rest()|
    {
      ghost var s := reader.Rest();
      NodesStep(s);
      var child;
      r, child := DecodeNode(reader);
      if !r {
        AfterFailure(nodes);
        return;
      }
      AfterOneMore(nodes, child, ReadNodes(reader.Rest()));
      nodes := nodes + [child];
      done := reader.AtEnd();
    }
    NodesStep([]);
    AfterAll(nodes);
    return true, nodes;
  }

  lemma AfterFailure<T>(done: seq<T>)
    ensures After(done, None) == None
  {
  }

  /** `decodeNode`: what the reader accepts and how far it advances are exactly `ReadNode`'s. */
  method DecodeNode(reader: BerReader) returns (r: bool, node: Filter)
    requires reader.Valid() && reader.ok
    modifies reader
    ensures reader.Valid() && (r ==> reader.ok)
    ensures ReadNode(old(reader.Rest())) == if r then Some((node, reader.Rest())) else None
    decreases |reader.Rest()|, 0
  {
    hide ReadTagged, ReadNodes, ReadParts;
    node := True;
    var tag := reader.PeekTag();
    if tag == FILTER_AND || tag == FILTER_OR {
      var inner, children;
      r, inner := reader.NextConstructed(tag);
      if !r {
        return;
      }
      r, children := DecodeNodes(inner);
      node := if tag == FILTER_AND then And(children) else Or(children);
    } else if tag == FILTER_NOT {
      var inner, child;
      r, inner := reader.NextConstructed(tag);
      if !r {
        return;
      }
      r, child := DecodeNode(inner);
      node := Not([child]);
    } else if tag == FILTER_PRESENT {
      var attribute;
      r, attribute := reader.NextTagged(FILTER_PRESENT);
      node := Present(attribute);
    } else if tag == FILTER_EQUALITY {
      var inner, attribute, value;
      r, inner := reader.NextConstructed(tag);
      if !r {
        return;
      }
      r, attribute := inner.NextOctetString();
      if !r {
        return;
      }
      r, value := inner.NextOctetString();
      node := Equality(attribute, value);
    } else if tag == FILTER_SUBSTRINGS {
      r, node := DecodeSubstrings(reader);
    } else {
      r := false;
    }
  }

  method DecodeSubstrings(reader: BerReader) returns (r: bool, node: Filter)
    requires reader.Valid() && reader.ok && reader.Rest() != [] && reader.Rest()[0] == FILTER_SUBSTRINGS
    modifies reader
    ensures reader.Valid() && (r ==> reader.ok)
    ensures ReadNode(old(reader.Rest())) == if r then Some((node, reader.Rest())) else None
  {
    hide ReadTagged, ReadNodes, ReadParts;
    node := True;
    var inner, attribute, list, parts;
    r, inner := reader.NextConstructed(FILTER_SUBSTRINGS);
    if !r {
      return;
    }
    r, attribute := inner.NextOctetString();
    if !r {
      return;
    }
    r, list := inner.NextConstructed(BER_SEQUENCE);
    if !r {
      return;
    }
    r, parts := DecodeParts(list);
    node := Substring(attribute, parts.initial, parts.any, parts.final);
  }
}
