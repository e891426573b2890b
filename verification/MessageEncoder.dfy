/** Messages written field by field through BER writers. */
module MessageEncoder {
  import opened Octets
  import opened Entries
  import opened Ber
  import opened BerStream
  import opened Filters
  import opened FilterCodec
  import opened FilterStream
  import opened Messages

  // ---------- list encoders, one element more ----------

  lemma {:induction false} OctetStringsLast(values: seq<Text>, i: nat)
    requires i < |values|
    ensures OctetStrings(values[..i + 1]) == OctetStrings(values[..i]) + OctetString(values[i])
    decreases i
  {
    hide OctetString;
    assert values[..i + 1][1..] == values[1..][..i];
    if i == 0 {
      assert OctetStrings(values[..1]) == OctetString(values[0]) + OctetStrings(values[..1][1..]);
    } else {
      OctetStringsLast(values[1..], i - 1);
      assert values[..i][1..] == values[1..][..i - 1];
    }
  }

  function AttributeElement(a: PartialAttribute): seq<byte> {
    Element(BER_SEQUENCE, AttributeBody(a.attribute, a.values))
  }

  lemma {:induction false} AttributesLast(list: seq<PartialAttribute>, i: nat)
    requires i < |list|
    ensures AttributesBytes(list[..i + 1]) == AttributesBytes(list[..i]) + AttributeElement(list[i])
    decreases i
  {
    hide Element, AttributeBody;
    assert list[..i + 1][1..] == list[1..][..i];
    if i == 0 {
      assert AttributesBytes(list[..1]) == AttributeElement(list[0]) + AttributesBytes(list[..1][1..]);
    } else {
      AttributesLast(list[1..], i - 1);
      assert list[..i][1..] == list[1..][..i - 1];
    }
  }

  lemma {:induction false} ChangesLast(list: seq<AttributeModification>, i: nat)
    requires i < |list|
    ensures ChangesBytes(list[..i + 1]) == ChangesBytes(list[..i]) + Element(BER_SEQUENCE, ChangeBody(list[i]))
    decreases i
  {
    hide Element, ChangeBody;
    assert list[..i + 1][1..] == list[1..][..i];
    if i == 0 {
      assert ChangesBytes(list[..1]) == Element(BER_SEQUENCE, ChangeBody(list[0])) + ChangesBytes(list[..1][1..]);
    } else {
      ChangesLast(list[1..], i - 1);
      assert list[..i][1..] == list[1..][..i - 1];
    }
  }

  lemma {:induction false} ControlsLast(list: seq<LdapControl>, i: nat)
    requires i < |list|
    ensures ControlsBytes(list[..i + 1]) == ControlsBytes(list[..i]) + Element(BER_SEQUENCE, ControlBody(list[i]))
    decreases i
  {
    hide Element, ControlBody;
    assert list[..i + 1][1..] == list[1..][..i];
    if i == 0 {
      assert ControlsBytes(list[..1]) == Element(BER_SEQUENCE, ControlBody(list[0])) + ControlsBytes(list[..1][1..]);
    } else {
      ControlsLast(list[1..], i - 1);
      assert list[..i][1..] == list[1..][..i - 1];
    }
  }

  lemma EmptyLists()
    ensures OctetStrings([]) == [] && AttributesBytes([]) == [] && ChangesBytes([]) == [] && ControlsBytes([]) == []
  {
  }

  // ---------- encoding ----------

  method EncodeOctetStrings(values: seq<Text>) returns (w: BerWriter)
    ensures fresh(w) && w.bytes == OctetStrings(values)
  {
    hide OctetString, OctetStrings;
    w := new BerWriter();
    EmptyLists();
    assert values[..0] == [];
    var i := 0;
    while i < |values|
      invariant 0 <= i <= |values| && fresh(w) && w.bytes == OctetStrings(values[..i])
    {
      OctetStringsLast(values, i);
      w.WriteOctetString(values[i]);
      i := i + 1;
    }
    assert values[..|values|] == values;
  }

  method EncodeAttribute(attribute: Text, values: seq<Text>) returns (partial: BerWriter)
    ensures fresh(partial) && partial.bytes == AttributeBody(attribute, values)
  {
    hide OctetString, OctetStrings, Element;
    var list := EncodeOctetStrings(values);
    partial := new BerWriter();
    partial.WriteOctetString(attribute);
    partial.WriteElement(BER_SET, list.bytes);
    assert partial.bytes == [] + OctetString(attribute) + Element(BER_SET, OctetStrings(values));
  }

  method EncodeAttributes(list: seq<PartialAttribute>) returns (w: BerWriter)
    ensures fresh(w) && w.bytes == AttributesBytes(list)
  {
    hide AttributesBytes, AttributeBody, Element;
    w := new BerWriter();
    EmptyLists();
    assert list[..0] == [];
    var i := 0;
    while i < |list|
      invariant 0 <= i <= |list| && fresh(w) && w.bytes == AttributesBytes(list[..i])
    {
      AttributesLast(list, i);
      var partial := EncodeAttribute(list[i].attribute, list[i].values);
      w.WriteElement(BER_SEQUENCE, partial.bytes);
      i := i + 1;
    }
    assert list[..|list|] == list;
  }

  method EncodeChanges(list: seq<AttributeModification>) returns (w: BerWriter)
    ensures fresh(w) && w.bytes == ChangesBytes(list)
  {
    hide ChangesBytes, AttributeBody, Element, Enumerated;
    w := new BerWriter();
    EmptyLists();
    assert list[..0] == [];
    var i := 0;
    while i < |list|
      invariant 0 <= i <= |list| && fresh(w) && w.bytes == ChangesBytes(list[..i])
    {
      ChangesLast(list, i);
      var partial := EncodeAttribute(list[i].attribute, list[i].values);
      var item := new BerWriter();
      item.WriteEnumerated(list[i].op);
      item.WriteElement(BER_SEQUENCE, partial.bytes);
      assert item.bytes == ChangeBody(list[i]);
      w.WriteElement(BER_SEQUENCE, item.bytes);
      i := i + 1;
    }
    assert list[..|list|] == list;
  }

  method EncodeControl(control: LdapControl) returns (item: BerWriter)
    ensures fresh(item) && item.bytes == ControlBody(control)
  {
    hide Element, Boolean, OctetString;
    item := new BerWriter();
    item.WriteOctetString(control.oid);
    if control.critical {
      item.WriteBoolean(true);
    }
    if control.value != [] {
      item.WriteElement(BER_OCTET_STRING, control.value);
    }
  }

  method EncodeControls(list: seq<LdapControl>) returns (w: BerWriter)
    ensures fresh(w) && w.bytes == ControlsBytes(list)
  {
    hide ControlsBytes, ControlBody, Element;
    w := new BerWriter();
    EmptyLists();
    assert list[..0] == [];
    var i := 0;
    while i < |list|
      invariant 0 <= i <= |list| && fresh(w) && w.bytes == ControlsBytes(list[..i])
    {
      ControlsLast(list, i);
      var item := EncodeControl(list[i]);
      w.WriteElement(BER_SEQUENCE, item.bytes);
      i := i + 1;
    }
    assert list[..|list|] == list;
  }

  method EncodeBind(bind: BindRequestData) returns (inner: BerWriter)
    ensures fresh(inner) && inner.bytes == BindBody(bind)
  {
    hide Element, Integer, OctetString;
    inner := new BerWriter();
    inner.WriteInteger(bind.version);
    inner.WriteOctetString(bind.dn);
    if bind.simple {
      inner.WriteElement(TAG_CONTEXT_0, bind.password);
    } else {
      var sasl := new BerWriter();
      sasl.WriteOctetString(bind.mechanism);
      if bind.credentials != [] {
        sasl.WriteElement(BER_OCTET_STRING, bind.credentials);
      }
      assert sasl.bytes == OctetString(bind.mechanism) + Optional(BER_OCTET_STRING, bind.credentials);
      inner.WriteElement(TAG_SASL_AUTH, sasl.bytes);
    }
  }

  method EncodeResult(result: LdapResult) returns (w: BerWriter)
    ensures fresh(w) && w.bytes == ResultBody(result, [])
  {
    hide Element, Enumerated, OctetString;
    w := new BerWriter();
    w.WriteEnumerated(result.code);
    w.WriteOctetString(result.matchedDn);
    w.WriteOctetString(result.diagnostic);
  }

  lemma ResultBodyExtra(result: LdapResult, extra: seq<byte>)
    ensures ResultBody(result, []) + extra == ResultBody(result, extra)
  {
    hide Enumerated, OctetString;
  }

  method EncodeBindResponse(result: LdapResult) returns (inner: BerWriter)
    ensures fresh(inner) && inner.bytes == ResultBody(result, Optional(TAG_SERVER_SASL_CREDS, result.saslCreds))
  {
    hide Element, ResultBody;
    inner := EncodeResult(result);
    ResultBodyExtra(result, Optional(TAG_SERVER_SASL_CREDS, result.saslCreds));
    if result.saslCreds != [] {
      inner.WriteElement(TAG_SERVER_SASL_CREDS, result.saslCreds);
    } else {
      assert inner.bytes + [] == inner.bytes;
    }
  }

  method EncodeExtendedResponse(result: LdapResult) returns (inner: BerWriter)
    ensures fresh(inner) && inner.bytes == ResultBody(result, ExtendedExtra(result))
  {
    hide Element, ResultBody;
    inner := EncodeResult(result);
    ghost var plain := inner.bytes;
    ResultBodyExtra(result, ExtendedExtra(result));
    if result.oid != [] || result.value != [] {
      if result.oid != [] {
        inner.WriteElement(TAG_CONTEXT_10, result.oid);
      }
      inner.WriteElement(TAG_CONTEXT_11, result.value);
      assert inner.bytes == plain + (Optional(TAG_CONTEXT_10, result.oid) + Element(TAG_CONTEXT_11, result.value));
    } else {
      assert plain + [] == plain;
    }
  }

  method EncodeSearch(search: SearchRequestData) returns (inner: BerWriter)
    ensures fresh(inner) && inner.bytes == SearchBody(search)
  {
    hide Element, Integer, Enumerated, Boolean, OctetString, FilterBytes, NodeBytes, OctetStrings;
    inner := new BerWriter();
    inner.WriteOctetString(search.baseDn);
    inner.WriteEnumerated(search.scope);
    inner.WriteEnumerated(0);
    inner.WriteInteger(search.sizeLimit);
    inner.WriteInteger(search.timeLimit);
    inner.WriteBoolean(search.typesOnly);
    EncodeFilter(inner, search.filter);
    var attrs := EncodeOctetStrings(search.attributes);
    inner.WriteElement(BER_SEQUENCE, attrs.bytes);
    Associate(OctetString(search.baseDn), Enumerated(search.scope), Enumerated(0), Integer(search.sizeLimit),
              Integer(search.timeLimit), Boolean(search.typesOnly), FilterBytes(search.filter),
              Element(BER_SEQUENCE, OctetStrings(search.attributes)));
  }

  lemma Associate(a: seq<byte>, b: seq<byte>, c: seq<byte>, d: seq<byte>, e: seq<byte>, f: seq<byte>, g: seq<byte>,
                  h: seq<byte>)
    ensures [] + a + b + c + d + e + f + g + h == a + (b + (c + (d + (e + (f + (g + h))))))
  {
    assert f + (g + h) == f + g + h;
    assert d + (e + (f + g + h)) == d + e + f + g + h;
    assert b + (c + (d + e + f + g + h)) == b + c + d + e + f + g + h;
  }

  method EncodeFilter(writer: BerWriter, filter: SearchFilter)
    modifies writer
    ensures writer.bytes == old(writer.bytes) + FilterBytes(filter)
  {
    hide NodeBytes;
    EncodeNode(writer, if filter.valid then filter.root else Present(OBJECT_CLASS));
  }

  method EncodeEntry(entry: EntryData) returns (inner: BerWriter)
    ensures fresh(inner) && inner.bytes == EntryBody(entry)
  {
    hide Element, OctetString, AttributesBytes;
    var attrs := EncodeAttributes(entry.attributes);
    inner := new BerWriter();
    inner.WriteOctetString(entry.dn);
    inner.WriteElement(BER_SEQUENCE, attrs.bytes);
    assert inner.bytes == [] + OctetString(entry.dn) + Element(BER_SEQUENCE, AttributesBytes(entry.attributes));
  }

  method EncodeModify(m: ModifyRequestData) returns (inner: BerWriter)
    ensures fresh(inner) && inner.bytes == ModifyBody(m)
  {
    hide Element, OctetString, ChangesBytes;
    var changes := EncodeChanges(m.changes);
    inner := new BerWriter();
    inner.WriteOctetString(m.dn);
    inner.WriteElement(BER_SEQUENCE, changes.bytes);
    assert inner.bytes == [] + OctetString(m.dn) + Element(BER_SEQUENCE, ChangesBytes(m.changes));
  }

  method EncodeModifyDn(m: ModifyDnRequestData) returns (inner: BerWriter)
    ensures fresh(inner) && inner.bytes == ModifyDnBody(m)
  {
    hide Element, OctetString, Boolean;
    inner := new BerWriter();
    inner.WriteOctetString(m.dn);
    inner.WriteOctetString(m.newRdn);
    inner.WriteBoolean(m.deleteOldRdn);
    if m.newSuperior != [] {
      inner.WriteElement(TAG_CONTEXT_0, m.newSuperior);
    }
  }

  method EncodeCompare(compare: CompareRequestData) returns (inner: BerWriter)
    ensures fresh(inner) && inner.bytes == CompareBody(compare)
  {
    hide Element, OctetString;
    var ava := new BerWriter();
    ava.WriteOctetString(compare.attribute);
    ava.WriteOctetString(compare.value);
    assert ava.bytes == OctetString(compare.attribute) + OctetString(compare.value);
    inner := new BerWriter();
    inner.WriteOctetString(compare.dn);
    inner.WriteElement(BER_SEQUENCE, ava.bytes);
    assert inner.bytes == [] + OctetString(compare.dn) + Element(BER_SEQUENCE, ava.bytes);
  }

  method EncodeExtended(oid: Text, value: Text) returns (inner: BerWriter)
    ensures fresh(inner) && inner.bytes == ExtendedBody(oid, value)
  {
    hide Element;
    inner := new BerWriter();
    inner.WriteElement(TAG_CONTEXT_0, oid);
    if value != [] {
      inner.WriteElement(TAG_CONTEXT_1, value);
    }
  }

  /** The contents of the operation's element. */
  method EncodeOp(op: ProtocolOp) returns (inner: BerWriter)
    ensures fresh(inner) && inner.bytes == OpBody(op)
  {
    hide BindBody, ResultBody, SearchBody, EntryBody, ModifyBody, ModifyDnBody, CompareBody, ExtendedBody, Optional,
         ExtendedExtra;
    match op {
      case BindRequest(bind) => inner := EncodeBind(bind);
      case BindResponse(result) => inner := EncodeBindResponse(result);
      case UnbindRequest => inner := new BerWriter();
      case SearchRequest(search) => inner := EncodeSearch(search);
      case SearchResultEntry(entry) => inner := EncodeEntry(entry);
      case ModifyRequest(m) => inner := EncodeModify(m);
      case AddRequest(add) => inner := EncodeEntry(add);
      case DelRequest(dn) =>
        inner := new BerWriter();
        inner.WriteBytes(dn);
      case ModifyDnRequest(m) => inner := EncodeModifyDn(m);
      case CompareRequest(compare) => inner := EncodeCompare(compare);
      case ExtendedRequest(oid, value) => inner := EncodeExtended(oid, value);
      case ExtendedResponse(result) => inner := EncodeExtendedResponse(result);
      case _ => inner := EncodeResult(op.result);
    }
  }

  /** `encodeLdapMessage`. */
  method EncodeLdapMessage(m: LdapMessage) returns (wire: seq<byte>)
    ensures wire == MessageBytes(m)
  {
    hide Element, Integer, OpBody, OpTag, ControlsBytes;
    var op := EncodeOp(m.op);
    var body := new BerWriter();
    body.WriteInteger(m.id);
    body.WriteElement(OpTag(m.op), op.bytes);
    if m.controls != [] {
      var controls := EncodeControls(m.controls);
      body.WriteElement(TAG_CONTROLS, controls.bytes);
    }
    assert body.bytes == MessageBody(m);
    var envelope := new BerWriter();
    envelope.WriteElement(BER_SEQUENCE, body.bytes);
    return envelope.bytes;
  }
}
