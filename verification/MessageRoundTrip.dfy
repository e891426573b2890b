/** Every canonical message reads back from its own octets, alone and in a stream of framed messages. */
module MessageRoundTrip {
  import opened Octets
  import opened Entries
  import opened Ber
  import opened FilterCodec
  import opened Messages

  // ---------- canonical messages ----------

  /** The enumerated values that survive a reader without sign extension. */
  predicate EnumSafe(v: int32) {
    v >= 0 || v < -0x80_0000
  }

  predicate CanonicalResult(r: LdapResult, creds: bool, extended: bool) {
    (creds || r.saslCreds == []) && (extended || (r.oid == [] && r.value == []))
  }

  /** A known operation whose unused fields hold their defaults and whose filter and enumerations are expressible. */
  predicate CanonicalOp(op: ProtocolOp) {
    match op
    case BindRequest(b) => if b.simple then b.mechanism == [] && b.credentials == [] else b.password == []
    case BindResponse(r) => CanonicalResult(r, true, false)
    case SearchRequest(s) => EnumSafe(s.scope) && s.filter.valid && WellFormed(s.filter.root)
    case ModifyRequest(m) => forall i :: 0 <= i < |m.changes| ==> EnumSafe(m.changes[i].op)
    case ExtendedResponse(r) => CanonicalResult(r, false, true)
    case SearchResultDone(r) => CanonicalResult(r, false, false)
    case ModifyResponse(r) => CanonicalResult(r, false, false)
    case AddResponse(r) => CanonicalResult(r, false, false)
    case DelResponse(r) => CanonicalResult(r, false, false)
    case ModifyDnResponse(r) => CanonicalResult(r, false, false)
    case CompareResponse(r) => CanonicalResult(r, false, false)
    case Unknown(_) => false
    case _ => true
  }

  predicate Canonical(m: LdapMessage) {
    CanonicalOp(m.op) && |MessageBody(m)| < TWO_32
  }

  // ---------- lists ----------

  lemma {:induction false} OctetStringsRoundTrip(values: seq<Text>)
    requires |OctetStrings(values)| < TWO_32
    ensures ReadOctetStrings(OctetStrings(values)) == Some(values)
  {
    hide Element, ReadElement, ReadTagged;
    if values != [] {
      TaggedRoundTrip(BER_OCTET_STRING, values[0], OctetStrings(values[1..]));
      OctetStringsRoundTrip(values[1..]);
      assert values == [values[0]] + values[1..];
    }
  }

  lemma AttributeBodyRoundTrip(a: PartialAttribute)
    requires |AttributeBody(a.attribute, a.values)| < TWO_32
    ensures ReadAttributeBody(AttributeBody(a.attribute, a.values)) == Some(a)
  {
    hide Element, ReadElement, ReadTagged, OctetStrings, ReadOctetStrings;
    TaggedRoundTrip(BER_OCTET_STRING, a.attribute, Element(BER_SET, OctetStrings(a.values)));
    TaggedRoundTripEnd(BER_SET, OctetStrings(a.values));
    OctetStringsRoundTrip(a.values);
  }

  lemma {:induction false} AttributesRoundTrip(attributes: seq<PartialAttribute>)
    requires |AttributesBytes(attributes)| < TWO_32
    ensures ReadAttributes(AttributesBytes(attributes)) == Some(attributes)
  {
    hide Element, ReadElement, ReadTagged, AttributeBody, ReadAttributeBody;
    if attributes != [] {
      var a := attributes[0];
      TaggedRoundTrip(BER_SEQUENCE, AttributeBody(a.attribute, a.values), AttributesBytes(attributes[1..]));
      AttributeBodyRoundTrip(a);
      AttributesRoundTrip(attributes[1..]);
      assert attributes == [a] + attributes[1..];
    }
  }

  lemma ChangeBodyRoundTrip(c: AttributeModification)
    requires |ChangeBody(c)| < TWO_32 && EnumSafe(c.op)
    ensures ReadChangeBody(ChangeBody(c)) == Some(c)
  {
    hide Element, ReadElement, ReadTagged, AttributeBody, ReadAttributeBody, Enumerated, ReadEnumerated;
    var body := AttributeBody(c.attribute, c.values);
    EnumeratedRoundTrip(c.op, Element(BER_SEQUENCE, body));
    TaggedRoundTripEnd(BER_SEQUENCE, body);
    AttributeBodyRoundTrip(PartialAttribute(c.attribute, c.values));
  }

  lemma {:induction false} ChangesRoundTrip(changes: seq<AttributeModification>)
    requires |ChangesBytes(changes)| < TWO_32
    requires forall i :: 0 <= i < |changes| ==> EnumSafe(changes[i].op)
    ensures ReadChanges(ChangesBytes(changes)) == Some(changes)
  {
    hide Element, ReadElement, ReadTagged, ChangeBody, ReadChangeBody;
    if changes != [] {
      TaggedRoundTrip(BER_SEQUENCE, ChangeBody(changes[0]), ChangesBytes(changes[1..]));
      ChangeBodyRoundTrip(changes[0]);
      ChangesRoundTrip(changes[1..]);
      assert changes == [changes[0]] + changes[1..];
    }
  }

  lemma ControlBodyRoundTrip(c: LdapControl)
    requires |ControlBody(c)| < TWO_32
    ensures ReadControlBody(ControlBody(c)) == Some(c)
  {
    hide Element, ReadElement, ReadTagged, ReadBoolean;
    var last := Optional(BER_OCTET_STRING, c.value);
    var middle := (if c.critical then Boolean(true) else []) + last;
    TaggedRoundTrip(BER_OCTET_STRING, c.oid, middle);
    if c.critical {
      BooleanRoundTrip(true, last);
    } else {
      assert middle == last;
    }
    if c.value != [] {
      TaggedRoundTripEnd(BER_OCTET_STRING, c.value);
    }
  }

  lemma {:induction false} ControlsRoundTrip(controls: seq<LdapControl>)
    requires |ControlsBytes(controls)| < TWO_32
    ensures ReadControls(ControlsBytes(controls)) == Some(controls)
  {
    hide Element, ReadElement, ReadTagged, ControlBody, ReadControlBody;
    if controls != [] {
      TaggedRoundTrip(BER_SEQUENCE, ControlBody(controls[0]), ControlsBytes(controls[1..]));
      ControlBodyRoundTrip(controls[0]);
      ControlsRoundTrip(controls[1..]);
      assert controls == [controls[0]] + controls[1..];
    }
  }

  // ---------- operations ----------

  lemma Int32Survives(v: int32)
    ensures ToInt32(v) == v
  {
  }

  lemma BindRoundTrip(b: BindRequestData)
    requires |BindBody(b)| < TWO_32 && CanonicalOp(BindRequest(b))
    ensures ReadBind(BindBody(b)) == Some(b)
  {
    hide Element, ReadElement, ReadTagged, Integer, ReadInteger;
    Int32Survives(b.version);
    var sasl := OctetString(b.mechanism) + Optional(BER_OCTET_STRING, b.credentials);
    var auth := if b.simple then Element(TAG_CONTEXT_0, b.password) else Element(TAG_SASL_AUTH, sasl);
    IntegerRoundTrip(b.version, OctetString(b.dn) + auth);
    TaggedRoundTrip(BER_OCTET_STRING, b.dn, auth);
    if b.simple {
      TaggedRoundTripEnd(TAG_CONTEXT_0, b.password);
    } else {
      TaggedRoundTripEnd(TAG_SASL_AUTH, sasl);
      TaggedRoundTrip(BER_OCTET_STRING, b.mechanism, Optional(BER_OCTET_STRING, b.credentials));
      if b.credentials != [] {
        TaggedRoundTripEnd(BER_OCTET_STRING, b.credentials);
      }
    }
  }

  lemma ResultHeadRoundTrip(r: LdapResult, extra: seq<byte>)
    requires |ResultBody(r, extra)| < TWO_32
    ensures ReadResult(ResultBody(r, extra))
         == ReadResultTail(extra, LdapResult(r.code, r.matchedDn, r.diagnostic, [], [], []))
  {
    hide Element, ReadElement, ReadTagged, Enumerated, ReadEnumerated, ReadResultTail;
    EnumeratedRoundTrip(r.code, OctetString(r.matchedDn) + (OctetString(r.diagnostic) + extra));
    TaggedRoundTrip(BER_OCTET_STRING, r.matchedDn, OctetString(r.diagnostic) + extra);
    TaggedRoundTrip(BER_OCTET_STRING, r.diagnostic, extra);
  }

  lemma BindResponseRoundTrip(r: LdapResult)
    requires |ResultBody(r, Optional(TAG_SERVER_SASL_CREDS, r.saslCreds))| < TWO_32 && CanonicalResult(r, true, false)
    ensures ReadResult(ResultBody(r, Optional(TAG_SERVER_SASL_CREDS, r.saslCreds))) == Some(r)
  {
    hide Element, ReadElement, ReadResult;
    ResultHeadRoundTrip(r, Optional(TAG_SERVER_SASL_CREDS, r.saslCreds));
    if r.saslCreds != [] {
      var field := Element(TAG_SERVER_SASL_CREDS, r.saslCreds);
      ElementRoundTrip(TAG_SERVER_SASL_CREDS, r.saslCreds, []);
      assert field + [] == field;
    }
  }

  lemma PlainResultRoundTrip(r: LdapResult)
    requires |ResultBody(r, [])| < TWO_32 && CanonicalResult(r, false, false)
    ensures ReadResult(ResultBody(r, [])) == Some(r)
  {
    hide ReadResult, ResultBody;
    ResultHeadRoundTrip(r, []);
  }

  lemma ExtendedResponseRoundTrip(r: LdapResult)
    requires |ResultBody(r, ExtendedExtra(r))| < TWO_32 && CanonicalResult(r, false, true)
    ensures ReadResult(ResultBody(r, ExtendedExtra(r))) == Some(r)
  {
    hide Element, ReadElement, ReadResult;
    ResultHeadRoundTrip(r, ExtendedExtra(r));
    if r.oid != [] || r.value != [] {
      var last := Element(TAG_CONTEXT_11, r.value);
      ElementRoundTrip(TAG_CONTEXT_11, r.value, []);
      assert last + [] == last;
      if r.oid != [] {
        ElementRoundTrip(TAG_CONTEXT_10, r.oid, last);
      } else {
        assert [] + last == last;
      }
      var start := LdapResult(r.code, r.matchedDn, r.diagnostic, [], [], []);
      assert ReadResultTail([], r) == Some(r);
      assert ReadResultTail(last, start.(oid := r.oid)) == Some(r);
    }
  }

  lemma SearchRoundTrip(d: SearchRequestData)
    requires |SearchBody(d)| < TWO_32 && CanonicalOp(SearchRequest(d))
    ensures ReadSearch(SearchBody(d)) == Some(d)
  {
    hide Element, ReadElement, ReadTagged, Integer, ReadInteger, Enumerated, ReadEnumerated, Boolean, ReadBoolean;
    hide NodeBytes, ReadNode, OctetStrings, ReadOctetStrings;
    var s8 := Element(BER_SEQUENCE, OctetStrings(d.attributes));
    var s7 := FilterBytes(d.filter) + s8;
    var s6 := Boolean(d.typesOnly) + s7;
    var s5 := Integer(d.timeLimit) + s6;
    var s4 := Integer(d.sizeLimit) + s5;
    var s3 := Enumerated(0) + s4;
    TaggedRoundTrip(BER_OCTET_STRING, d.baseDn, Enumerated(d.scope) + s3);
    EnumeratedRoundTrip(d.scope, s3);
    EnumeratedRoundTrip(0, s4);
    IntegerRoundTrip(d.sizeLimit, s5);
    IntegerRoundTrip(d.timeLimit, s6);
    BooleanRoundTrip(d.typesOnly, s7);
    SmallNodeFits(d.filter.root);
    NodeRoundTrip(d.filter.root, s8);
    TaggedRoundTripEnd(BER_SEQUENCE, OctetStrings(d.attributes));
    OctetStringsRoundTrip(d.attributes);
    Int32Survives(d.sizeLimit);
    Int32Survives(d.timeLimit);
  }

  lemma EntryRoundTrip(d: EntryData)
    requires |EntryBody(d)| < TWO_32
    ensures ReadEntry(EntryBody(d)) == Some(d)
  {
    hide Element, ReadElement, ReadTagged, AttributesBytes, ReadAttributes;
    TaggedRoundTrip(BER_OCTET_STRING, d.dn, Element(BER_SEQUENCE, AttributesBytes(d.attributes)));
    TaggedRoundTripEnd(BER_SEQUENCE, AttributesBytes(d.attributes));
    AttributesRoundTrip(d.attributes);
  }

  lemma ModifyRoundTrip(d: ModifyRequestData)
    requires |ModifyBody(d)| < TWO_32 && CanonicalOp(ModifyRequest(d))
    ensures ReadModify(ModifyBody(d)) == Some(d)
  {
    hide Element, ReadElement, ReadTagged, ChangesBytes, ReadChanges;
    TaggedRoundTrip(BER_OCTET_STRING, d.dn, Element(BER_SEQUENCE, ChangesBytes(d.changes)));
    TaggedRoundTripEnd(BER_SEQUENCE, ChangesBytes(d.changes));
    ChangesRoundTrip(d.changes);
  }

  lemma ModifyDnRoundTrip(d: ModifyDnRequestData)
    requires |ModifyDnBody(d)| < TWO_32
    ensures ReadModifyDn(ModifyDnBody(d)) == Some(d)
  {
    hide Element, ReadElement, ReadTagged, Boolean, ReadBoolean;
    var last := Optional(TAG_CONTEXT_0, d.newSuperior);
    TaggedRoundTrip(BER_OCTET_STRING, d.dn, OctetString(d.newRdn) + (Boolean(d.deleteOldRdn) + last));
    TaggedRoundTrip(BER_OCTET_STRING, d.newRdn, Boolean(d.deleteOldRdn) + last);
    BooleanRoundTrip(d.deleteOldRdn, last);
    if d.newSuperior != [] {
      TaggedRoundTripEnd(TAG_CONTEXT_0, d.newSuperior);
    }
  }

  lemma CompareRoundTrip(d: CompareRequestData)
    requires |CompareBody(d)| < TWO_32
    ensures ReadCompare(CompareBody(d)) == Some(d)
  {
    hide Element, ReadElement, ReadTagged;
    var ava := OctetString(d.attribute) + OctetString(d.value);
    TaggedRoundTrip(BER_OCTET_STRING, d.dn, Element(BER_SEQUENCE, ava));
    TaggedRoundTripEnd(BER_SEQUENCE, ava);
    TaggedRoundTrip(BER_OCTET_STRING, d.attribute, OctetString(d.value));
    TaggedRoundTripEnd(BER_OCTET_STRING, d.value);
  }

  lemma ExtendedRoundTrip(oid: Text, value: Text)
    requires |ExtendedBody(oid, value)| < TWO_32
    ensures ReadExtended(ExtendedBody(oid, value)) == Some((oid, value))
  {
    hide Element, ReadElement, ReadTagged;
    TaggedRoundTrip(TAG_CONTEXT_0, oid, Optional(TAG_CONTEXT_1, value));
    if value != [] {
      TaggedRoundTripEnd(TAG_CONTEXT_1, value);
    }
  }

  lemma OpRoundTrip(op: ProtocolOp)
    requires CanonicalOp(op) && |OpBody(op)| < TWO_32
    ensures OpOf(Tlv(OpTag(op), OpBody(op))) == Some(op)
  {
    hide ReadBind, ReadResult, ReadSearch, ReadEntry, ReadModify, ReadModifyDn, ReadCompare, ReadExtended;
    hide BindBody, ResultBody, SearchBody, EntryBody, ModifyBody, ModifyDnBody, CompareBody, ExtendedBody;
    match op
    case BindRequest(b) => BindRoundTrip(b);
    case BindResponse(r) => BindResponseRoundTrip(r);
    case SearchRequest(d) => SearchRoundTrip(d);
    case SearchResultEntry(d) => EntryRoundTrip(d);
    case ModifyRequest(d) => ModifyRoundTrip(d);
    case AddRequest(d) => EntryRoundTrip(d);
    case ModifyDnRequest(d) => ModifyDnRoundTrip(d);
    case CompareRequest(d) => CompareRoundTrip(d);
    case ExtendedRequest(oid, value) => ExtendedRoundTrip(oid, value);
    case ExtendedResponse(r) => ExtendedResponseRoundTrip(r);
    case SearchResultDone(r) => PlainResultRoundTrip(r);
    case ModifyResponse(r) => PlainResultRoundTrip(r);
    case AddResponse(r) => PlainResultRoundTrip(r);
    case DelResponse(r) => PlainResultRoundTrip(r);
    case ModifyDnResponse(r) => PlainResultRoundTrip(r);
    case CompareResponse(r) => PlainResultRoundTrip(r);
    case _ =>
  }

  lemma MessageBodyRoundTrip(m: LdapMessage, tail: seq<byte>)
    requires Canonical(m)
    ensures ReadMessage(MessageBytes(m) + tail) == Some(m)
  {
    hide Element, ReadElement, ReadTagged, Integer, ReadInteger, OpBody, OpOf, ControlsBytes, ReadControls;
    var field := ControlsField(m.controls);
    var body := OpBody(m.op);
    var op := Element(OpTag(m.op), body);
    TaggedRoundTrip(BER_SEQUENCE, MessageBody(m), tail);
    IntegerRoundTrip(m.id, op + field);
    Int32Survives(m.id);
    ElementRoundTrip(OpTag(m.op), body, field);
    OpRoundTrip(m.op);
    if m.controls != [] {
      TaggedRoundTripEnd(TAG_CONTROLS, ControlsBytes(m.controls));
      ControlsRoundTrip(m.controls);
    }
  }

  // ---------- framing ----------

  /** `recvPdu`: one length-prefixed element off the stream, refused when empty streams, bad lengths or the size cap say so. */
  function RecvPdu(stream: seq<byte>, maxPduSize: nat): (r: Option<(seq<byte>, seq<byte>)>)
    ensures r.Some? ==> r.value.0 + r.value.1 == stream && |r.value.0| >= 2
  {
    var ((_, length), rest) :- ReadTagLength(stream);
    if maxPduSize == 0 || length > maxPduSize || |rest| < length then None
    else
      var n := |stream| - |rest| + length;
      Some((stream[..n], stream[n..]))
  }

  lemma FrameRoundTrip(m: LdapMessage, tail: seq<byte>, maxPduSize: nat)
    requires |MessageBody(m)| < TWO_32 && 0 < maxPduSize && |MessageBody(m)| <= maxPduSize
    ensures RecvPdu(MessageBytes(m) + tail, maxPduSize) == Some((MessageBytes(m), tail))
  {
    hide MessageBody, LengthBytes, ReadLength;
    var body := MessageBody(m);
    var stream := MessageBytes(m) + tail;
    assert stream[1..] == LengthBytes(|body|) + (body + tail);
    LengthRoundTrip(|body|, body + tail);
    assert |stream| - |body + tail| + |body| == |MessageBytes(m)|;
    assert stream[..|MessageBytes(m)|] == MessageBytes(m) && stream[|MessageBytes(m)|..] == tail;
  }

  /** The receiving loop: messages up to the first frame or decoding failure. */
  function ReceiveAll(stream: seq<byte>, maxPduSize: nat): seq<LdapMessage>
    decreases |stream|
  {
    match RecvPdu(stream, maxPduSize)
    case None => []
    case Some((pdu, rest)) =>
      match ReadMessage(pdu)
      case None => []
      case Some(m) => [m] + ReceiveAll(rest, maxPduSize)
  }

  function StreamBytes(ms: seq<LdapMessage>): seq<byte> {
    if ms == [] then [] else MessageBytes(ms[0]) + StreamBytes(ms[1..])
  }

  /** Concatenated canonical messages are received as exactly that list, whatever follows them. */
  lemma {:induction false} StreamRoundTrip(ms: seq<LdapMessage>, tail: seq<byte>, maxPduSize: nat)
    requires 0 < maxPduSize
    requires forall i :: 0 <= i < |ms| ==> Canonical(ms[i]) && |MessageBody(ms[i])| <= maxPduSize
    ensures ReceiveAll(StreamBytes(ms) + tail, maxPduSize) == ms + ReceiveAll(tail, maxPduSize)
    decreases |ms|
  {
    hide MessageBytes, MessageBody, ReadMessage, RecvPdu, CanonicalOp;
    if ms == [] {
      assert StreamBytes(ms) + tail == tail;
      assert ms + ReceiveAll(tail, maxPduSize) == ReceiveAll(tail, maxPduSize);
    } else {
      var m, more := ms[0], StreamBytes(ms[1..]) + tail;
      assert StreamBytes(ms) + tail == MessageBytes(m) + more;
      FrameRoundTrip(m, more, maxPduSize);
      MessageBodyRoundTrip(m, []);
      assert MessageBytes(m) + [] == MessageBytes(m);
      StreamRoundTrip(ms[1..], tail, maxPduSize);
      assert ms + ReceiveAll(tail, maxPduSize) == [m] + (ms[1..] + ReceiveAll(tail, maxPduSize));
    }
  }
}
