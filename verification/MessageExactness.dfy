/** Canonical is not just enough for a message to survive the wire: it is exactly what is needed. */
module MessageExactness {
  import opened Octets
  import opened Entries
  import opened Ber
  import opened FilterCodec
  import opened Messages
  import opened MessageRoundTrip

  /** An enumerated value always reads as some value, and as itself exactly when it is safe. */
  lemma EnumeratedReads(v: int32, rest: seq<byte>) returns (w: int32)
    ensures ReadEnumerated(Enumerated(v) + rest) == Some((w, rest)) && (w == v <==> EnumSafe(v))
  {
    hide IntegerBytes, ReadTagged, EnumeratedOf;
    var body := IntegerBytes(v);
    TaggedRoundTrip(BER_ENUMERATED, body, rest);
    w := EnumeratedOf(body);
    EnumeratedRoundTrip(v, rest);
  }

  lemma ChangeNeedsSafe(c: AttributeModification)
    requires |ChangeBody(c)| < TWO_32 && ReadChangeBody(ChangeBody(c)) == Some(c)
    ensures EnumSafe(c.op)
  {
    hide Element, ReadTagged, AttributeBody, ReadAttributeBody, Enumerated, ReadEnumerated;
    var w := EnumeratedReads(c.op, Element(BER_SEQUENCE, AttributeBody(c.attribute, c.values)));
  }

  lemma {:induction false} ChangesNeedSafe(changes: seq<AttributeModification>)
    requires |ChangesBytes(changes)| < TWO_32 && ReadChanges(ChangesBytes(changes)) == Some(changes)
    ensures forall i :: 0 <= i < |changes| ==> EnumSafe(changes[i].op)
    decreases |changes|
  {
    hide Element, ReadElement, ReadTagged, ChangeBody, ReadChangeBody, EnumSafe;
    if changes != [] {
      var head, rest := changes[0], changes[1..];
      TaggedRoundTrip(BER_SEQUENCE, ChangeBody(head), ChangesBytes(rest));
      var item, more := ReadChangeBody(ChangeBody(head)), ReadChanges(ChangesBytes(rest));
      assert [item.value] + more.value == changes;
      assert item.value == ([item.value] + more.value)[0] && more.value == ([item.value] + more.value)[1..];
      ChangeNeedsSafe(head);
      ChangesNeedSafe(rest);
      assert forall i :: 1 <= i < |changes| ==> changes[i] == rest[i - 1];
    }
  }

  lemma ModifyNeedsSafe(d: ModifyRequestData)
    requires |ModifyBody(d)| < TWO_32 && ReadModify(ModifyBody(d)) == Some(d)
    ensures CanonicalOp(ModifyRequest(d))
  {
    hide Element, ReadElement, ReadTagged, ChangesBytes, ReadChanges, EnumSafe;
    TaggedRoundTrip(BER_OCTET_STRING, d.dn, Element(BER_SEQUENCE, ChangesBytes(d.changes)));
    TaggedRoundTripEnd(BER_SEQUENCE, ChangesBytes(d.changes));
    ChangesNeedSafe(d.changes);
  }

  /** A decoded search request has a valid, well-formed filter, whatever was sent. */
  lemma DecodedFilter(s: seq<byte>)
    ensures var d := ReadSearch(s); d.Some? ==> d.value.filter.valid && WellFormed(d.value.filter.root)
  {
    hide ReadTagged, ReadOctetString, ReadInteger, ReadEnumerated, ReadBoolean, ReadNode, ReadOctetStrings, WellFormed;
    if ReadSearch(s).Some? {
      var (_, s1) := ReadOctetString(s).value;
      var (_, s2) := ReadEnumerated(s1).value;
      var (_, s3) := ReadEnumerated(s2).value;
      var (_, s4) := ReadInteger(s3).value;
      var (_, s5) := ReadInteger(s4).value;
      var (_, s6) := ReadBoolean(s5).value;
      ReadNodeNoLonger(s6);
    }
  }

  lemma SearchNeedsSafe(d: SearchRequestData)
    requires |SearchBody(d)| < TWO_32 && ReadSearch(SearchBody(d)) == Some(d)
    ensures CanonicalOp(SearchRequest(d))
  {
    hide Element, ReadTagged, Integer, ReadInteger, Enumerated, ReadEnumerated, Boolean, ReadBoolean, NodeBytes, ReadNode,
         OctetStrings, ReadOctetStrings, WellFormed, FilterBytes;
    DecodedFilter(SearchBody(d));
    var rest := Enumerated(0)
                + (Integer(d.sizeLimit)
                   + (Integer(d.timeLimit)
                      + (Boolean(d.typesOnly)
                         + (FilterBytes(d.filter) + Element(BER_SEQUENCE, OctetStrings(d.attributes))))));
    TaggedRoundTrip(BER_OCTET_STRING, d.baseDn, Enumerated(d.scope) + rest);
    var w := EnumeratedReads(d.scope, rest);
  }

  /** The bind request the octets stand for. */
  function CanonicalBind(b: BindRequestData): BindRequestData {
    if b.simple then b.(mechanism := [], credentials := []) else b.(password := [])
  }

  lemma BindNeedsDefaults(b: BindRequestData)
    requires |BindBody(b)| < TWO_32
    ensures ReadBind(BindBody(b)) == Some(CanonicalBind(b))
  {
    hide BindBody, ReadBind;
    SameBindBody(b);
    BindRoundTrip(CanonicalBind(b));
  }

  lemma SameBindBody(b: BindRequestData)
    ensures BindBody(CanonicalBind(b)) == BindBody(b)
  {
    hide Element, Integer;
  }

  lemma SameResultBody(r: LdapResult, s: LdapResult, extra: seq<byte>)
    requires r.code == s.code && r.matchedDn == s.matchedDn && r.diagnostic == s.diagnostic
    ensures ResultBody(r, extra) == ResultBody(s, extra)
  {
  }

  lemma BindResponseReads(r: LdapResult)
    requires |ResultBody(r, Optional(TAG_SERVER_SASL_CREDS, r.saslCreds))| < TWO_32
    ensures ReadResult(ResultBody(r, Optional(TAG_SERVER_SASL_CREDS, r.saslCreds))) == Some(r.(oid := [], value := []))
  {
    hide ResultBody, ReadResult, Optional;
    var s := r.(oid := [], value := []);
    SameResultBody(r, s, Optional(TAG_SERVER_SASL_CREDS, r.saslCreds));
    BindResponseRoundTrip(s);
  }

  lemma PlainResultReads(r: LdapResult)
    requires |ResultBody(r, [])| < TWO_32
    ensures ReadResult(ResultBody(r, [])) == Some(r.(saslCreds := [], oid := [], value := []))
  {
    hide ResultBody, ReadResult;
    var s := r.(saslCreds := [], oid := [], value := []);
    SameResultBody(r, s, []);
    PlainResultRoundTrip(s);
  }

  lemma ExtendedResponseReads(r: LdapResult)
    requires |ResultBody(r, ExtendedExtra(r))| < TWO_32
    ensures ReadResult(ResultBody(r, ExtendedExtra(r))) == Some(r.(saslCreds := []))
  {
    hide ResultBody, ReadResult;
    var s := r.(saslCreds := []);
    assert ExtendedExtra(s) == ExtendedExtra(r);
    SameResultBody(r, s, ExtendedExtra(r));
    ExtendedResponseRoundTrip(s);
  }

  lemma RequestNeedsCanonical(op: ProtocolOp)
    requires op.BindRequest? || op.SearchRequest? || op.ModifyRequest?
    requires |OpBody(op)| < TWO_32 && OpOf(Tlv(OpTag(op), OpBody(op))) == Some(op)
    ensures CanonicalOp(op)
  {
    hide ReadBind, ReadSearch, ReadModify, BindBody, SearchBody, ModifyBody, EnumSafe, WellFormed;
    match op
    case BindRequest(b) => BindNeedsDefaults(b);
    case SearchRequest(d) => SearchNeedsSafe(d);
    case ModifyRequest(d) => ModifyNeedsSafe(d);
  }

  lemma ResponseNeedsCanonical(op: ProtocolOp)
    requires IsResponseTag(OpTag(op))
    requires |OpBody(op)| < TWO_32 && OpOf(Tlv(OpTag(op), OpBody(op))) == Some(op)
    ensures CanonicalOp(op)
  {
    hide ReadResult, ResultBody, Optional, ExtendedExtra;
    if op.BindResponse? {
      BindResponseReads(op.result);
    } else if op.ExtendedResponse? {
      ExtendedResponseReads(op.result);
    } else {
      PlainResultReads(op.result);
    }
  }

  /** An operation is decoded from its own encoding exactly when it is canonical. */
  lemma OpSurvivesExactly(op: ProtocolOp)
    requires |OpBody(op)| < TWO_32
    ensures OpOf(Tlv(OpTag(op), OpBody(op))) == Some(op) <==> CanonicalOp(op)
  {
    hide OpBody, OpOf;
    if CanonicalOp(op) {
      OpRoundTrip(op);
    } else if OpOf(Tlv(OpTag(op), OpBody(op))) == Some(op) {
      if IsResponseTag(OpTag(op)) {
        ResponseNeedsCanonical(op);
      } else {
        RequestNeedsCanonical(op);
      }
    }
  }

  /** A message below 2^32 octets survives the wire exactly when its operation is canonical. */
  lemma MessageSurvivesExactly(m: LdapMessage, tail: seq<byte>)
    requires |MessageBody(m)| < TWO_32
    ensures ReadMessage(MessageBytes(m) + tail) == Some(m) <==> CanonicalOp(m.op)
  {
    hide Element, ReadElement, ReadTagged, Integer, ReadInteger, OpBody, OpOf, ControlsBytes, ReadControls, CanonicalOp;
    var field := ControlsField(m.controls);
    var body := OpBody(m.op);
    var op := Element(OpTag(m.op), body);
    TaggedRoundTrip(BER_SEQUENCE, MessageBody(m), tail);
    IntegerRoundTrip(m.id, op + field);
    Int32Survives(m.id);
    ElementRoundTrip(OpTag(m.op), body, field);
    OpSurvivesExactly(m.op);
    if m.controls != [] {
      TaggedRoundTripEnd(TAG_CONTROLS, ControlsBytes(m.controls));
      ControlsRoundTrip(m.controls);
    }
  }
}
