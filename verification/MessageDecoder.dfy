/** Messages read field by field through BER readers, and frames taken off a byte stream. */
module MessageDecoder {
  import opened Octets
  import opened Entries
  import opened Ber
  import opened BerStream
  import opened Filters
  import opened FilterCodec
  import opened FilterStream
  import opened Messages
  import opened MessageRoundTrip

  // ---------- lists ----------

  lemma OctetStringsStep(s: seq<byte>)
    ensures s == [] ==> ReadOctetStrings(s) == Some([])
    ensures s != [] ==> ReadOctetStrings(s) == var read := ReadOctetString(s);
                          if read.None? then None else After([read.value.0], ReadOctetStrings(read.value.1))
  {
    hide ReadTagged;
  }

  lemma AttributesStep(s: seq<byte>)
    ensures s == [] ==> ReadAttributes(s) == Some([])
    ensures s != [] ==> ReadAttributes(s) == var read := ReadTagged(BER_SEQUENCE, s);
                          if read.None? then None
                          else
                            var item := ReadAttributeBody(read.value.0);
                            if item.None? then None else After([item.value], ReadAttributes(read.value.1))
  {
    hide ReadTagged, ReadAttributeBody;
  }

  lemma ChangesStep(s: seq<byte>)
    ensures s == [] ==> ReadChanges(s) == Some([])
    ensures s != [] ==> ReadChanges(s) == var read := ReadTagged(BER_SEQUENCE, s);
                          if read.None? then None
                          else
                            var item := ReadChangeBody(read.value.0);
                            if item.None? then None else After([item.value], ReadChanges(read.value.1))
  {
    hide ReadTagged, ReadChangeBody;
  }

  lemma ControlsStep(s: seq<byte>)
    ensures s == [] ==> ReadControls(s) == Some([])
    ensures s != [] ==> ReadControls(s) == var read := ReadTagged(BER_SEQUENCE, s);
                          if read.None? then None
                          else
                            var item := ReadControlBody(read.value.0);
                            if item.None? then None else After([item.value], ReadControls(read.value.1))
  {
    hide ReadTagged, ReadControlBody;
  }

  method DecodeOctetStrings(reader: BerReader) returns (r: bool, values: seq<Text>)
    requires reader.Valid() && reader.ok
    modifies reader
    ensures reader.Valid()
    ensures ReadOctetStrings(old(reader.Rest())) == if r then Some(values) else None
  {
    hide ReadOctetString, ReadOctetStrings, After;
    ghost var start := reader.Rest();
    values := [];
    var done := reader.AtEnd();
    AfterNothing(ReadOctetStrings(start));
    while !done
      invariant reader.Valid() && reader.ok && done == (reader.Rest() == [])
      invariant After(values, ReadOctetStrings(reader.Rest())) == ReadOctetStrings(start)
      decreases |reader.Rest()|
    {
      OctetStringsStep(reader.Rest());
      var value;
      r, value := reader.NextOctetString();
      if !r {
        AfterFailure(values);
        return;
      }
      AfterOneMore(values, value, ReadOctetStrings(reader.Rest()));
      values := values + [value];
      done := reader.AtEnd();
    }
    OctetStringsStep([]);
    AfterAll(values);
    return true, values;
  }

  method DecodeAttribute(partial: BerReader) returns (r: bool, attribute: PartialAttribute)
    requires partial.Valid() && partial.ok
    modifies partial
    ensures partial.Valid()
    ensures ReadAttributeBody(old(partial.Rest())) == if r then Some(attribute) else None
  {
    hide ReadTagged, ReadOctetStrings, ReadOctetString;
    attribute := PartialAttribute([], []);
    var name, list, values;
    r, name := partial.NextOctetString();
    if !r {
      return;
    }
    r, list := partial.NextConstructed(BER_SET);
    if !r {
      return;
    }
    r, values := DecodeOctetStrings(list);
    attribute := PartialAttribute(name, values);
  }

  method DecodeAttributes(reader: BerReader) returns (r: bool, list: seq<PartialAttribute>)
    requires reader.Valid() && reader.ok
    modifies reader
    ensures reader.Valid()
    ensures ReadAttributes(old(reader.Rest())) == if r then Some(list) else None
  {
    hide ReadTagged, ReadAttributeBody, ReadAttributes, After;
    ghost var start := reader.Rest();
    list := [];
    var done := reader.AtEnd();
    AfterNothing(ReadAttributes(start));
    while !done
      invariant reader.Valid() && reader.ok && done == (reader.Rest() == [])
      invariant After(list, ReadAttributes(reader.Rest())) == ReadAttributes(start)
      decreases |reader.Rest()|
    {
      AttributesStep(reader.Rest());
      var partial, attribute;
      r, partial := reader.NextConstructed(BER_SEQUENCE);
      if !r {
        AfterFailure(list);
        return;
      }
      r, attribute := DecodeAttribute(partial);
      if !r {
        AfterFailure(list);
        return;
      }
      AfterOneMore(list, attribute, ReadAttributes(reader.Rest()));
      list := list + [attribute];
      done := reader.AtEnd();
    }
    AttributesStep([]);
    AfterAll(list);
    return true, list;
  }

  method DecodeChange(item: BerReader) returns (r: bool, change: AttributeModification)
    requires item.Valid() && item.ok
    modifies item
    ensures item.Valid()
    ensures ReadChangeBody(old(item.Rest())) == if r then Some(change) else None
  {
    hide ReadTagged, ReadAttributeBody, ReadEnumerated;
    change := AttributeModification(ADD, [], []);
    var op, partial, attribute;
    r, op := item.NextEnumerated();
    if !r {
      return;
    }
    r, partial := item.NextConstructed(BER_SEQUENCE);
    if !r {
      return;
    }
    r, attribute := DecodeAttribute(partial);
    change := AttributeModification(op, attribute.attribute, attribute.values);
  }

  method DecodeChanges(reader: BerReader) returns (r: bool, list: seq<AttributeModification>)
    requires reader.Valid() && reader.ok
    modifies reader
    ensures reader.Valid()
    ensures ReadChanges(old(reader.Rest())) == if r then Some(list) else None
  {
    hide ReadTagged, ReadChangeBody, ReadChanges, After;
    ghost var start := reader.Rest();
    list := [];
    var done := reader.AtEnd();
    AfterNothing(ReadChanges(start));
    while !done
      invariant reader.Valid() && reader.ok && done == (reader.Rest() == [])
      invariant After(list, ReadChanges(reader.Rest())) == ReadChanges(start)
      decreases |reader.Rest()|
    {
      ChangesStep(reader.Rest());
      var item, change;
      r, item := reader.NextConstructed(BER_SEQUENCE);
      if !r {
        AfterFailure(list);
        return;
      }
      r, change := DecodeChange(item);
      if !r {
        AfterFailure(list);
        return;
      }
      AfterOneMore(list, change, ReadChanges(reader.Rest()));
      list := list + [change];
      done := reader.AtEnd();
    }
    ChangesStep([]);
    AfterAll(list);
    return true, list;
  }

  method DecodeControl(item: BerReader) returns (r: bool, control: LdapControl)
    requires item.Valid() && item.ok
    modifies item
    ensures item.Valid()
    ensures ReadControlBody(old(item.Rest())) == if r then Some(control) else None
  {
    hide ReadOctetString, ReadBoolean;
    control := LdapControl([], false, []);
    var oid, critical, value;
    r, oid := item.NextOctetString();
    if !r {
      return;
    }
    critical, value := false, [];
    var end := item.AtEnd();
    var tag := item.PeekTag();
    if !end && tag == BER_BOOLEAN {
      r, critical := item.NextBoolean();
      if !r {
        return;
      }
    }
    end := item.AtEnd();
    if !end {
      r, value := item.NextOctetString();
    }
    control := LdapControl(oid, critical, value);
  }

  method DecodeControls(reader: BerReader) returns (r: bool, list: seq<LdapControl>)
    requires reader.Valid() && reader.ok
    modifies reader
    ensures reader.Valid()
    ensures ReadControls(old(reader.Rest())) == if r then Some(list) else None
  {
    hide ReadTagged, ReadControlBody, ReadControls, After;
    ghost var start := reader.Rest();
    list := [];
    var done := reader.AtEnd();
    AfterNothing(ReadControls(start));
    while !done
      invariant reader.Valid() && reader.ok && done == (reader.Rest() == [])
      invariant After(list, ReadControls(reader.Rest())) == ReadControls(start)
      decreases |reader.Rest()|
    {
      ControlsStep(reader.Rest());
      var item, control;
      r, item := reader.NextConstructed(BER_SEQUENCE);
      if !r {
        AfterFailure(list);
        return;
      }
      r, control := DecodeControl(item);
      if !r {
        AfterFailure(list);
        return;
      }
      AfterOneMore(list, control, ReadControls(reader.Rest()));
      list := list + [control];
      done := reader.AtEnd();
    }
    ControlsStep([]);
    AfterAll(list);
    return true, list;
  }

  // ---------- operations ----------

  const NO_BIND: BindRequestData := BindRequestData(3, [], [], true, [], [])

  method DecodeBind(reader: BerReader) returns (r: bool, bind: BindRequestData)
    requires reader.Valid() && reader.ok
    modifies reader
    ensures reader.Valid()
    ensures ReadBind(old(reader.Rest())) == if r then Some(bind) else None
  {
    hide ReadInteger, ReadOctetString, ReadTagged, Skip;
    bind := NO_BIND;
    var version, dn;
    r, version := reader.NextInteger();
    if !r {
      return;
    }
    r, dn := reader.NextOctetString();
    if !r {
      return;
    }
    var tag := reader.PeekTag();
    if tag == TAG_CONTEXT_0 {
      var password;
      r, password := reader.NextTagged(TAG_CONTEXT_0);
      bind := BindRequestData(ToInt32(version), dn, password, true, [], []);
    } else if tag != TAG_SASL_AUTH {
      r := reader.SkipElement();
      bind := BindRequestData(ToInt32(version), dn, [], false, [], []);
    } else {
      var sasl, mechanism, credentials;
      r, sasl := reader.NextConstructed(TAG_SASL_AUTH);
      if !r {
        return;
      }
      r, mechanism := sasl.NextOctetString();
      if !r {
        return;
      }
      credentials := [];
      var end := sasl.AtEnd();
      if !end {
        r, credentials := sasl.NextOctetString();
      }
      bind := BindRequestData(ToInt32(version), dn, [], false, mechanism, credentials);
    }
  }

  predicate IsResultField(tag: byte) {
    tag == TAG_SERVER_SASL_CREDS || tag == TAG_CONTEXT_10 || tag == TAG_CONTEXT_11
  }

  function WithField(result: LdapResult, tag: byte, body: Text): LdapResult {
    if tag == TAG_SERVER_SASL_CREDS then result.(saslCreds := body)
    else if tag == TAG_CONTEXT_10 then result.(oid := body)
    else result.(value := body)
  }

  lemma ResultTailStep(s: seq<byte>, sofar: LdapResult)
    ensures s == [] ==> ReadResultTail(s, sofar) == Some(sofar)
    ensures s != [] && IsResultField(s[0]) ==>
              var read := ReadTagged(s[0], s);
              ReadResultTail(s, sofar)
                == if read.None? then None else ReadResultTail(read.value.1, WithField(sofar, s[0], read.value.0))
    ensures s != [] && !IsResultField(s[0]) ==>
              var rest := Skip(s);
              ReadResultTail(s, sofar) == if rest.None? then None else ReadResultTail(rest.value, sofar)
  {
    hide ReadElement;
  }

  /** The loop over optional fields; a repeated one replaces the earlier. */
  method DecodeResultTail(reader: BerReader, first: LdapResult) returns (r: bool, result: LdapResult)
    requires reader.Valid() && reader.ok
    modifies reader
    ensures reader.Valid()
    ensures ReadResultTail(old(reader.Rest()), first) == if r then Some(result) else None
  {
    hide ReadTagged, Skip, ReadResultTail, WithField;
    ghost var start := reader.Rest();
    result := first;
    var done := reader.AtEnd();
    while !done
      invariant reader.Valid() && reader.ok && done == (reader.Rest() == [])
      invariant ReadResultTail(reader.Rest(), result) == ReadResultTail(start, first)
      decreases |reader.Rest()|
    {
      ResultTailStep(reader.Rest(), result);
      var tag := reader.PeekTag();
      if IsResultField(tag) {
        var body;
        r, body := reader.NextTagged(tag);
        if !r {
          return;
        }
        result := WithField(result, tag, body);
      } else {
        r := reader.SkipElement();
        if !r {
          return;
        }
      }
      done := reader.AtEnd();
    }
    ResultTailStep([], result);
    return true, result;
  }

  method DecodeResult(reader: BerReader) returns (r: bool, result: LdapResult)
    requires reader.Valid() && reader.ok
    modifies reader
    ensures reader.Valid()
    ensures ReadResult(old(reader.Rest())) == if r then Some(result) else None
  {
    hide ReadEnumerated, ReadOctetString, ReadResultTail;
    result := NO_RESULT;
    var code, matchedDn, diagnostic;
    r, code := reader.NextEnumerated();
    if !r {
      return;
    }
    r, matchedDn := reader.NextOctetString();
    if !r {
      return;
    }
    r, diagnostic := reader.NextOctetString();
    if !r {
      return;
    }
    r, result := DecodeResultTail(reader, LdapResult(code % 256, matchedDn, diagnostic, [], [], []));
  }

  datatype SearchHead = SearchHead(baseDn: Text, scope: SearchScope, sizeLimit: int64, timeLimit: int64, typesOnly: bool)

  /** The six fixed fields of a search request. */
  function ReadSearchHead(s: seq<byte>): Option<(SearchHead, seq<byte>)> {
    var (baseDn, s1) :- ReadOctetString(s);
    var (scope, s2) :- ReadEnumerated(s1);
    var (_, s3) :- ReadEnumerated(s2);
    var (sizeLimit, s4) :- ReadInteger(s3);
    var (timeLimit, s5) :- ReadInteger(s4);
    var (typesOnly, s6) :- ReadBoolean(s5);
    Some((SearchHead(baseDn, scope, sizeLimit, timeLimit, typesOnly), s6))
  }

  lemma SearchInTwoParts(s: seq<byte>)
    ensures ReadSearchHead(s).None? ==> ReadSearch(s) == None
    ensures ReadSearchHead(s).Some? ==>
              var head, rest := ReadSearchHead(s).value.0, ReadSearchHead(s).value.1;
              var node := ReadNode(rest);
              var list := if node.None? then None else ReadTagged(BER_SEQUENCE, node.value.1);
              var names := if list.None? then None else ReadOctetStrings(list.value.0);
              ReadSearch(s) == if names.None? then None
                               else Some(SearchRequestData(head.baseDn, head.scope, ToInt32(head.sizeLimit),
                                                           ToInt32(head.timeLimit), head.typesOnly,
                                                           SearchFilter(true, node.value.0), names.value))
  {
    hide ReadOctetString, ReadEnumerated, ReadInteger, ReadBoolean, ReadNode, ReadTagged, ReadOctetStrings;
  }

  method DecodeSearchHead(reader: BerReader) returns (r: bool, head: SearchHead)
    requires reader.Valid() && reader.ok
    modifies reader
    ensures reader.Valid() && (r ==> reader.ok)
    ensures ReadSearchHead(old(reader.Rest())) == if r then Some((head, reader.Rest())) else None
  {
    hide ReadOctetString, ReadEnumerated, ReadInteger, ReadBoolean;
    head := SearchHead([], BASE, 0, 0, false);
    var baseDn, scope, deref, sizeLimit, timeLimit, typesOnly;
    r, baseDn := reader.NextOctetString();
    if !r {
      return;
    }
    r, scope := reader.NextEnumerated();
    if !r {
      return;
    }
    r, deref := reader.NextEnumerated();
    if !r {
      return;
    }
    r, sizeLimit := reader.NextInteger();
    if !r {
      return;
    }
    r, timeLimit := reader.NextInteger();
    if !r {
      return;
    }
    r, typesOnly := reader.NextBoolean();
    head := SearchHead(baseDn, scope, sizeLimit, timeLimit, typesOnly);
  }

  const NO_SEARCH: SearchRequestData := SearchRequestData([], BASE, 0, 0, false, SearchFilter(false, True), [])

  method DecodeSearch(reader: BerReader) returns (r: bool, search: SearchRequestData)
    requires reader.Valid() && reader.ok
    modifies reader
    ensures reader.Valid()
    ensures ReadSearch(old(reader.Rest())) == if r then Some(search) else None
  {
    hide ReadSearchHead, ReadSearch, ReadNode, ReadTagged, ReadOctetStrings;
    SearchInTwoParts(reader.Rest());
    search := NO_SEARCH;
    var head, root, list, attributes;
    r, head := DecodeSearchHead(reader);
    if !r {
      return;
    }
    r, root := DecodeNode(reader);
    if !r {
      return;
    }
    r, list := reader.NextConstructed(BER_SEQUENCE);
    if !r {
      return;
    }
    r, attributes := DecodeOctetStrings(list);
    search := SearchRequestData(head.baseDn, head.scope, ToInt32(head.sizeLimit), ToInt32(head.timeLimit),
                                head.typesOnly, SearchFilter(true, root), attributes);
  }

  method DecodeEntry(reader: BerReader) returns (r: bool, entry: EntryData)
    requires reader.Valid() && reader.ok
    modifies reader
    ensures reader.Valid()
    ensures ReadEntry(old(reader.Rest())) == if r then Some(entry) else None
  {
    hide ReadOctetString, ReadTagged, ReadAttributes;
    entry := EntryData([], []);
    var dn, list, attributes;
    r, dn := reader.NextOctetString();
    if !r {
      return;
    }
    r, list := reader.NextConstructed(BER_SEQUENCE);
    if !r {
      return;
    }
    r, attributes := DecodeAttributes(list);
    entry := EntryData(dn, attributes);
  }

  method DecodeModify(reader: BerReader) returns (r: bool, m: ModifyRequestData)
    requires reader.Valid() && reader.ok
    modifies reader
    ensures reader.Valid()
    ensures ReadModify(old(reader.Rest())) == if r then Some(m) else None
  {
    hide ReadOctetString, ReadTagged, ReadChanges;
    m := ModifyRequestData([], []);
    var dn, list, changes;
    r, dn := reader.NextOctetString();
    if !r {
      return;
    }
    r, list := reader.NextConstructed(BER_SEQUENCE);
    if !r {
      return;
    }
    r, changes := DecodeChanges(list);
    m := ModifyRequestData(dn, changes);
  }

  method DecodeModifyDn(reader: BerReader) returns (r: bool, m: ModifyDnRequestData)
    requires reader.Valid() && reader.ok
    modifies reader
    ensures reader.Valid()
    ensures ReadModifyDn(old(reader.Rest())) == if r then Some(m) else None
  {
    hide ReadOctetString, ReadTagged, ReadBoolean;
    m := ModifyDnRequestData([], [], true, []);
    var dn, newRdn, deleteOldRdn, newSuperior;
    r, dn := reader.NextOctetString();
    if !r {
      return;
    }
    r, newRdn := reader.NextOctetString();
    if !r {
      return;
    }
    r, deleteOldRdn := reader.NextBoolean();
    if !r {
      return;
    }
    newSuperior := [];
    var end := reader.AtEnd();
    var tag := reader.PeekTag();
    if !end && tag == TAG_CONTEXT_0 {
      r, newSuperior := reader.NextTagged(TAG_CONTEXT_0);
    }
    m := ModifyDnRequestData(dn, newRdn, deleteOldRdn, newSuperior);
  }

  method DecodeCompare(reader: BerReader) returns (r: bool, compare: CompareRequestData)
    requires reader.Valid() && reader.ok
    modifies reader
    ensures reader.Valid()
    ensures ReadCompare(old(reader.Rest())) == if r then Some(compare) else None
  {
    hide ReadOctetString, ReadTagged;
    compare := CompareRequestData([], [], []);
    var dn, ava, attribute, value;
    r, dn := reader.NextOctetString();
    if !r {
      return;
    }
    r, ava := reader.NextConstructed(BER_SEQUENCE);
    if !r {
      return;
    }
    r, attribute := ava.NextOctetString();
    if !r {
      return;
    }
    r, value := ava.NextOctetString();
    compare := CompareRequestData(dn, attribute, value);
  }

  method DecodeExtended(reader: BerReader) returns (r: bool, oid: Text, value: Text)
    requires reader.Valid() && reader.ok
    modifies reader
    ensures reader.Valid()
    ensures ReadExtended(old(reader.Rest())) == if r then Some((oid, value)) else None
  {
    hide ReadTagged;
    value := [];
    r, oid := reader.NextTagged(TAG_CONTEXT_0);
    if !r {
      return;
    }
    var end := reader.AtEnd();
    var tag := reader.PeekTag();
    if !end && tag == TAG_CONTEXT_1 {
      r, value := reader.NextTagged(TAG_CONTEXT_1);
    }
  }

  // ---------- messages ----------

  /** The operations that carry a result, decoded from the contents of their element. */
  method DecodeResponse(tag: byte, op: BerReader) returns (r: bool, decoded: ProtocolOp)
    requires op.Valid() && op.ok && IsResponseTag(tag)
    modifies op
    ensures op.Valid()
    ensures OpOf(Tlv(tag, old(op.Rest()))) == if r then Some(decoded) else None
  {
    hide ReadResult;
    var result;
    decoded := UnbindRequest;
    r, result := DecodeResult(op);
    if r {
      decoded := WithResult(tag, result);
    }
  }

  /** The switch over the operation's tag. */
  method DecodeOp(tag: byte, op: BerReader) returns (r: bool, decoded: ProtocolOp)
    requires op.Valid() && op.ok
    modifies op
    ensures op.Valid()
    ensures OpOf(Tlv(tag, old(op.Rest()))) == if r then Some(decoded) else None
  {
    hide ReadBind, ReadResult, ReadSearch, ReadEntry, ReadModify, ReadModifyDn, ReadCompare, ReadExtended;
    if IsResponseTag(tag) {
      r, decoded := DecodeResponse(tag, op);
    } else if tag == TAG_BIND_REQUEST {
      var d;
      r, d := DecodeBind(op);
      decoded := BindRequest(d);
    } else if tag == TAG_SEARCH_REQUEST {
      var d;
      r, d := DecodeSearch(op);
      decoded := SearchRequest(d);
    } else if tag == TAG_SEARCH_RESULT_ENTRY {
      var d;
      r, d := DecodeEntry(op);
      decoded := SearchResultEntry(d);
    } else if tag == TAG_MODIFY_REQUEST {
      var d;
      r, d := DecodeModify(op);
      decoded := ModifyRequest(d);
    } else if tag == TAG_ADD_REQUEST {
      var d;
      r, d := DecodeEntry(op);
      decoded := AddRequest(d);
    } else {
      r, decoded := DecodeOtherOp(tag, op);
    }
  }

  method DecodeOtherOp(tag: byte, op: BerReader) returns (r: bool, decoded: ProtocolOp)
    requires op.Valid() && op.ok && !IsResponseTag(tag)
    requires tag !in {TAG_BIND_REQUEST, TAG_SEARCH_REQUEST, TAG_SEARCH_RESULT_ENTRY, TAG_MODIFY_REQUEST, TAG_ADD_REQUEST}
    modifies op
    ensures op.Valid()
    ensures OpOf(Tlv(tag, old(op.Rest()))) == if r then Some(decoded) else None
  {
    hide ReadModifyDn, ReadCompare, ReadExtended;
    if tag == TAG_UNBIND_REQUEST {
      r, decoded := true, UnbindRequest;
    } else if tag == TAG_DEL_REQUEST {
      var dn;
      r, dn := op.Consume(|op.data| - op.offset);
      assert dn == old(op.Rest());
      decoded := DelRequest(dn);
    } else if tag == TAG_MODIFY_DN_REQUEST {
      var d;
      r, d := DecodeModifyDn(op);
      decoded := ModifyDnRequest(d);
    } else if tag == TAG_COMPARE_REQUEST {
      var d;
      r, d := DecodeCompare(op);
      decoded := CompareRequest(d);
    } else if tag == TAG_EXTENDED_REQUEST {
      var oid, value;
      r, oid, value := DecodeExtended(op);
      decoded := ExtendedRequest(oid, value);
    } else {
      r, decoded := true, Unknown(NO_RESULT);
    }
  }

  lemma ElementUnderTag(s: seq<byte>)
    ensures s == [] ==> ReadElement(s) == None
    ensures s != [] ==> var read := ReadTagged(s[0], s);
                        ReadElement(s) == if read.None? then None else Some((Tlv(s[0], read.value.0), read.value.1))
  {
    hide ReadTagLength;
  }

  method DecodeControlsField(body: BerReader) returns (r: bool, controls: seq<LdapControl>)
    requires body.Valid() && body.ok
    modifies body
    ensures body.Valid()
    ensures ReadControlsField(old(body.Rest())) == if r then Some(controls) else None
  {
    hide ReadTagged, ReadControls;
    r, controls := true, [];
    var end := body.AtEnd();
    var tag := body.PeekTag();
    if !end && tag == TAG_CONTROLS {
      var list;
      r, list := body.NextConstructed(TAG_CONTROLS);
      if !r {
        return;
      }
      r, controls := DecodeControls(list);
    }
  }

  /** The operation's element and what it decodes to. */
  function ReadOp(s: seq<byte>): Option<(ProtocolOp, seq<byte>)> {
    var (e, rest) :- ReadElement(s);
    var op :- OpOf(e);
    Some((op, rest))
  }

  method DecodeOpElement(body: BerReader) returns (r: bool, decoded: ProtocolOp)
    requires body.Valid() && body.ok
    modifies body
    ensures body.Valid() && (r ==> body.ok)
    ensures ReadOp(old(body.Rest())) == if r then Some((decoded, body.Rest())) else None
  {
    hide ReadTagged, ReadElement, OpOf;
    ElementUnderTag(body.Rest());
    decoded := UnbindRequest;
    var op;
    var tag := body.PeekTag();
    NoElement(tag);
    r, op := body.NextConstructed(tag);
    if !r {
      return;
    }
    r, decoded := DecodeOp(tag, op);
  }

  lemma MessageInParts(wire: seq<byte>)
    ensures ReadMessage(wire) ==
            var body := ReadTagged(BER_SEQUENCE, wire);
            var id := if body.None? then None else ReadInteger(body.value.0);
            var op := if id.None? then None else ReadOp(id.value.1);
            var controls := if op.None? then None else ReadControlsField(op.value.1);
            if controls.None? then None else Some(LdapMessage(ToInt32(id.value.0), op.value.0, controls.value))
  {
    hide ReadTagged, ReadInteger, ReadElement, OpOf, ReadControlsField;
  }

  /** `decodeLdapMessage`. */
  method DecodeLdapMessage(wire: seq<byte>) returns (m: Option<LdapMessage>)
    ensures m == ReadMessage(wire)
  {
    hide ReadTagged, ReadInteger, ReadOp, ReadControlsField, ReadMessage;
    MessageInParts(wire);
    var top := new BerReader(wire);
    var r, body, id, decoded, controls;
    r, body := top.NextConstructed(BER_SEQUENCE);
    if !r {
      return None;
    }
    r, id := body.NextInteger();
    if !r {
      return None;
    }
    r, decoded := DecodeOpElement(body);
    if !r {
      return None;
    }
    r, controls := DecodeControlsField(body);
    if !r {
      return None;
    }
    return Some(LdapMessage(ToInt32(id), decoded, controls));
  }

  lemma NoElement(tag: byte)
    ensures ReadTagged(tag, []) == None
  {
  }

  // ---------- frames ----------

  /** The receiving side of a connection: octets arrive in order, and `received` of them were taken. */
  class Connection {
    const stream: seq<byte>
    var received: nat

    ghost predicate Valid()
      reads this
    {
      received <= |stream|
    }

    ghost function Pending(): seq<byte>
      requires Valid()
      reads this
    {
      stream[received..]
    }

    constructor (octets: seq<byte>)
      ensures Valid() && Pending() == octets
    {
      stream := octets;
      received := 0;
    }

    method RecvExact(n: nat) returns (r: bool, octets: seq<byte>)
      requires Valid()
      modifies this
      ensures Valid()
      ensures r == (n <= |old(Pending())|)
      ensures r ==> octets == old(Pending())[..n] && Pending() == old(Pending())[n..]
    {
      if received + n > |stream| {
        return false, [];
      }
      octets := stream[received..received + n];
      received := received + n;
      return true, octets;
    }

    /** The length octets after the two of the prefix. */
    method RecvLength(first: byte) returns (r: bool, raw: seq<byte>, length: nat)
      requires Valid()
      modifies this
      ensures Valid()
      ensures var s := old(Pending());
              ReadLength([first] + s) == if r then Some((length, Pending())) else None
      ensures r ==> old(Pending()) == raw + Pending()
    {
      hide Numeral, ReadLength;
      ghost var s := Pending();
      LengthForms([first] + s);
      assert ([first] + s)[1..] == s;
      raw, length := [], 0;
      if first < 0x80 {
        return true, [], first;
      }
      var count := first - 0x80;
      if count == 0 || count > 4 {
        return false, [], 0;
      }
      assert count <= |s| ==> ([first] + s)[1..1 + count] == s[..count] && ([first] + s)[1 + count..] == s[count..];
      r, raw := RecvExact(count);
      if r {
        length := JoinOctets(raw);
      }
    }

    /** `recvPdu`: a frame is taken exactly when `RecvPdu` finds one at the front of what is pending. */
    method NextPdu(maxPduSize: nat) returns (r: bool, pdu: seq<byte>)
      requires Valid()
      modifies this
      ensures Valid()
      ensures RecvPdu(old(Pending()), maxPduSize) == if r then Some((pdu, Pending())) else None
    {
      hide ReadLength, RecvPdu;
      ghost var s := Pending();
      var prefix, raw, length, body;
      pdu := [];
      r, prefix := RecvExact(2);
      if !r {
        ShortFrame(s, maxPduSize);
        return;
      }
      ghost var after := Pending();
      assert s == prefix + after;
      r, raw, length := RecvLength(prefix[1]);
      FrameForms(prefix, raw, after, Pending(), length, maxPduSize);
      if !r {
        return;
      }
      pdu := prefix + raw;
      if maxPduSize == 0 || length > maxPduSize {
        return false, [];
      }
      if length > 0 {
        r, body := RecvExact(length);
        if !r {
          return;
        }
        pdu := pdu + body;
      } else {
        assert pdu + Pending()[..0] == pdu && Pending()[0..] == Pending();
      }
    }

    /** The receiving loop of `serve`: it ends at a refused frame or message, and at an unbind request. */
    method ReceiveMessages(maxPduSize: nat) returns (messages: seq<LdapMessage>)
      requires Valid()
      modifies this
      ensures Valid()
      ensures messages == UntilUnbind(ReceiveAll(old(Pending()), maxPduSize))
    {
      hide RecvPdu, ReadMessage, UntilUnbind;
      messages := [];
      ghost var all := UntilUnbind(ReceiveAll(Pending(), maxPduSize));
      while true
        invariant Valid()
        invariant messages + UntilUnbind(ReceiveAll(Pending(), maxPduSize)) == all
        decreases |Pending()|
      {
        UnbindStep(ReceiveAll(Pending(), maxPduSize));
        var r, pdu := NextPdu(maxPduSize);
        if !r {
          return;
        }
        var m := DecodeLdapMessage(pdu);
        if m.None? || m.value.op.UnbindRequest? {
          return;
        }
        ghost var rest := ReceiveAll(Pending(), maxPduSize);
        assert ([m.value] + rest)[1..] == rest;
        assert messages + ([m.value] + UntilUnbind(rest)) == messages + [m.value] + UntilUnbind(rest);
        messages := messages + [m.value];
      }
    }
  }

  /** The requests that are served: those before the first unbind. */
  function UntilUnbind(messages: seq<LdapMessage>): seq<LdapMessage> {
    if messages == [] || messages[0].op.UnbindRequest? then []
    else [messages[0]] + UntilUnbind(messages[1..])
  }

  lemma UnbindStep(messages: seq<LdapMessage>)
    ensures messages == [] ==> UntilUnbind(messages) == []
    ensures messages != [] && messages[0].op.UnbindRequest? ==> UntilUnbind(messages) == []
    ensures messages != [] && !messages[0].op.UnbindRequest? ==>
              UntilUnbind(messages) == [messages[0]] + UntilUnbind(messages[1..])
  {
  }

  /** The cases of a frame, given its two-octet prefix and the length octets read after it. */
  lemma FrameForms(prefix: seq<byte>, raw: seq<byte>, after: seq<byte>, rest: seq<byte>, length: nat, maxPduSize: nat)
    requires |prefix| == 2
    ensures var frame := RecvPdu(prefix + after, maxPduSize);
            && (ReadLength([prefix[1]] + after) == None ==> frame == None)
            && (ReadLength([prefix[1]] + after) == Some((length, rest)) && after == raw + rest ==>
                  frame == if maxPduSize == 0 || length > maxPduSize || |rest| < length then None
                           else Some((prefix + raw + rest[..length], rest[length..])))
  {
    hide ReadLength;
    var s := prefix + after;
    assert s[1..] == [prefix[1]] + after;
    if after == raw + rest && length <= |rest| {
      var n := |s| - |rest| + length;
      assert s == prefix + raw + rest;
      assert s[..n] == prefix + raw + rest[..length] && s[n..] == rest[length..];
    }
  }

  /** A frame needs at least a tag and a length octet. */
  lemma ShortFrame(s: seq<byte>, maxPduSize: nat)
    requires |s| < 2
    ensures RecvPdu(s, maxPduSize) == None
  {
  }
}
