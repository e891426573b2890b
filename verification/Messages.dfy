/** LDAPv3 messages and their BER form (section 4 of RFC 4511), as functions on octet strings. */
module Messages {
  import opened Octets
  import opened Entries
  import opened Ber
  import opened Filters
  import opened FilterCodec

  datatype BindRequestData = BindRequestData(version: int32, dn: Text, password: Text, simple: bool,
                                             mechanism: Text, credentials: Text)

  datatype SearchRequestData = SearchRequestData(baseDn: Text, scope: SearchScope, sizeLimit: int32, timeLimit: int32,
                                                 typesOnly: bool, filter: SearchFilter, attributes: seq<Text>)

  datatype PartialAttribute = PartialAttribute(attribute: Text, values: seq<Text>)

  /** The payload of both an add request and a search result entry. */
  datatype EntryData = EntryData(dn: Text, attributes: seq<PartialAttribute>)

  datatype ModifyRequestData = ModifyRequestData(dn: Text, changes: seq<AttributeModification>)

  datatype ModifyDnRequestData = ModifyDnRequestData(dn: Text, newRdn: Text, deleteOldRdn: bool, newSuperior: Text)

  datatype CompareRequestData = CompareRequestData(dn: Text, attribute: Text, value: Text)

  datatype LdapControl = LdapControl(oid: Text, critical: bool, value: Text)

  datatype LdapResult = LdapResult(code: ResultCode, matchedDn: Text, diagnostic: Text,
                                   saslCreds: Text, oid: Text, value: Text)

  datatype ProtocolOp =
    | BindRequest(bind: BindRequestData)
    | BindResponse(result: LdapResult)
    | UnbindRequest
    | SearchRequest(search: SearchRequestData)
    | SearchResultEntry(entry: EntryData)
    | SearchResultDone(result: LdapResult)
    | ModifyRequest(changing: ModifyRequestData)
    | ModifyResponse(result: LdapResult)
    | AddRequest(add: EntryData)
    | AddResponse(result: LdapResult)
    | DelRequest(dn: Text)
    | DelResponse(result: LdapResult)
    | ModifyDnRequest(moving: ModifyDnRequestData)
    | ModifyDnResponse(result: LdapResult)
    | CompareRequest(compare: CompareRequestData)
    | CompareResponse(result: LdapResult)
    | ExtendedRequest(oid: Text, value: Text)
    | ExtendedResponse(result: LdapResult)
    | Unknown(result: LdapResult)

  datatype LdapMessage = LdapMessage(id: int32, op: ProtocolOp, controls: seq<LdapControl>)

  const TAG_BIND_REQUEST: byte := 0x60
  const TAG_BIND_RESPONSE: byte := 0x61
  const TAG_UNBIND_REQUEST: byte := 0x42
  const TAG_SEARCH_REQUEST: byte := 0x63
  const TAG_SEARCH_RESULT_ENTRY: byte := 0x64
  const TAG_SEARCH_RESULT_DONE: byte := 0x65
  const TAG_MODIFY_REQUEST: byte := 0x66
  const TAG_MODIFY_RESPONSE: byte := 0x67
  const TAG_ADD_REQUEST: byte := 0x68
  const TAG_ADD_RESPONSE: byte := 0x69
  const TAG_DEL_REQUEST: byte := 0x4A
  const TAG_DEL_RESPONSE: byte := 0x6B
  const TAG_MODIFY_DN_REQUEST: byte := 0x6C
  const TAG_MODIFY_DN_RESPONSE: byte := 0x6D
  const TAG_COMPARE_REQUEST: byte := 0x6E
  const TAG_COMPARE_RESPONSE: byte := 0x6F
  const TAG_EXTENDED_REQUEST: byte := 0x77
  const TAG_EXTENDED_RESPONSE: byte := 0x78
  const TAG_CONTEXT_0: byte := 0x80
  const TAG_CONTEXT_1: byte := 0x81
  const TAG_CONTEXT_2: byte := 0x82
  const TAG_CONTEXT_10: byte := 0x8A
  const TAG_CONTEXT_11: byte := 0x8B
  const TAG_SERVER_SASL_CREDS: byte := 0x87
  const TAG_SASL_AUTH: byte := 0xA3
  const TAG_CONTROLS: byte := 0xA0

  const NO_RESULT: LdapResult := LdapResult(SUCCESS, [], [], [], [], [])

  // ---------- writing ----------

  function Optional(tag: byte, value: Text): seq<byte> {
    if value == [] then [] else Element(tag, value)
  }

  function OctetStrings(values: seq<Text>): seq<byte> {
    if values == [] then [] else OctetString(values[0]) + OctetStrings(values[1..])
  }

  function AttributeBody(attribute: Text, values: seq<Text>): seq<byte> {
    OctetString(attribute) + Element(BER_SET, OctetStrings(values))
  }

  function AttributesBytes(attributes: seq<PartialAttribute>): seq<byte> {
    if attributes == [] then []
    else
      Element(BER_SEQUENCE, AttributeBody(attributes[0].attribute, attributes[0].values))
      + AttributesBytes(attributes[1..])
  }

  function ChangeBody(change: AttributeModification): seq<byte> {
    Enumerated(change.op) + Element(BER_SEQUENCE, AttributeBody(change.attribute, change.values))
  }

  function ChangesBytes(changes: seq<AttributeModification>): seq<byte> {
    if changes == [] then []
    else Element(BER_SEQUENCE, ChangeBody(changes[0])) + ChangesBytes(changes[1..])
  }

  function ControlBody(control: LdapControl): seq<byte> {
    OctetString(control.oid)
    + ((if control.critical then Boolean(true) else [])
       + Optional(BER_OCTET_STRING, control.value))
  }

  function ControlsBytes(controls: seq<LdapControl>): seq<byte> {
    if controls == [] then []
    else Element(BER_SEQUENCE, ControlBody(controls[0])) + ControlsBytes(controls[1..])
  }

  function BindBody(bind: BindRequestData): seq<byte> {
    Integer(bind.version)
    + (OctetString(bind.dn)
       + (if bind.simple then Element(TAG_CONTEXT_0, bind.password)
          else Element(TAG_SASL_AUTH, OctetString(bind.mechanism) + Optional(BER_OCTET_STRING, bind.credentials))))
  }

  function ResultBody(result: LdapResult, extra: seq<byte>): seq<byte> {
    Enumerated(result.code) + (OctetString(result.matchedDn) + (OctetString(result.diagnostic) + extra))
  }

  function ExtendedExtra(result: LdapResult): seq<byte> {
    if result.oid == [] && result.value == [] then []
    else Optional(TAG_CONTEXT_10, result.oid) + Element(TAG_CONTEXT_11, result.value)
  }

  function FilterBytes(filter: SearchFilter): seq<byte> {
    NodeBytes(if filter.valid then filter.root else Present(OBJECT_CLASS))
  }

  function SearchBody(search: SearchRequestData): seq<byte> {
    OctetString(search.baseDn)
    + (Enumerated(search.scope)
       + (Enumerated(0)
          + (Integer(search.sizeLimit)
             + (Integer(search.timeLimit)
                + (Boolean(search.typesOnly)
                   + (FilterBytes(search.filter)
                      + Element(BER_SEQUENCE, OctetStrings(search.attributes))))))))
  }

  function EntryBody(entry: EntryData): seq<byte> {
    OctetString(entry.dn) + Element(BER_SEQUENCE, AttributesBytes(entry.attributes))
  }

  function ModifyBody(m: ModifyRequestData): seq<byte> {
    OctetString(m.dn) + Element(BER_SEQUENCE, ChangesBytes(m.changes))
  }

  function ModifyDnBody(m: ModifyDnRequestData): seq<byte> {
    OctetString(m.dn) + (OctetString(m.newRdn) + (Boolean(m.deleteOldRdn) + Optional(TAG_CONTEXT_0, m.newSuperior)))
  }

  function CompareBody(compare: CompareRequestData): seq<byte> {
    OctetString(compare.dn) + Element(BER_SEQUENCE, OctetString(compare.attribute) + OctetString(compare.value))
  }

  function ExtendedBody(oid: Text, value: Text): seq<byte> {
    Element(TAG_CONTEXT_0, oid) + Optional(TAG_CONTEXT_1, value)
  }

  function OpTag(op: ProtocolOp): byte {
    match op
    case BindRequest(_) => TAG_BIND_REQUEST
    case BindResponse(_) => TAG_BIND_RESPONSE
    case UnbindRequest => TAG_UNBIND_REQUEST
    case SearchRequest(_) => TAG_SEARCH_REQUEST
    case SearchResultEntry(_) => TAG_SEARCH_RESULT_ENTRY
    case SearchResultDone(_) => TAG_SEARCH_RESULT_DONE
    case ModifyRequest(_) => TAG_MODIFY_REQUEST
    case ModifyResponse(_) => TAG_MODIFY_RESPONSE
    case AddRequest(_) => TAG_ADD_REQUEST
    case AddResponse(_) => TAG_ADD_RESPONSE
    case DelRequest(_) => TAG_DEL_REQUEST
    case DelResponse(_) => TAG_DEL_RESPONSE
    case ModifyDnRequest(_) => TAG_MODIFY_DN_REQUEST
    case ModifyDnResponse(_) => TAG_MODIFY_DN_RESPONSE
    case CompareRequest(_) => TAG_COMPARE_REQUEST
    case CompareResponse(_) => TAG_COMPARE_RESPONSE
    case ExtendedRequest(_, _) => TAG_EXTENDED_REQUEST
    case ExtendedResponse(_) => TAG_EXTENDED_RESPONSE
    case Unknown(_) => TAG_SEARCH_RESULT_DONE
  }

  function OpBody(op: ProtocolOp): seq<byte> {
    match op
    case BindRequest(bind) => BindBody(bind)
    case BindResponse(result) => ResultBody(result, Optional(TAG_SERVER_SASL_CREDS, result.saslCreds))
    case UnbindRequest => []
    case SearchRequest(search) => SearchBody(search)
    case SearchResultEntry(entry) => EntryBody(entry)
    case ModifyRequest(m) => ModifyBody(m)
    case AddRequest(add) => EntryBody(add)
    case DelRequest(dn) => dn
    case ModifyDnRequest(m) => ModifyDnBody(m)
    case CompareRequest(compare) => CompareBody(compare)
    case ExtendedRequest(oid, value) => ExtendedBody(oid, value)
    case ExtendedResponse(result) => ResultBody(result, ExtendedExtra(result))
    case _ => ResultBody(op.result, [])
  }

  function ControlsField(controls: seq<LdapControl>): seq<byte> {
    if controls == [] then [] else Element(TAG_CONTROLS, ControlsBytes(controls))
  }

  function MessageBody(m: LdapMessage): seq<byte> {
    Integer(m.id) + (Element(OpTag(m.op), OpBody(m.op)) + ControlsField(m.controls))
  }

  function MessageBytes(m: LdapMessage): seq<byte> {
    Element(BER_SEQUENCE, MessageBody(m))
  }

  // ---------- reading ----------

  function ReadOctetStrings(s: seq<byte>): Option<seq<Text>>
    decreases |s|
  {
    if s == [] then Some([])
    else
      var (value, rest) :- ReadOctetString(s);
      var values :- ReadOctetStrings(rest);
      Some([value] + values)
  }

  function ReadAttributeBody(s: seq<byte>): Option<PartialAttribute> {
    var (attribute, rest) :- ReadOctetString(s);
    var (list, _) :- ReadTagged(BER_SET, rest);
    var values :- ReadOctetStrings(list);
    Some(PartialAttribute(attribute, values))
  }

  function ReadAttributes(s: seq<byte>): Option<seq<PartialAttribute>>
    decreases |s|
  {
    if s == [] then Some([])
    else
      var (body, rest) :- ReadTagged(BER_SEQUENCE, s);
      var attribute :- ReadAttributeBody(body);
      var attributes :- ReadAttributes(rest);
      Some([attribute] + attributes)
  }

  function ReadChangeBody(s: seq<byte>): Option<AttributeModification> {
    var (op, rest) :- ReadEnumerated(s);
    var (partial, _) :- ReadTagged(BER_SEQUENCE, rest);
    var attribute :- ReadAttributeBody(partial);
    Some(AttributeModification(op, attribute.attribute, attribute.values))
  }

  function ReadChanges(s: seq<byte>): Option<seq<AttributeModification>>
    decreases |s|
  {
    if s == [] then Some([])
    else
      var (body, rest) :- ReadTagged(BER_SEQUENCE, s);
      var change :- ReadChangeBody(body);
      var changes :- ReadChanges(rest);
      Some([change] + changes)
  }

  function ReadControlBody(s: seq<byte>): Option<LdapControl> {
    var (oid, rest) :- ReadOctetString(s);
    var (critical, more) :- if rest != [] && rest[0] == BER_BOOLEAN then ReadBoolean(rest) else Some((false, rest));
    var (value, _) :- if more != [] then ReadOctetString(more) else Some(([], more));
    Some(LdapControl(oid, critical, value))
  }

  function ReadControls(s: seq<byte>): Option<seq<LdapControl>>
    decreases |s|
  {
    if s == [] then Some([])
    else
      var (body, rest) :- ReadTagged(BER_SEQUENCE, s);
      var control :- ReadControlBody(body);
      var controls :- ReadControls(rest);
      Some([control] + controls)
  }

  function ReadBind(s: seq<byte>): Option<BindRequestData> {
    var (version, rest) :- ReadInteger(s);
    var (dn, auth) :- ReadOctetString(rest);
    if auth != [] && auth[0] == TAG_CONTEXT_0 then
      var (password, _) :- ReadTagged(TAG_CONTEXT_0, auth);
      Some(BindRequestData(ToInt32(version), dn, password, true, [], []))
    else if auth != [] && auth[0] == TAG_SASL_AUTH then
      var (sasl, _) :- ReadTagged(TAG_SASL_AUTH, auth);
      var (mechanism, more) :- ReadOctetString(sasl);
      var (credentials, _) :- if more != [] then ReadOctetString(more) else Some(([], more));
      Some(BindRequestData(ToInt32(version), dn, [], false, mechanism, credentials))
    else
      var _ :- Skip(auth);
      Some(BindRequestData(ToInt32(version), dn, [], false, [], []))
  }

  /** The optional fields after the three mandatory ones; unknown elements are skipped. */
  function ReadResultTail(s: seq<byte>, sofar: LdapResult): Option<LdapResult>
    decreases |s|
  {
    if s == [] then Some(sofar)
    else
      var (e, rest) :- ReadElement(s);
      if e.tag == TAG_SERVER_SASL_CREDS then ReadResultTail(rest, sofar.(saslCreds := e.body))
      else if e.tag == TAG_CONTEXT_10 then ReadResultTail(rest, sofar.(oid := e.body))
      else if e.tag == TAG_CONTEXT_11 then ReadResultTail(rest, sofar.(value := e.body))
      else ReadResultTail(rest, sofar)
  }

  function ReadResult(s: seq<byte>): Option<LdapResult> {
    var (code, rest) :- ReadEnumerated(s);
    var (matchedDn, more) :- ReadOctetString(rest);
    var (diagnostic, tail) :- ReadOctetString(more);
    ReadResultTail(tail, LdapResult(code % 256, matchedDn, diagnostic, [], [], []))
  }

  function ReadSearch(s: seq<byte>): Option<SearchRequestData> {
    var (baseDn, s1) :- ReadOctetString(s);
    var (scope, s2) :- ReadEnumerated(s1);
    var (_, s3) :- ReadEnumerated(s2);
    var (sizeLimit, s4) :- ReadInteger(s3);
    var (timeLimit, s5) :- ReadInteger(s4);
    var (typesOnly, s6) :- ReadBoolean(s5);
    var (root, s7) :- ReadNode(s6);
    var (list, _) :- ReadTagged(BER_SEQUENCE, s7);
    var attributes :- ReadOctetStrings(list);
    Some(SearchRequestData(baseDn, scope, ToInt32(sizeLimit), ToInt32(timeLimit), typesOnly,
                           SearchFilter(true, root), attributes))
  }

  function ReadEntry(s: seq<byte>): Option<EntryData> {
    var (dn, rest) :- ReadOctetString(s);
    var (list, _) :- ReadTagged(BER_SEQUENCE, rest);
    var attributes :- ReadAttributes(list);
    Some(EntryData(dn, attributes))
  }

  function ReadModify(s: seq<byte>): Option<ModifyRequestData> {
    var (dn, rest) :- ReadOctetString(s);
    var (list, _) :- ReadTagged(BER_SEQUENCE, rest);
    var changes :- ReadChanges(list);
    Some(ModifyRequestData(dn, changes))
  }

  function ReadModifyDn(s: seq<byte>): Option<ModifyDnRequestData> {
    var (dn, s1) :- ReadOctetString(s);
    var (newRdn, s2) :- ReadOctetString(s1);
    var (deleteOldRdn, s3) :- ReadBoolean(s2);
    var (newSuperior, _) :- if s3 != [] && s3[0] == TAG_CONTEXT_0 then ReadTagged(TAG_CONTEXT_0, s3) else Some(([], s3));
    Some(ModifyDnRequestData(dn, newRdn, deleteOldRdn, newSuperior))
  }

  function ReadCompare(s: seq<byte>): Option<CompareRequestData> {
    var (dn, rest) :- ReadOctetString(s);
    var (ava, _) :- ReadTagged(BER_SEQUENCE, rest);
    var (attribute, more) :- ReadOctetString(ava);
    var (value, _) :- ReadOctetString(more);
    Some(CompareRequestData(dn, attribute, value))
  }

  function ReadExtended(s: seq<byte>): Option<(Text, Text)> {
    var (oid, rest) :- ReadTagged(TAG_CONTEXT_0, s);
    var (value, _) :- if rest != [] && rest[0] == TAG_CONTEXT_1 then ReadTagged(TAG_CONTEXT_1, rest) else Some(([], rest));
    Some((oid, value))
  }

  function WithResult(tag: byte, r: LdapResult): ProtocolOp {
    if tag == TAG_BIND_RESPONSE then BindResponse(r)
    else if tag == TAG_SEARCH_RESULT_DONE then SearchResultDone(r)
    else if tag == TAG_MODIFY_RESPONSE then ModifyResponse(r)
    else if tag == TAG_ADD_RESPONSE then AddResponse(r)
    else if tag == TAG_DEL_RESPONSE then DelResponse(r)
    else if tag == TAG_MODIFY_DN_RESPONSE then ModifyDnResponse(r)
    else if tag == TAG_COMPARE_RESPONSE then CompareResponse(r)
    else ExtendedResponse(r)
  }

  predicate IsResponseTag(tag: byte) {
    tag in {TAG_BIND_RESPONSE, TAG_SEARCH_RESULT_DONE, TAG_MODIFY_RESPONSE, TAG_ADD_RESPONSE, TAG_DEL_RESPONSE,
            TAG_MODIFY_DN_RESPONSE, TAG_COMPARE_RESPONSE, TAG_EXTENDED_RESPONSE}
  }

  /** The operation held by one element. */
  function OpOf(e: Tlv): Option<ProtocolOp> {
    if IsResponseTag(e.tag) then var r :- ReadResult(e.body); Some(WithResult(e.tag, r))
    else if e.tag == TAG_BIND_REQUEST then var d :- ReadBind(e.body); Some(BindRequest(d))
    else if e.tag == TAG_UNBIND_REQUEST then Some(UnbindRequest)
    else if e.tag == TAG_SEARCH_REQUEST then var d :- ReadSearch(e.body); Some(SearchRequest(d))
    else if e.tag == TAG_SEARCH_RESULT_ENTRY then var d :- ReadEntry(e.body); Some(SearchResultEntry(d))
    else if e.tag == TAG_MODIFY_REQUEST then var d :- ReadModify(e.body); Some(ModifyRequest(d))
    else if e.tag == TAG_ADD_REQUEST then var d :- ReadEntry(e.body); Some(AddRequest(d))
    else if e.tag == TAG_DEL_REQUEST then Some(DelRequest(e.body))
    else if e.tag == TAG_MODIFY_DN_REQUEST then var d :- ReadModifyDn(e.body); Some(ModifyDnRequest(d))
    else if e.tag == TAG_COMPARE_REQUEST then var d :- ReadCompare(e.body); Some(CompareRequest(d))
    else if e.tag == TAG_EXTENDED_REQUEST then var (oid, value) :- ReadExtended(e.body); Some(ExtendedRequest(oid, value))
    else Some(Unknown(NO_RESULT))
  }

  function ReadControlsField(s: seq<byte>): Option<seq<LdapControl>> {
    if s != [] && s[0] == TAG_CONTROLS then
      var (list, _) :- ReadTagged(TAG_CONTROLS, s);
      ReadControls(list)
    else Some([])
  }

  function ReadMessage(wire: seq<byte>): Option<LdapMessage> {
    var (body, _) :- ReadTagged(BER_SEQUENCE, wire);
    var (id, s) :- ReadInteger(body);
    var (e, rest) :- ReadElement(s);
    var op :- OpOf(e);
    var controls :- ReadControlsField(rest);
    Some(LdapMessage(ToInt32(id), op, controls))
  }
}
