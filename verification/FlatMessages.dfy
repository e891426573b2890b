/** The message record as the code keeps it: one field for everything any operation uses. */
module FlatMessages {
  import opened Octets
  import opened Entries
  import opened Ber
  import opened Filters
  import opened Messages
  import opened MessageRoundTrip
  import opened MessageExactness

  datatype OpKind =
    | BindRequestKind | BindResponseKind | UnbindRequestKind | SearchRequestKind | SearchResultEntryKind
    | SearchResultDoneKind | ModifyRequestKind | ModifyResponseKind | AddRequestKind | AddResponseKind | DelRequestKind
    | DelResponseKind | ModifyDnRequestKind | ModifyDnResponseKind | CompareRequestKind | CompareResponseKind
    | ExtendedRequestKind | ExtendedResponseKind | UnknownKind

  datatype FlatMessage = FlatMessage(id: int32, kind: OpKind, code: ResultCode, matchedDn: Text, diagnostic: Text,
                                     bind: BindRequestData, search: SearchRequestData, entry: EntryData, add: EntryData,
                                     changing: ModifyRequestData, deleteDn: Text, moving: ModifyDnRequestData,
                                     compare: CompareRequestData, oid: Text, value: Text, saslCreds: Text,
                                     controls: seq<LdapControl>)

  const DEFAULT_BIND: BindRequestData := BindRequestData(3, [], [], true, [], [])
  const DEFAULT_SEARCH: SearchRequestData :=
    SearchRequestData([], SUBTREE, 0, 0, false, SearchFilter(true, Present(OBJECT_CLASS)), [])
  const DEFAULT_ENTRY: EntryData := EntryData([], [])
  const DEFAULT_MODIFY: ModifyRequestData := ModifyRequestData([], [])
  const DEFAULT_MOVE: ModifyDnRequestData := ModifyDnRequestData([], [], true, [])
  const DEFAULT_COMPARE: CompareRequestData := CompareRequestData([], [], [])

  function Blank(id: int32, kind: OpKind, controls: seq<LdapControl>): FlatMessage {
    FlatMessage(id, kind, SUCCESS, [], [], DEFAULT_BIND, DEFAULT_SEARCH, DEFAULT_ENTRY, DEFAULT_ENTRY, DEFAULT_MODIFY, [],
                DEFAULT_MOVE, DEFAULT_COMPARE, [], [], [], controls)
  }

  function ResultOf(f: FlatMessage): LdapResult {
    LdapResult(f.code, f.matchedDn, f.diagnostic, f.saslCreds, f.oid, f.value)
  }

  /** The operation the encoder looks at. */
  function OpOfFlat(f: FlatMessage): ProtocolOp {
    match f.kind
    case BindRequestKind => BindRequest(f.bind)
    case BindResponseKind => BindResponse(ResultOf(f))
    case UnbindRequestKind => UnbindRequest
    case SearchRequestKind => SearchRequest(f.search)
    case SearchResultEntryKind => SearchResultEntry(f.entry)
    case SearchResultDoneKind => SearchResultDone(ResultOf(f))
    case ModifyRequestKind => ModifyRequest(f.changing)
    case ModifyResponseKind => ModifyResponse(ResultOf(f))
    case AddRequestKind => AddRequest(f.add)
    case AddResponseKind => AddResponse(ResultOf(f))
    case DelRequestKind => DelRequest(f.deleteDn)
    case DelResponseKind => DelResponse(ResultOf(f))
    case ModifyDnRequestKind => ModifyDnRequest(f.moving)
    case ModifyDnResponseKind => ModifyDnResponse(ResultOf(f))
    case CompareRequestKind => CompareRequest(f.compare)
    case CompareResponseKind => CompareResponse(ResultOf(f))
    case ExtendedRequestKind => ExtendedRequest(f.oid, f.value)
    case ExtendedResponseKind => ExtendedResponse(ResultOf(f))
    case UnknownKind => Unknown(ResultOf(f))
  }

  function View(f: FlatMessage): LdapMessage {
    LdapMessage(f.id, OpOfFlat(f), f.controls)
  }

  function WithResultFields(f: FlatMessage, r: LdapResult): FlatMessage {
    f.(code := r.code, matchedDn := r.matchedDn, diagnostic := r.diagnostic, saslCreds := r.saslCreds, oid := r.oid,
       value := r.value)
  }

  /** The record the decoder fills: a default one with the operation's fields set. */
  function Flat(m: LdapMessage): FlatMessage {
    match m.op
    case BindRequest(d) => Blank(m.id, BindRequestKind, m.controls).(bind := d)
    case BindResponse(r) => WithResultFields(Blank(m.id, BindResponseKind, m.controls), r)
    case UnbindRequest => Blank(m.id, UnbindRequestKind, m.controls)
    case SearchRequest(d) => Blank(m.id, SearchRequestKind, m.controls).(search := d)
    case SearchResultEntry(d) => Blank(m.id, SearchResultEntryKind, m.controls).(entry := d)
    case SearchResultDone(r) => WithResultFields(Blank(m.id, SearchResultDoneKind, m.controls), r)
    case ModifyRequest(d) => Blank(m.id, ModifyRequestKind, m.controls).(changing := d)
    case ModifyResponse(r) => WithResultFields(Blank(m.id, ModifyResponseKind, m.controls), r)
    case AddRequest(d) => Blank(m.id, AddRequestKind, m.controls).(add := d)
    case AddResponse(r) => WithResultFields(Blank(m.id, AddResponseKind, m.controls), r)
    case DelRequest(dn) => Blank(m.id, DelRequestKind, m.controls).(deleteDn := dn)
    case DelResponse(r) => WithResultFields(Blank(m.id, DelResponseKind, m.controls), r)
    case ModifyDnRequest(d) => Blank(m.id, ModifyDnRequestKind, m.controls).(moving := d)
    case ModifyDnResponse(r) => WithResultFields(Blank(m.id, ModifyDnResponseKind, m.controls), r)
    case CompareRequest(d) => Blank(m.id, CompareRequestKind, m.controls).(compare := d)
    case CompareResponse(r) => WithResultFields(Blank(m.id, CompareResponseKind, m.controls), r)
    case ExtendedRequest(oid, value) => Blank(m.id, ExtendedRequestKind, m.controls).(oid := oid, value := value)
    case ExtendedResponse(r) => WithResultFields(Blank(m.id, ExtendedResponseKind, m.controls), r)
    case Unknown(r) => WithResultFields(Blank(m.id, UnknownKind, m.controls), r)
  }

  lemma ViewOfRequest(m: LdapMessage)
    requires m.op.BindRequest? || m.op.UnbindRequest? || m.op.SearchRequest? || m.op.SearchResultEntry? || m.op.ModifyRequest?
    ensures View(Flat(m)) == m
  {
  }

  lemma ViewOfUpdate(m: LdapMessage)
    requires m.op.AddRequest? || m.op.DelRequest? || m.op.ModifyDnRequest? || m.op.CompareRequest? || m.op.ExtendedRequest?
    ensures View(Flat(m)) == m
  {
  }

  lemma ViewOfResponse(m: LdapMessage)
    requires m.op.BindResponse? || m.op.SearchResultDone? || m.op.ModifyResponse? || m.op.AddResponse? || m.op.DelResponse?
    ensures View(Flat(m)) == m
  {
  }

  lemma ViewOfOtherResponse(m: LdapMessage)
    requires m.op.ModifyDnResponse? || m.op.CompareResponse? || m.op.ExtendedResponse? || m.op.Unknown?
    ensures View(Flat(m)) == m
  {
  }

  lemma ViewOfFlat(m: LdapMessage)
    ensures View(Flat(m)) == m
  {
    hide View, Flat;
    if m.op.BindRequest? || m.op.UnbindRequest? || m.op.SearchRequest? || m.op.SearchResultEntry? || m.op.ModifyRequest? {
      ViewOfRequest(m);
    } else if m.op.AddRequest? || m.op.DelRequest? || m.op.ModifyDnRequest? || m.op.CompareRequest? || m.op.ExtendedRequest? {
      ViewOfUpdate(m);
    } else if m.op.BindResponse? || m.op.SearchResultDone? || m.op.ModifyResponse? || m.op.AddResponse? || m.op.DelResponse? {
      ViewOfResponse(m);
    } else {
      ViewOfOtherResponse(m);
    }
  }

  predicate CarriesResult(kind: OpKind) {
    kind in {BindResponseKind, SearchResultDoneKind, ModifyResponseKind, AddResponseKind, DelResponseKind,
             ModifyDnResponseKind, CompareResponseKind, ExtendedResponseKind, UnknownKind}
  }

  /** Every field the operation does not use holds its default. */
  predicate UnusedAtDefaults(f: FlatMessage) {
    && (!CarriesResult(f.kind) ==> f.code == SUCCESS && f.matchedDn == [] && f.diagnostic == [] && f.saslCreds == [])
    && (!CarriesResult(f.kind) && f.kind != ExtendedRequestKind ==> f.oid == [] && f.value == [])
    && (f.kind != BindRequestKind ==> f.bind == DEFAULT_BIND)
    && (f.kind != SearchRequestKind ==> f.search == DEFAULT_SEARCH)
    && (f.kind != SearchResultEntryKind ==> f.entry == DEFAULT_ENTRY)
    && (f.kind != AddRequestKind ==> f.add == DEFAULT_ENTRY)
    && (f.kind != ModifyRequestKind ==> f.changing == DEFAULT_MODIFY)
    && (f.kind != DelRequestKind ==> f.deleteDn == [])
    && (f.kind != ModifyDnRequestKind ==> f.moving == DEFAULT_MOVE)
    && (f.kind != CompareRequestKind ==> f.compare == DEFAULT_COMPARE)
  }

  /** The record with every unused field back at its default. */
  function Reset(f: FlatMessage): FlatMessage {
    var result, named := CarriesResult(f.kind), CarriesResult(f.kind) || f.kind == ExtendedRequestKind;
    FlatMessage(f.id, f.kind,
                if result then f.code else SUCCESS, if result then f.matchedDn else [], if result then f.diagnostic else [],
                if f.kind == BindRequestKind then f.bind else DEFAULT_BIND,
                if f.kind == SearchRequestKind then f.search else DEFAULT_SEARCH,
                if f.kind == SearchResultEntryKind then f.entry else DEFAULT_ENTRY,
                if f.kind == AddRequestKind then f.add else DEFAULT_ENTRY,
                if f.kind == ModifyRequestKind then f.changing else DEFAULT_MODIFY,
                if f.kind == DelRequestKind then f.deleteDn else [],
                if f.kind == ModifyDnRequestKind then f.moving else DEFAULT_MOVE,
                if f.kind == CompareRequestKind then f.compare else DEFAULT_COMPARE,
                if named then f.oid else [], if named then f.value else [], if result then f.saslCreds else [], f.controls)
  }

  lemma FlatResult(f: FlatMessage)
    requires f.kind in {BindResponseKind, SearchResultDoneKind, ModifyResponseKind, AddResponseKind}
    ensures Flat(View(f)) == Reset(f)
  {
  }

  lemma FlatOtherResult(f: FlatMessage)
    requires f.kind in {DelResponseKind, ModifyDnResponseKind, CompareResponseKind, ExtendedResponseKind, UnknownKind}
    ensures Flat(View(f)) == Reset(f)
  {
  }

  lemma FlatRequest(f: FlatMessage)
    requires f.kind in {BindRequestKind, UnbindRequestKind, SearchRequestKind, SearchResultEntryKind, ModifyRequestKind}
    ensures Flat(View(f)) == Reset(f)
  {
  }

  lemma FlatUpdate(f: FlatMessage)
    requires f.kind in {AddRequestKind, DelRequestKind, ModifyDnRequestKind, CompareRequestKind, ExtendedRequestKind}
    ensures Flat(View(f)) == Reset(f)
  {
  }

  lemma ResetKeeps(f: FlatMessage)
    ensures UnusedAtDefaults(f) <==> Reset(f) == f
  {
    hide CarriesResult;
  }

  lemma UnusedIsFlat(f: FlatMessage)
    ensures UnusedAtDefaults(f) <==> Flat(View(f)) == f
  {
    hide Flat, View, Reset, UnusedAtDefaults, CarriesResult;
    ResetKeeps(f);
    match f.kind
    case BindRequestKind | UnbindRequestKind | SearchRequestKind | SearchResultEntryKind | ModifyRequestKind => FlatRequest(f);
    case AddRequestKind | DelRequestKind | ModifyDnRequestKind | CompareRequestKind | ExtendedRequestKind => FlatUpdate(f);
    case BindResponseKind | SearchResultDoneKind | ModifyResponseKind | AddResponseKind => FlatResult(f);
    case _ => FlatOtherResult(f);
  }

  function EncodeFlat(f: FlatMessage): seq<byte> {
    MessageBytes(View(f))
  }

  function DecodeFlat(wire: seq<byte>): Option<FlatMessage> {
    match ReadMessage(wire)
    case None => None
    case Some(m) => Some(Flat(m))
  }

  /** A record below 2^32 octets survives the wire exactly when its operation is canonical and every field that
      operation does not use holds its default. */
  lemma FlatSurvivesExactly(f: FlatMessage, tail: seq<byte>)
    requires |MessageBody(View(f))| < TWO_32
    ensures DecodeFlat(EncodeFlat(f) + tail) == Some(f) <==> CanonicalOp(OpOfFlat(f)) && UnusedAtDefaults(f)
  {
    hide ReadMessage, MessageBytes, MessageBody, CanonicalOp, Flat, UnusedAtDefaults, OpOfFlat;
    var m := View(f);
    MessageSurvivesExactly(m, tail);
    UnusedIsFlat(f);
    match ReadMessage(MessageBytes(m) + tail)
    case None =>
    case Some(decoded) => ViewOfFlat(decoded);
  }

  function Views(fs: seq<FlatMessage>): seq<LdapMessage> {
    seq(|fs|, i requires 0 <= i < |fs| => View(fs[i]))
  }

  function Flats(ms: seq<LdapMessage>): seq<FlatMessage> {
    seq(|ms|, i requires 0 <= i < |ms| => Flat(ms[i]))
  }

  /** Any list of such records, encoded one after the other, is received as exactly that list. */
  lemma FlatStreamRoundTrip(fs: seq<FlatMessage>, maxPduSize: nat)
    requires forall f <- fs :: CanonicalOp(OpOfFlat(f)) && UnusedAtDefaults(f)
    requires forall f <- fs :: |MessageBody(View(f))| < TWO_32 && |MessageBody(View(f))| <= maxPduSize
    requires 0 < maxPduSize
    ensures Flats(ReceiveAll(StreamBytes(Views(fs)), maxPduSize)) == fs
  {
    hide MessageBody, CanonicalOp, Flat, UnusedAtDefaults, OpOfFlat, ReceiveAll, StreamBytes;
    var ms := Views(fs);
    forall i | 0 <= i < |ms| ensures Canonical(ms[i]) && |MessageBody(ms[i])| <= maxPduSize {
      assert fs[i] in fs;
    }
    StreamRoundTrip(ms, [], maxPduSize);
    assert StreamBytes(ms) + [] == StreamBytes(ms);
    NothingPending(maxPduSize);
    assert ms + [] == ms;
    forall i | 0 <= i < |fs| ensures Flats(ms)[i] == fs[i] {
      assert fs[i] in fs;
      UnusedIsFlat(fs[i]);
    }
  }

  lemma NothingPending(maxPduSize: nat)
    ensures ReceiveAll([], maxPduSize) == []
  {
  }
}
