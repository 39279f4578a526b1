/** The schemas of the nine messages modelled, the records they stand for, and the general
    codec results read off for them. Strings are byte sequences. */
module VaultMessages {
  import opened Wire
  import opened Messages
  import opened Encoding
  import opened Decoding
  import opened RoundTrip
  import opened Canonical

  /** Fields numbered 1, 2, ... in the order given; so are the fields of all nine messages. */
  function Numbered(kinds: seq<Kind>): Schema {
    Schema(seq(|kinds|, i requires 0 <= i < |kinds| => Field(i + 1, kinds[i])))
  }

  // ------------------------------------------------ common/v1

  // code, message, details
  const ErrorSchema := Numbered([Int32, Str, StrMap])
  // page_size, page_token
  const PaginationRequestSchema := Numbered([Int32, Str])
  // next_page_token, total_count
  const PaginationResponseSchema := Numbered([Str, Int32])
  // request_id, client_ip, user_agent, timestamp
  const RequestMetadataSchema := Numbered([Str, Str, Str, Int64])

  // ------------------------------------------------ audit/v1

  // path, operation, headers, body_hash
  const AuditRequestSchema := Numbered([Str, Str, StrMap, Str])
  // status_code, error, body_hash
  const AuditResponseSchema := Numbered([Int32, Str, Str])
  // event_id, timestamp, service, operation, identity, token_id, source_ip, user_agent, resource,
  // resource_type, success, error_code, error_message, metadata, request, response
  const AuditEventSchema := Numbered([
    Str, Str, Str, Str, Str, Str, Str, Str, Str, Str, Bool, Str, Str, StrMap,
    Message(AuditRequestSchema), Message(AuditResponseSchema)])
  // log_id, event, stored_at, storage_location
  const AuditLogSchema := Numbered([Str, Message(AuditEventSchema), Str, Str])
  // events
  const LogEventBatchRequestSchema := Numbered([Repeated(AuditEventSchema)])

  predicate ValidKind(kind: Kind) {
    match kind
    case Message(sub) => ValidSchema(sub)
    case Repeated(sub) => ValidSchema(sub)
    case _ => true
  }

  lemma NumberedValid(kinds: seq<Kind>)
    requires |kinds| < 0x1000_0000 && forall kind | kind in kinds :: ValidKind(kind)
    ensures ValidSchema(Numbered(kinds))
  {
    forall k | 0 <= k < |kinds| ensures ValidField(Numbered(kinds).fields[k]) {
      assert kinds[k] in kinds;
    }
  }

  lemma SchemasValid()
    ensures ValidSchema(ErrorSchema) && ValidSchema(PaginationRequestSchema)
    ensures ValidSchema(PaginationResponseSchema) && ValidSchema(RequestMetadataSchema)
    ensures ValidSchema(AuditRequestSchema) && ValidSchema(AuditResponseSchema)
    ensures ValidSchema(AuditEventSchema) && ValidSchema(AuditLogSchema)
    ensures ValidSchema(LogEventBatchRequestSchema)
  {
    hide ValidSchema, Numbered;
    NumberedValid([Int32, Str, StrMap]);
    NumberedValid([Int32, Str]);
    NumberedValid([Str, Int32]);
    NumberedValid([Str, Str, Str, Int64]);
    NumberedValid([Str, Str, StrMap, Str]);
    NumberedValid([Int32, Str, Str]);
    NumberedValid([
      Str, Str, Str, Str, Str, Str, Str, Str, Str, Str, Bool, Str, Str, StrMap,
      Message(AuditRequestSchema), Message(AuditResponseSchema)]);
    NumberedValid([Str, Message(AuditEventSchema), Str, Str]);
    NumberedValid([Repeated(AuditEventSchema)]);
  }

  /** One-byte keys up to field 15, then two bytes. */
  lemma KeyBytes(f: Field)
    requires 1 <= f.num <= 16
    ensures f.num <= 15 ==> TagOf(f) == [f.num * 8 + WireTypeOf(f.kind)]
    ensures f.num == 16 ==> TagOf(f) == [0x80 + WireTypeOf(f.kind), 0x01]
  {
    if f.num == 16 {
      var v := 128 + WireTypeOf(f.kind);
      assert EncVarint(v) == [v % 128 + 128] + EncVarint(v / 128);
    }
  }

  // ------------------------------------------------ records

  datatype Error = Error(code: int, message: bytes, details: map<bytes, bytes>, unknown: bytes)

  datatype PaginationRequest = PaginationRequest(pageSize: int, pageToken: bytes, unknown: bytes)

  datatype PaginationResponse = PaginationResponse(nextPageToken: bytes, totalCount: int, unknown: bytes)

  datatype RequestMetadata = RequestMetadata(
    requestId: bytes, clientIp: bytes, userAgent: bytes, timestamp: int, unknown: bytes)

  datatype AuditRequest = AuditRequest(
    path: bytes, operation: bytes, headers: map<bytes, bytes>, bodyHash: bytes, unknown: bytes)

  datatype AuditResponse = AuditResponse(statusCode: int, error: bytes, bodyHash: bytes, unknown: bytes)

  datatype AuditEvent = AuditEvent(
    eventId: bytes, timestamp: bytes, service: bytes, operation: bytes, identity: bytes,
    tokenId: bytes, sourceIp: bytes, userAgent: bytes, resource: bytes, resourceType: bytes,
    success: bool, errorCode: bytes, errorMessage: bytes, metadata: map<bytes, bytes>,
    request: Option<AuditRequest>, response: Option<AuditResponse>, unknown: bytes)

  datatype AuditLog = AuditLog(
    logId: bytes, event: Option<AuditEvent>, storedAt: bytes, storageLocation: bytes, unknown: bytes)

  datatype LogEventBatchRequest = LogEventBatchRequest(events: seq<AuditEvent>, unknown: bytes)

  predicate IsInt32(i: int) { -TWO_31 <= i < TWO_31 }

  predicate IsInt64(i: int) { -TWO_63 <= i < TWO_63 }

  predicate EventInRange(x: AuditEvent) { x.response.Some? ==> IsInt32(x.response.value.statusCode) }

  predicate BatchInRange(x: LogEventBatchRequest) {
    forall i | 0 <= i < |x.events| :: EventInRange(x.events[i])
  }

  predicate LogInRange(x: AuditLog) { x.event.Some? ==> EventInRange(x.event.value) }

  function ErrorMsg(x: Error): Msg {
    Msg([VInt(x.code), VStr(x.message), VMap(x.details)], x.unknown)
  }

  function PaginationRequestMsg(x: PaginationRequest): Msg {
    Msg([VInt(x.pageSize), VStr(x.pageToken)], x.unknown)
  }

  function PaginationResponseMsg(x: PaginationResponse): Msg {
    Msg([VStr(x.nextPageToken), VInt(x.totalCount)], x.unknown)
  }

  function RequestMetadataMsg(x: RequestMetadata): Msg {
    Msg([VStr(x.requestId), VStr(x.clientIp), VStr(x.userAgent), VInt(x.timestamp)], x.unknown)
  }

  function AuditRequestMsg(x: AuditRequest): Msg {
    Msg([VStr(x.path), VStr(x.operation), VMap(x.headers), VStr(x.bodyHash)], x.unknown)
  }

  function AuditResponseMsg(x: AuditResponse): Msg {
    Msg([VInt(x.statusCode), VStr(x.error), VStr(x.bodyHash)], x.unknown)
  }

  function AuditEventMsg(x: AuditEvent): Msg {
    Msg([VStr(x.eventId), VStr(x.timestamp), VStr(x.service), VStr(x.operation), VStr(x.identity),
         VStr(x.tokenId), VStr(x.sourceIp), VStr(x.userAgent), VStr(x.resource), VStr(x.resourceType),
         VBool(x.success), VStr(x.errorCode), VStr(x.errorMessage), VMap(x.metadata),
         VMsg(if x.request.None? then None else Some(AuditRequestMsg(x.request.value))),
         VMsg(if x.response.None? then None else Some(AuditResponseMsg(x.response.value)))], x.unknown)
  }

  function AuditLogMsg(x: AuditLog): Msg {
    Msg([VStr(x.logId), VMsg(if x.event.None? then None else Some(AuditEventMsg(x.event.value))),
         VStr(x.storedAt), VStr(x.storageLocation)], x.unknown)
  }

  function EventMsgs(xs: seq<AuditEvent>): (ms: seq<Msg>)
    ensures |ms| == |xs| && forall i | 0 <= i < |xs| :: ms[i] == AuditEventMsg(xs[i])
  {
    seq(|xs|, i requires 0 <= i < |xs| => AuditEventMsg(xs[i]))
  }

  function BatchMsg(x: LogEventBatchRequest): Msg {
    Msg([VRep(EventMsgs(x.events))], x.unknown)
  }

  // ------------------------------------------------ the records are typed messages

  lemma ErrorTyped(x: Error)
    ensures Typed(ErrorSchema, ErrorMsg(x)) <==> IsInt32(x.code)
  {
    assert ErrorMsg(x).vals[0] == VInt(x.code);
  }

  lemma PaginationTyped(x: PaginationRequest, y: PaginationResponse)
    ensures Typed(PaginationRequestSchema, PaginationRequestMsg(x)) <==> IsInt32(x.pageSize)
    ensures Typed(PaginationResponseSchema, PaginationResponseMsg(y)) <==> IsInt32(y.totalCount)
  {
    assert PaginationRequestMsg(x).vals[0] == VInt(x.pageSize);
    assert PaginationResponseMsg(y).vals[1] == VInt(y.totalCount);
  }

  lemma MetadataTyped(x: RequestMetadata)
    ensures Typed(RequestMetadataSchema, RequestMetadataMsg(x)) <==> IsInt64(x.timestamp)
  {
    assert RequestMetadataMsg(x).vals[3] == VInt(x.timestamp);
  }

  lemma RequestTyped(x: AuditRequest)
    ensures Typed(AuditRequestSchema, AuditRequestMsg(x))
  {}

  lemma ResponseTyped(x: AuditResponse)
    ensures Typed(AuditResponseSchema, AuditResponseMsg(x)) <==> IsInt32(x.statusCode)
  {
    assert AuditResponseMsg(x).vals[0] == VInt(x.statusCode);
  }

  lemma EventTyped(x: AuditEvent)
    requires EventInRange(x)
    ensures Typed(AuditEventSchema, AuditEventMsg(x))
  {
    var m := AuditEventMsg(x);
    if x.request.Some? {
      RequestTyped(x.request.value);
    }
    if x.response.Some? {
      ResponseTyped(x.response.value);
    }
    hide AuditRequestMsg, AuditResponseMsg;
    forall k | 0 <= k < 16 ensures TypedVal(AuditEventSchema.fields[k].kind, m.vals[k]) {
      if k == 15 {} else if k == 14 {} else {}
    }
  }

  lemma EventFaithful(x: AuditEvent, y: AuditEvent)
    requires AuditEventMsg(x) == AuditEventMsg(y)
    ensures x == y
  {}

  lemma BatchTyped(x: LogEventBatchRequest)
    requires BatchInRange(x)
    ensures Typed(LogEventBatchRequestSchema, BatchMsg(x))
  {
    forall i | 0 <= i < |x.events| ensures Typed(AuditEventSchema, AuditEventMsg(x.events[i])) {
      EventTyped(x.events[i]);
    }
    hide AuditEventMsg;
    assert BatchMsg(x).vals[0].VRep?;
  }

  lemma BatchFaithful(x: LogEventBatchRequest, y: LogEventBatchRequest)
    requires BatchMsg(x) == BatchMsg(y)
    ensures x == y
  {
    hide AuditEventMsg;
    var xs, ys := BatchMsg(x).vals[0].msgs, BatchMsg(y).vals[0].msgs;
    assert xs == ys;
    forall i | 0 <= i < |x.events| ensures x.events[i] == y.events[i] {
      assert xs[i] == AuditEventMsg(x.events[i]) && ys[i] == AuditEventMsg(y.events[i]);
      EventFaithful(x.events[i], y.events[i]);
    }
  }

  lemma LogTyped(x: AuditLog)
    requires LogInRange(x)
    ensures Typed(AuditLogSchema, AuditLogMsg(x))
  {
    if x.event.Some? {
      EventTyped(x.event.value);
    }
    hide AuditEventMsg;
    var m := AuditLogMsg(x);
    forall k | 0 <= k < 4 ensures TypedVal(AuditLogSchema.fields[k].kind, m.vals[k]) {
      if k == 1 {} else {}
    }
  }

  // ------------------------------------------------ results for the records

  ghost predicate EncodesBatch(x: LogEventBatchRequest, e: bytes)
    requires BatchInRange(x)
  {
    BatchTyped(x);
    IsEncoding(LogEventBatchRequestSchema, BatchMsg(x), e)
  }

  ghost predicate BatchUnknownsOk(x: LogEventBatchRequest)
    requires BatchInRange(x)
  {
    BatchTyped(x);
    UnknownsOk(LogEventBatchRequestSchema, BatchMsg(x))
  }

  /** A batch of events, each with its nested request and response, survives the wire: two
      batches that share an encoding are the same batch. */
  lemma BatchRoundTrip(x: LogEventBatchRequest, y: LogEventBatchRequest, e: bytes)
    requires BatchInRange(x) && BatchInRange(y) && EncodesBatch(x, e) && |e| < TWO_63
    ensures Decode(LogEventBatchRequestSchema, Empty(LogEventBatchRequestSchema), e, 0) == Ok(BatchMsg(x))
      <==> BatchUnknownsOk(x)
    ensures BatchUnknownsOk(x) && BatchUnknownsOk(y) && EncodesBatch(y, e) ==> x == y
  {
    hide Decode, UnknownsOk, IsEncoding, BatchMsg, Typed;
    SchemasValid();
    BatchTyped(x);
    BatchTyped(y);
    RoundTripExactly(LogEventBatchRequestSchema, BatchMsg(x), e);
    if BatchUnknownsOk(x) && BatchUnknownsOk(y) && EncodesBatch(y, e) {
      RoundTripExactly(LogEventBatchRequestSchema, BatchMsg(y), e);
      BatchFaithful(x, y);
    }
  }

  ghost predicate EncodesLog(x: AuditLog, e: bytes)
    requires LogInRange(x)
  {
    LogTyped(x);
    IsEncoding(AuditLogSchema, AuditLogMsg(x), e)
  }

  ghost predicate LogUnknownsOk(x: AuditLog)
    requires LogInRange(x)
  {
    LogTyped(x);
    UnknownsOk(AuditLogSchema, AuditLogMsg(x))
  }

  lemma LogRoundTrip(x: AuditLog, e: bytes)
    requires LogInRange(x) && EncodesLog(x, e) && |e| < TWO_63
    ensures Decode(AuditLogSchema, Empty(AuditLogSchema), e, 0) == Ok(AuditLogMsg(x)) <==> LogUnknownsOk(x)
  {
    hide Decode, UnknownsOk, IsEncoding, AuditLogMsg, Typed;
    SchemasValid();
    LogTyped(x);
    RoundTripExactly(AuditLogSchema, AuditLogMsg(x), e);
  }

  ghost predicate EncodesError(x: Error, e: bytes)
    requires IsInt32(x.code)
  {
    ErrorTyped(x);
    IsEncoding(ErrorSchema, ErrorMsg(x), e)
  }

  ghost predicate ErrorUnknownsOk(x: Error)
    requires IsInt32(x.code)
  {
    ErrorTyped(x);
    UnknownsOk(ErrorSchema, ErrorMsg(x))
  }

  lemma ErrorRoundTrip(x: Error, e: bytes)
    requires IsInt32(x.code) && EncodesError(x, e) && |e| < TWO_63
    ensures Decode(ErrorSchema, Empty(ErrorSchema), e, 0) == Ok(ErrorMsg(x)) <==> ErrorUnknownsOk(x)
  {
    hide Decode, UnknownsOk, IsEncoding, ErrorMsg, Typed;
    SchemasValid();
    ErrorTyped(x);
    RoundTripExactly(ErrorSchema, ErrorMsg(x), e);
  }

  lemma OneByteVarint(s: bytes)
    requires s != [] && s[0] < 128
    ensures Varint(s) == Ok((s[0], 1))
  {}

  lemma ErrorLookup()
    ensures Lookup(ErrorSchema.fields, 1, 0) == 0 && Lookup(ErrorSchema.fields, 3, 0) == 2
    ensures ErrorSchema.fields[0] == Field(1, Int32) && ErrorSchema.fields[2] == Field(3, StrMap)
  {
    var fields := ErrorSchema.fields;
    assert |fields| == 3 && fields[0].num == 1 && fields[1].num == 2 && fields[2].num == 3;
    assert Lookup(fields, 3, 2) == 2 && Lookup(fields, 3, 1) == 2;
  }

  /** A details record of `s` starting at 0 with announced end 4 and a key of two bytes. */
  lemma OverrunStep(s: bytes)
    requires |s| == 4 || |s| == 6
    requires s[..4] == [0x1a, 0x02, 0x0a, 0x02]
    ensures |s| == 4 ==> Step(ErrorSchema, Empty(ErrorSchema), s, 0).Err?
    ensures |s| == 6 ==>
      Step(ErrorSchema, Empty(ErrorSchema), s, 0) == Ok((SetVal(Empty(ErrorSchema), 2, VMap(map[s[4..6] := []])), 4))
  {
    assert s[0] == s[..4][0] && s[1] == s[..4][1] && s[2] == s[..4][2] && s[3] == s[..4][3];
    OneByteVarint(s);
    OneByteVarint(s[1..]);
    OneByteVarint(s[2..]);
    OneByteVarint(s[3..]);
    ErrorLookup();
    hide Varint, Lookup;
    assert FieldNum(0x1a) == 3 && FieldNum(0x0a) == 1;
    assert ReadLen(s, 1, 0) == Ok((2, 4));
    if |s| == 4 {
      assert ReadLen(s, 3, 0).Err?;
      assert ParseEntry(s, 2, 4, [], [], 0).Err?;
    } else {
      assert ReadLen(s, 3, 0) == Ok((4, 6));
      assert ParseEntry(s, 2, 4, [], [], 0) == Ok((s[4..6], []));
    }
    assert Empty(ErrorSchema).vals[2] == VMap(map[]);
  }

  lemma CodeStep(m: Msg)
    requires Typed(ErrorSchema, m)
    ensures Step(ErrorSchema, m, [0x08, 0x01], 4) == Ok((SetVal(m, 0, VInt(1)), 2))
  {
    var s: bytes := [0x08, 0x01];
    OneByteVarint(s);
    assert s[1..] == [0x01];
    OneByteVarint(s[1..]);
    ErrorLookup();
    hide Varint, Lookup;
    assert FieldNum(0x08) == 1;
  }

  /** An Error whose details entry announces two bytes but whose key takes the two after
      them: rejected alone, accepted when more input follows, and those bytes are then read a
      second time as field 1. */
  lemma OverrunWitness()
    ensures var a: bytes, b: bytes := [0x1a, 0x02, 0x0a, 0x02], [0x08, 0x01];
      && Decode(ErrorSchema, Empty(ErrorSchema), a, 0).Err?
      && Decode(ErrorSchema, Empty(ErrorSchema), a + b, 0) == Ok(ErrorMsg(Error(1, [], map[b := []], [])))
  {
    hide Step;
    var a: bytes, b: bytes := [0x1a, 0x02, 0x0a, 0x02], [0x08, 0x01];
    assert a[..4] == a && (a + b)[..4] == a && (a + b)[4..6] == b && (a + b)[4..] == b;
    OverrunStep(a);
    OverrunStep(a + b);
    var m := SetVal(Empty(ErrorSchema), 2, VMap(map[b := []]));
    CodeStep(m);
    assert b[2..] == [];
    assert SetVal(m, 0, VInt(1)) == ErrorMsg(Error(1, [], map[b := []], [])) by {
      assert m.vals[0] == VInt(0) && m.vals[1] == VStr([]);
      assert SetVal(m, 0, VInt(1)).vals == [VInt(1), VStr([]), VMap(map[b := []])];
    }
  }
}
