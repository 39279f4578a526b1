/** The wire formats of the nine messages, byte for byte: every field by its name with the key
    bytes that the generated code writes. A record has an encoding exactly when its integers
    fit their Go types, and its encodings are exactly the byte strings of its form. */
module VaultFormats {
  import opened Wire
  import opened Messages
  import opened Encoding
  import opened VaultMessages
  import opened WireForms

  /** `e` encodes message `m` of schema `sch`. */
  ghost predicate Encodes(sch: Schema, m: Msg, e: bytes) {
    Typed(sch, m) && IsEncoding(sch, m, e)
  }

  // ------------------------------------------------ the forms

  predicate PaginationRequestForm(x: PaginationRequest, e: bytes) {
    IsInt32(x.pageSize) &&
    e == Concat([IntPart([0x08], x.pageSize), StrPart([0x12], x.pageToken)]) + x.unknown
  }

  predicate PaginationResponseForm(x: PaginationResponse, e: bytes) {
    IsInt32(x.totalCount) &&
    e == Concat([StrPart([0x0a], x.nextPageToken), IntPart([0x10], x.totalCount)]) + x.unknown
  }

  predicate RequestMetadataForm(x: RequestMetadata, e: bytes) {
    IsInt64(x.timestamp) &&
    e == Concat([StrPart([0x0a], x.requestId), StrPart([0x12], x.clientIp), StrPart([0x1a], x.userAgent),
                 IntPart([0x20], x.timestamp)]) + x.unknown
  }

  ghost predicate ErrorForm(x: Error, e: bytes) {
    IsInt32(x.code) && exists details ::
      && MapPart([0x1a], x.details, details)
      && e == Concat([IntPart([0x08], x.code), StrPart([0x12], x.message), details]) + x.unknown
  }

  ghost predicate AuditRequestForm(x: AuditRequest, e: bytes) {
    exists headers ::
      && MapPart([0x1a], x.headers, headers)
      && e == Concat([StrPart([0x0a], x.path), StrPart([0x12], x.operation), headers,
                      StrPart([0x22], x.bodyHash)]) + x.unknown
  }

  predicate AuditResponseForm(x: AuditResponse, e: bytes) {
    IsInt32(x.statusCode) &&
    e == Concat([IntPart([0x08], x.statusCode), StrPart([0x12], x.error), StrPart([0x1a], x.bodyHash)]) + x.unknown
  }

  /** Absent, or a record of an encoded request. */
  ghost predicate RequestPart(x: Option<AuditRequest>, p: bytes) {
    if x.None? then p == [] else exists body :: AuditRequestForm(x.value, body) && p == LenPart([0x7a], body)
  }

  ghost predicate ResponsePart(x: Option<AuditResponse>, p: bytes) {
    if x.None? then p == [] else exists body :: AuditResponseForm(x.value, body) && p == LenPart([0x82, 0x01], body)
  }

  /** The sixteen fields of an event, given the parts of its map and its two submessages. */
  function EventParts(x: AuditEvent, metadata: bytes, request: bytes, response: bytes): (parts: seq<bytes>)
    ensures |parts| == 16
  {
    [StrPart([0x0a], x.eventId), StrPart([0x12], x.timestamp), StrPart([0x1a], x.service),
     StrPart([0x22], x.operation), StrPart([0x2a], x.identity), StrPart([0x32], x.tokenId),
     StrPart([0x3a], x.sourceIp), StrPart([0x42], x.userAgent), StrPart([0x4a], x.resource),
     StrPart([0x52], x.resourceType), BoolPart([0x58], x.success), StrPart([0x62], x.errorCode),
     StrPart([0x6a], x.errorMessage), metadata, request, response]
  }

  ghost predicate AuditEventForm(x: AuditEvent, e: bytes) {
    exists metadata, request, response ::
      && MapPart([0x72], x.metadata, metadata)
      && RequestPart(x.request, request) && ResponsePart(x.response, response)
      && e == Concat(EventParts(x, metadata, request, response)) + x.unknown
  }

  ghost predicate EventPart(x: Option<AuditEvent>, p: bytes) {
    if x.None? then p == [] else exists body :: AuditEventForm(x.value, body) && p == LenPart([0x12], body)
  }

  ghost predicate AuditLogForm(x: AuditLog, e: bytes) {
    exists event ::
      && EventPart(x.event, event)
      && e == Concat([StrPart([0x0a], x.logId), event, StrPart([0x1a], x.storedAt),
                      StrPart([0x22], x.storageLocation)]) + x.unknown
  }

  ghost predicate EventForms(xs: seq<AuditEvent>, bodies: seq<bytes>) {
    |bodies| == |xs| && forall i | 0 <= i < |xs| :: AuditEventForm(xs[i], bodies[i])
  }

  ghost predicate BatchForm(x: LogEventBatchRequest, e: bytes) {
    exists bodies :: EventForms(x.events, bodies) && e == Records([0x0a], bodies) + x.unknown
  }

  // ------------------------------------------------ one field

  lemma IntField(f: Field, i: int, p: bytes)
    requires (f.kind.Int32? || f.kind.Int64?) && TypedVal(f.kind, VInt(i)) && 1 <= f.num <= 15
    ensures EncodesVal(f, VInt(i), p) <==> p == IntPart([f.num * 8], i)
  {
    hide EncVarint, TagOf;
    KeyBytes(f);
  }

  lemma StrField(f: Field, s: bytes, p: bytes)
    requires f.kind.Str? && 1 <= f.num <= 15
    ensures EncodesVal(f, VStr(s), p) <==> p == StrPart([f.num * 8 + 2], s)
  {
    hide EncVarint, TagOf;
    KeyBytes(f);
  }

  lemma BoolField(f: Field, b: bool, p: bytes)
    requires f.kind.Bool? && 1 <= f.num <= 15
    ensures EncodesVal(f, VBool(b), p) <==> p == BoolPart([f.num * 8], b)
  {
    hide TagOf;
    KeyBytes(f);
  }

  lemma MapField(f: Field, m: map<bytes, bytes>, p: bytes)
    requires f.kind.StrMap? && 1 <= f.num <= 15
    ensures EncodesVal(f, VMap(m), p) <==> MapPart([f.num * 8 + 2], m, p)
  {
    hide TagOf, EncodesMap, MapPart;
    KeyBytes(f);
    MapExactly(TagOf(f), m, p);
  }

  lemma MsgField(f: Field, x: Option<Msg>, p: bytes)
    requires f.kind.Message? && TypedVal(f.kind, VMsg(x)) && 1 <= f.num <= 16
    ensures var key: bytes := if f.num == 16 then [0x82, 0x01] else [f.num * 8 + 2];
      EncodesVal(f, VMsg(x), p) <==> if x.None? then p == [] else SubPart(f.kind.schema, key, x.value, p)
  {
    hide TagOf, EncodesMsg, SubPart;
    KeyBytes(f);
    if x.Some? {
      MsgExactly(f, x.value, p);
    }
  }

  // ------------------------------------------------ results

  lemma PartsCount(sch: Schema, m: Msg, parts: seq<bytes>)
    requires Typed(sch, m) && IsParts(sch, m, 0, parts)
    ensures |parts| == |sch.fields|
  {}

  lemma PaginationRequestFields(x: PaginationRequest, parts: seq<bytes>)
    requires IsInt32(x.pageSize) && Typed(PaginationRequestSchema, PaginationRequestMsg(x)) && |parts| == 2
    ensures IsParts(PaginationRequestSchema, PaginationRequestMsg(x), 0, parts) <==>
      && parts[0] == IntPart([0x08], x.pageSize)
      && parts[1] == StrPart([0x12], x.pageToken)
  {
    hide EncodesVal, IntPart, StrPart, MapPart;
    var fields, vals := PaginationRequestSchema.fields, PaginationRequestMsg(x).vals;
    assert fields[0] == Field(1, Int32) && vals[0] == VInt(x.pageSize);
    assert fields[1] == Field(2, Str) && vals[1] == VStr(x.pageToken);
    IntField(Field(1, Int32), x.pageSize, parts[0]);
    StrField(Field(2, Str), x.pageToken, parts[1]);
  }

  lemma PaginationRequestExactly(x: PaginationRequest, e: bytes)
    ensures Encodes(PaginationRequestSchema, PaginationRequestMsg(x), e) <==> PaginationRequestForm(x, e)
  {
    PaginationTyped(x, PaginationResponse([], 0, []));
    hide IsEncoding, IntPart, StrPart, MapPart, Concat, IsParts, Typed;
    if IsInt32(x.pageSize) {
      PartsExactly(PaginationRequestSchema, PaginationRequestMsg(x), e);
      PaginationRequestFields(x, [IntPart([0x08], x.pageSize), StrPart([0x12], x.pageToken)]);
      forall parts | IsParts(PaginationRequestSchema, PaginationRequestMsg(x), 0, parts) ensures parts == [IntPart([0x08], x.pageSize), StrPart([0x12], x.pageToken)] {
        PartsCount(PaginationRequestSchema, PaginationRequestMsg(x), parts);
        PaginationRequestFields(x, parts);
      }
    }
  }

  lemma PaginationResponseFields(x: PaginationResponse, parts: seq<bytes>)
    requires IsInt32(x.totalCount) && Typed(PaginationResponseSchema, PaginationResponseMsg(x)) && |parts| == 2
    ensures IsParts(PaginationResponseSchema, PaginationResponseMsg(x), 0, parts) <==>
      && parts[0] == StrPart([0x0a], x.nextPageToken)
      && parts[1] == IntPart([0x10], x.totalCount)
  {
    hide EncodesVal, IntPart, StrPart, MapPart;
    var fields, vals := PaginationResponseSchema.fields, PaginationResponseMsg(x).vals;
    assert fields[0] == Field(1, Str) && vals[0] == VStr(x.nextPageToken);
    assert fields[1] == Field(2, Int32) && vals[1] == VInt(x.totalCount);
    StrField(Field(1, Str), x.nextPageToken, parts[0]);
    IntField(Field(2, Int32), x.totalCount, parts[1]);
  }

  lemma PaginationResponseExactly(x: PaginationResponse, e: bytes)
    ensures Encodes(PaginationResponseSchema, PaginationResponseMsg(x), e) <==> PaginationResponseForm(x, e)
  {
    PaginationTyped(PaginationRequest(0, [], []), x);
    hide IsEncoding, IntPart, StrPart, MapPart, Concat, IsParts, Typed;
    if IsInt32(x.totalCount) {
      PartsExactly(PaginationResponseSchema, PaginationResponseMsg(x), e);
      PaginationResponseFields(x, [StrPart([0x0a], x.nextPageToken), IntPart([0x10], x.totalCount)]);
      forall parts | IsParts(PaginationResponseSchema, PaginationResponseMsg(x), 0, parts) ensures parts == [StrPart([0x0a], x.nextPageToken), IntPart([0x10], x.totalCount)] {
        PartsCount(PaginationResponseSchema, PaginationResponseMsg(x), parts);
        PaginationResponseFields(x, parts);
      }
    }
  }

  lemma RequestMetadataFields(x: RequestMetadata, parts: seq<bytes>)
    requires IsInt64(x.timestamp) && Typed(RequestMetadataSchema, RequestMetadataMsg(x)) && |parts| == 4
    ensures IsParts(RequestMetadataSchema, RequestMetadataMsg(x), 0, parts) <==>
      && parts[0] == StrPart([0x0a], x.requestId)
      && parts[1] == StrPart([0x12], x.clientIp)
      && parts[2] == StrPart([0x1a], x.userAgent)
      && parts[3] == IntPart([0x20], x.timestamp)
  {
    hide EncodesVal, IntPart, StrPart, MapPart;
    var fields, vals := RequestMetadataSchema.fields, RequestMetadataMsg(x).vals;
    assert fields[0] == Field(1, Str) && vals[0] == VStr(x.requestId);
    assert fields[1] == Field(2, Str) && vals[1] == VStr(x.clientIp);
    assert fields[2] == Field(3, Str) && vals[2] == VStr(x.userAgent);
    assert fields[3] == Field(4, Int64) && vals[3] == VInt(x.timestamp);
    StrField(Field(1, Str), x.requestId, parts[0]);
    StrField(Field(2, Str), x.clientIp, parts[1]);
    StrField(Field(3, Str), x.userAgent, parts[2]);
    IntField(Field(4, Int64), x.timestamp, parts[3]);
  }

  lemma RequestMetadataExactly(x: RequestMetadata, e: bytes)
    ensures Encodes(RequestMetadataSchema, RequestMetadataMsg(x), e) <==> RequestMetadataForm(x, e)
  {
    MetadataTyped(x);
    hide IsEncoding, IntPart, StrPart, MapPart, Concat, IsParts, Typed;
    if IsInt64(x.timestamp) {
      PartsExactly(RequestMetadataSchema, RequestMetadataMsg(x), e);
      RequestMetadataFields(x, [StrPart([0x0a], x.requestId), StrPart([0x12], x.clientIp), StrPart([0x1a], x.userAgent), IntPart([0x20], x.timestamp)]);
      forall parts | IsParts(RequestMetadataSchema, RequestMetadataMsg(x), 0, parts) ensures parts == [StrPart([0x0a], x.requestId), StrPart([0x12], x.clientIp), StrPart([0x1a], x.userAgent), IntPart([0x20], x.timestamp)] {
        PartsCount(RequestMetadataSchema, RequestMetadataMsg(x), parts);
        RequestMetadataFields(x, parts);
      }
    }
  }

  lemma ErrorFields(x: Error, parts: seq<bytes>)
    requires IsInt32(x.code) && Typed(ErrorSchema, ErrorMsg(x)) && |parts| == 3
    ensures IsParts(ErrorSchema, ErrorMsg(x), 0, parts) <==>
      && parts[0] == IntPart([0x08], x.code)
      && parts[1] == StrPart([0x12], x.message)
      && MapPart([0x1a], x.details, parts[2])
  {
    hide EncodesVal, IntPart, StrPart, MapPart;
    var fields, vals := ErrorSchema.fields, ErrorMsg(x).vals;
    assert fields[0] == Field(1, Int32) && vals[0] == VInt(x.code);
    assert fields[1] == Field(2, Str) && vals[1] == VStr(x.message);
    assert fields[2] == Field(3, StrMap) && vals[2] == VMap(x.details);
    IntField(Field(1, Int32), x.code, parts[0]);
    StrField(Field(2, Str), x.message, parts[1]);
    MapField(Field(3, StrMap), x.details, parts[2]);
  }

  lemma ErrorExactly(x: Error, e: bytes)
    ensures Encodes(ErrorSchema, ErrorMsg(x), e) <==> ErrorForm(x, e)
  {
    ErrorTyped(x);
    hide IsEncoding, IntPart, StrPart, MapPart, Concat, IsParts, Typed;
    if IsInt32(x.code) {
      PartsExactly(ErrorSchema, ErrorMsg(x), e);
      forall parts | IsParts(ErrorSchema, ErrorMsg(x), 0, parts)
        ensures |parts| == 3 && MapPart([0x1a], x.details, parts[2]) && parts == [IntPart([0x08], x.code), StrPart([0x12], x.message), parts[2]]
      {
        PartsCount(ErrorSchema, ErrorMsg(x), parts);
        ErrorFields(x, parts);
      }
      forall details | MapPart([0x1a], x.details, details)
        ensures IsParts(ErrorSchema, ErrorMsg(x), 0, [IntPart([0x08], x.code), StrPart([0x12], x.message), details])
      {
        ErrorFields(x, [IntPart([0x08], x.code), StrPart([0x12], x.message), details]);
      }
    }
  }

  lemma AuditRequestFields(x: AuditRequest, parts: seq<bytes>)
    requires Typed(AuditRequestSchema, AuditRequestMsg(x)) && |parts| == 4
    ensures IsParts(AuditRequestSchema, AuditRequestMsg(x), 0, parts) <==>
      && parts[0] == StrPart([0x0a], x.path)
      && parts[1] == StrPart([0x12], x.operation)
      && MapPart([0x1a], x.headers, parts[2])
      && parts[3] == StrPart([0x22], x.bodyHash)
  {
    hide EncodesVal, IntPart, StrPart, MapPart;
    var fields, vals := AuditRequestSchema.fields, AuditRequestMsg(x).vals;
    assert fields[0] == Field(1, Str) && vals[0] == VStr(x.path);
    assert fields[1] == Field(2, Str) && vals[1] == VStr(x.operation);
    assert fields[2] == Field(3, StrMap) && vals[2] == VMap(x.headers);
    assert fields[3] == Field(4, Str) && vals[3] == VStr(x.bodyHash);
    StrField(Field(1, Str), x.path, parts[0]);
    StrField(Field(2, Str), x.operation, parts[1]);
    MapField(Field(3, StrMap), x.headers, parts[2]);
    StrField(Field(4, Str), x.bodyHash, parts[3]);
  }

  lemma AuditRequestExactly(x: AuditRequest, e: bytes)
    ensures Encodes(AuditRequestSchema, AuditRequestMsg(x), e) <==> AuditRequestForm(x, e)
  {
    RequestTyped(x);
    hide IsEncoding, IntPart, StrPart, MapPart, Concat, IsParts, Typed;
    PartsExactly(AuditRequestSchema, AuditRequestMsg(x), e);
    forall parts | IsParts(AuditRequestSchema, AuditRequestMsg(x), 0, parts)
      ensures |parts| == 4 && MapPart([0x1a], x.headers, parts[2]) && parts == [StrPart([0x0a], x.path), StrPart([0x12], x.operation), parts[2], StrPart([0x22], x.bodyHash)]
    {
      PartsCount(AuditRequestSchema, AuditRequestMsg(x), parts);
      AuditRequestFields(x, parts);
    }
    forall headers | MapPart([0x1a], x.headers, headers)
      ensures IsParts(AuditRequestSchema, AuditRequestMsg(x), 0, [StrPart([0x0a], x.path), StrPart([0x12], x.operation), headers, StrPart([0x22], x.bodyHash)])
    {
      AuditRequestFields(x, [StrPart([0x0a], x.path), StrPart([0x12], x.operation), headers, StrPart([0x22], x.bodyHash)]);
    }
  }

  lemma AuditResponseFields(x: AuditResponse, parts: seq<bytes>)
    requires IsInt32(x.statusCode) && Typed(AuditResponseSchema, AuditResponseMsg(x)) && |parts| == 3
    ensures IsParts(AuditResponseSchema, AuditResponseMsg(x), 0, parts) <==>
      && parts[0] == IntPart([0x08], x.statusCode)
      && parts[1] == StrPart([0x12], x.error)
      && parts[2] == StrPart([0x1a], x.bodyHash)
  {
    hide EncodesVal, IntPart, StrPart, MapPart;
    var fields, vals := AuditResponseSchema.fields, AuditResponseMsg(x).vals;
    assert fields[0] == Field(1, Int32) && vals[0] == VInt(x.statusCode);
    assert fields[1] == Field(2, Str) && vals[1] == VStr(x.error);
    assert fields[2] == Field(3, Str) && vals[2] == VStr(x.bodyHash);
    IntField(Field(1, Int32), x.statusCode, parts[0]);
    StrField(Field(2, Str), x.error, parts[1]);
    StrField(Field(3, Str), x.bodyHash, parts[2]);
  }

  lemma AuditResponseExactly(x: AuditResponse, e: bytes)
    ensures Encodes(AuditResponseSchema, AuditResponseMsg(x), e) <==> AuditResponseForm(x, e)
  {
    ResponseTyped(x);
    hide IsEncoding, IntPart, StrPart, MapPart, Concat, IsParts, Typed;
    if IsInt32(x.statusCode) {
      PartsExactly(AuditResponseSchema, AuditResponseMsg(x), e);
      AuditResponseFields(x, [IntPart([0x08], x.statusCode), StrPart([0x12], x.error), StrPart([0x1a], x.bodyHash)]);
      forall parts | IsParts(AuditResponseSchema, AuditResponseMsg(x), 0, parts) ensures parts == [IntPart([0x08], x.statusCode), StrPart([0x12], x.error), StrPart([0x1a], x.bodyHash)] {
        PartsCount(AuditResponseSchema, AuditResponseMsg(x), parts);
        AuditResponseFields(x, parts);
      }
    }
  }

  function RequestMsgOf(x: AuditEvent): Option<Msg> {
    if x.request.None? then None else Some(AuditRequestMsg(x.request.value))
  }

  function ResponseMsgOf(x: AuditEvent): Option<Msg> {
    if x.response.None? then None else Some(AuditResponseMsg(x.response.value))
  }

  lemma RequestSub(x: AuditRequest, p: bytes)
    ensures Typed(AuditRequestSchema, AuditRequestMsg(x))
    ensures SubPart(AuditRequestSchema, [0x7a], AuditRequestMsg(x), p) <==> RequestPart(Some(x), p)
  {
    RequestTyped(x);
    hide AuditRequestMsg, AuditRequestForm, IsEncoding, Typed, LenPart;
    forall body ensures IsEncoding(AuditRequestSchema, AuditRequestMsg(x), body) <==> AuditRequestForm(x, body) {
      AuditRequestExactly(x, body);
    }
  }

  lemma RequestField(x: AuditEvent, p: bytes)
    ensures var f := Field(15, Message(AuditRequestSchema));
      TypedVal(f.kind, VMsg(RequestMsgOf(x))) && (EncodesVal(f, VMsg(RequestMsgOf(x)), p) <==> RequestPart(x.request, p))
  {
    hide AuditRequestMsg, AuditRequestForm, EncodesVal, Typed, LenPart, SubPart;
    if x.request.Some? {
      RequestSub(x.request.value, p);
    }
    MsgField(Field(15, Message(AuditRequestSchema)), RequestMsgOf(x), p);
  }

  lemma ResponseSub(x: AuditResponse, p: bytes)
    requires IsInt32(x.statusCode)
    ensures Typed(AuditResponseSchema, AuditResponseMsg(x))
    ensures SubPart(AuditResponseSchema, [0x82, 0x01], AuditResponseMsg(x), p) <==> ResponsePart(Some(x), p)
  {
    ResponseTyped(x);
    hide AuditResponseMsg, AuditResponseForm, IsEncoding, Typed, LenPart;
    forall body ensures IsEncoding(AuditResponseSchema, AuditResponseMsg(x), body) <==> AuditResponseForm(x, body) {
      AuditResponseExactly(x, body);
    }
  }

  lemma ResponseField(x: AuditEvent, p: bytes)
    requires EventInRange(x)
    ensures var f := Field(16, Message(AuditResponseSchema));
      TypedVal(f.kind, VMsg(ResponseMsgOf(x))) && (EncodesVal(f, VMsg(ResponseMsgOf(x)), p) <==> ResponsePart(x.response, p))
  {
    hide AuditResponseMsg, AuditResponseForm, EncodesVal, Typed, LenPart, SubPart;
    if x.response.Some? {
      ResponseSub(x.response.value, p);
    }
    MsgField(Field(16, Message(AuditResponseSchema)), ResponseMsgOf(x), p);
  }

  /** The strings before the map; the eleventh field is not one. */
  function EventStrings(x: AuditEvent): seq<bytes> {
    [x.eventId, x.timestamp, x.service, x.operation, x.identity, x.tokenId, x.sourceIp, x.userAgent, x.resource,
     x.resourceType, [], x.errorCode, x.errorMessage]
  }

  /** What the schema and the record say of each field. */
  lemma EventLayout(x: AuditEvent, j: nat)
    requires j < 16
    ensures var fields, vals := AuditEventSchema.fields, AuditEventMsg(x).vals;
      && |fields| == 16 == |vals|
      && (j < 13 && j != 10 ==> fields[j] == Field(j + 1, Str) && vals[j] == VStr(EventStrings(x)[j]))
      && (j == 10 ==> fields[j] == Field(11, Bool) && vals[j] == VBool(x.success))
      && (j == 13 ==> fields[j] == Field(14, StrMap) && vals[j] == VMap(x.metadata))
      && (j == 14 ==> fields[j] == Field(15, Message(AuditRequestSchema)) && vals[j] == VMsg(RequestMsgOf(x)))
      && (j == 15 ==> fields[j] == Field(16, Message(AuditResponseSchema)) && vals[j] == VMsg(ResponseMsgOf(x)))
  {}

  /** What part `j` of an encoded event has to be. */
  ghost predicate EventPartAt(x: AuditEvent, parts: seq<bytes>, j: nat)
    requires |parts| == 16 && j < 16
  {
    if j == 13 then MapPart([0x72], x.metadata, parts[j])
    else if j == 14 then RequestPart(x.request, parts[j])
    else if j == 15 then ResponsePart(x.response, parts[j])
    else parts[j] == EventParts(x, [], [], [])[j]
  }

  lemma EventPartsAt(x: AuditEvent, j: nat)
    requires j < 13
    ensures EventParts(x, [], [], [])[j] ==
      if j == 10 then BoolPart([0x58], x.success) else StrPart([(j + 1) * 8 + 2], EventStrings(x)[j])
  {
    hide StrPart, BoolPart;
  }

  lemma ScalarLayout(x: AuditEvent, j: nat)
    requires j < 13
    ensures var fields, vals := AuditEventSchema.fields, AuditEventMsg(x).vals;
      && |fields| == 16 == |vals| && fields[j] == Field(j + 1, if j == 10 then Bool else Str)
      && vals[j] == if j == 10 then VBool(x.success) else VStr(EventStrings(x)[j])
  {
    hide AuditEventMsg, Numbered, EventStrings;
    EventLayout(x, j);
  }

  lemma EventScalarAt(x: AuditEvent, p: bytes, j: nat)
    requires j < 13 && Typed(AuditEventSchema, AuditEventMsg(x))
    ensures |AuditEventSchema.fields| == 16
    ensures EncodesVal(AuditEventSchema.fields[j], AuditEventMsg(x).vals[j], p) <==> p == EventParts(x, [], [], [])[j]
  {
    ScalarLayout(x, j);
    EventPartsAt(x, j);
    hide EncodesVal, StrPart, BoolPart, AuditEventMsg, Typed, Numbered, EventParts, EventStrings;
    if j == 10 {
      BoolField(Field(11, Bool), x.success, p);
    } else {
      StrField(Field(j + 1, Str), EventStrings(x)[j], p);
    }
  }

  lemma EventFieldAt(x: AuditEvent, parts: seq<bytes>, j: nat)
    requires EventInRange(x) && Typed(AuditEventSchema, AuditEventMsg(x)) && |parts| == 16 && j < 16
    ensures |AuditEventSchema.fields| == 16
    ensures EncodesVal(AuditEventSchema.fields[j], AuditEventMsg(x).vals[j], parts[j]) <==> EventPartAt(x, parts, j)
  {
    EventLayout(x, j);
    hide EncodesVal, MapPart, RequestPart, ResponsePart, AuditEventMsg, RequestMsgOf, ResponseMsgOf, Typed, Numbered,
      EventParts, EventStrings;
    if j < 13 {
      EventScalarAt(x, parts[j], j);
    } else if j == 13 {
      MapField(Field(14, StrMap), x.metadata, parts[j]);
    } else if j == 14 {
      RequestField(x, parts[j]);
    } else {
      ResponseField(x, parts[j]);
    }
  }

  lemma AuditEventFields(x: AuditEvent, parts: seq<bytes>)
    requires EventInRange(x) && Typed(AuditEventSchema, AuditEventMsg(x)) && |parts| == 16
    ensures IsParts(AuditEventSchema, AuditEventMsg(x), 0, parts) <==>
      && parts == EventParts(x, parts[13], parts[14], parts[15])
      && MapPart([0x72], x.metadata, parts[13]) && RequestPart(x.request, parts[14]) && ResponsePart(x.response, parts[15])
  {
    assert |AuditEventSchema.fields| == 16;
    hide EncodesVal, StrPart, BoolPart, MapPart, RequestPart, ResponsePart, AuditEventMsg, Typed, Numbered;
    forall j: nat | j < 16
      ensures EncodesVal(AuditEventSchema.fields[j], AuditEventMsg(x).vals[j], parts[j]) <==> EventPartAt(x, parts, j)
    {
      EventFieldAt(x, parts, j);
    }
    SameParts(x, parts);
  }

  lemma SameParts(x: AuditEvent, parts: seq<bytes>)
    requires |parts| == 16
    ensures (forall j | 0 <= j < 16 :: EventPartAt(x, parts, j)) <==>
      && parts == EventParts(x, parts[13], parts[14], parts[15])
      && MapPart([0x72], x.metadata, parts[13]) && RequestPart(x.request, parts[14]) && ResponsePart(x.response, parts[15])
  {
    hide StrPart, BoolPart, MapPart, RequestPart, ResponsePart;
    var whole, blank := EventParts(x, parts[13], parts[14], parts[15]), EventParts(x, [], [], []);
    assert forall j | 0 <= j < 13 :: whole[j] == blank[j];
    if forall j | 0 <= j < 16 :: EventPartAt(x, parts, j) {
      assert EventPartAt(x, parts, 13) && EventPartAt(x, parts, 14) && EventPartAt(x, parts, 15);
      forall j | 0 <= j < 16 ensures parts[j] == whole[j] {
        assert EventPartAt(x, parts, j);
      }
    }
  }

  lemma EventTypedExactly(x: AuditEvent)
    ensures Typed(AuditEventSchema, AuditEventMsg(x)) <==> EventInRange(x)
  {
    if EventInRange(x) {
      EventTyped(x);
    } else {
      EventLayout(x, 15);
      ResponseTyped(x.response.value);
      hide AuditEventMsg, AuditResponseMsg, Numbered;
      assert Typed(AuditEventSchema, AuditEventMsg(x)) ==>
        TypedVal(AuditEventSchema.fields[15].kind, AuditEventMsg(x).vals[15]);
    }
  }

  /** An absent or out-of-range response has no form, so the form includes the range. */
  lemma FormInRange(x: AuditEvent, e: bytes)
    requires AuditEventForm(x, e)
    ensures EventInRange(x)
  {
    hide Concat, MapPart, RequestPart, LenPart, IntPart, StrPart;
  }

  lemma AuditEventExactly(x: AuditEvent, e: bytes)
    ensures Encodes(AuditEventSchema, AuditEventMsg(x), e) <==> AuditEventForm(x, e)
  {
    assert AuditEventMsg(x).unknown == x.unknown && |AuditEventSchema.fields| == 16;
    EventTypedExactly(x);
    if EventInRange(x) {
      hide IsEncoding, MapPart, RequestPart, ResponsePart, Concat, IsParts, Typed, AuditEventMsg, EventParts, Numbered;
      PartsExactly(AuditEventSchema, AuditEventMsg(x), e);
      forall parts | IsParts(AuditEventSchema, AuditEventMsg(x), 0, parts)
        ensures |parts| == 16 && MapPart([0x72], x.metadata, parts[13])
        ensures RequestPart(x.request, parts[14]) && ResponsePart(x.response, parts[15])
        ensures parts == EventParts(x, parts[13], parts[14], parts[15])
      {
        PartsCount(AuditEventSchema, AuditEventMsg(x), parts);
        AuditEventFields(x, parts);
      }
      forall m, q, r | MapPart([0x72], x.metadata, m) && RequestPart(x.request, q) && ResponsePart(x.response, r)
        ensures IsParts(AuditEventSchema, AuditEventMsg(x), 0, EventParts(x, m, q, r))
      {
        EventHoles(x, m, q, r);
        AuditEventFields(x, EventParts(x, m, q, r));
      }
    } else if AuditEventForm(x, e) {
      FormInRange(x, e);
    }
  }

  lemma EventHoles(x: AuditEvent, m: bytes, q: bytes, r: bytes)
    ensures var parts := EventParts(x, m, q, r); parts[13] == m && parts[14] == q && parts[15] == r
  {}

  // ------------------------------------------------ log and batch

  function EventMsgOf(x: AuditLog): Option<Msg> {
    if x.event.None? then None else Some(AuditEventMsg(x.event.value))
  }

  lemma EventSub(x: AuditEvent, p: bytes)
    requires EventInRange(x)
    ensures Typed(AuditEventSchema, AuditEventMsg(x))
    ensures SubPart(AuditEventSchema, [0x12], AuditEventMsg(x), p) <==> EventPart(Some(x), p)
  {
    EventTyped(x);
    hide AuditEventMsg, AuditEventForm, IsEncoding, Typed, LenPart;
    forall body ensures IsEncoding(AuditEventSchema, AuditEventMsg(x), body) <==> AuditEventForm(x, body) {
      AuditEventExactly(x, body);
    }
  }

  lemma EventField(x: AuditLog, p: bytes)
    requires LogInRange(x)
    ensures var f := Field(2, Message(AuditEventSchema));
      TypedVal(f.kind, VMsg(EventMsgOf(x))) && (EncodesVal(f, VMsg(EventMsgOf(x)), p) <==> EventPart(x.event, p))
  {
    hide AuditEventMsg, AuditEventForm, EncodesVal, Typed, LenPart, SubPart, EventInRange;
    if x.event.Some? {
      EventSub(x.event.value, p);
    }
    MsgField(Field(2, Message(AuditEventSchema)), EventMsgOf(x), p);
  }

  lemma AuditLogFields(x: AuditLog, parts: seq<bytes>)
    requires LogInRange(x) && Typed(AuditLogSchema, AuditLogMsg(x)) && |parts| == 4
    ensures IsParts(AuditLogSchema, AuditLogMsg(x), 0, parts) <==>
      && parts[0] == StrPart([0x0a], x.logId)
      && EventPart(x.event, parts[1])
      && parts[2] == StrPart([0x1a], x.storedAt)
      && parts[3] == StrPart([0x22], x.storageLocation)
  {
    hide EncodesVal, StrPart, EventPart, AuditEventMsg;
    var fields, vals := AuditLogSchema.fields, AuditLogMsg(x).vals;
    assert fields[0] == Field(1, Str) && vals[0] == VStr(x.logId);
    assert fields[1] == Field(2, Message(AuditEventSchema)) && vals[1] == VMsg(EventMsgOf(x));
    assert fields[2] == Field(3, Str) && vals[2] == VStr(x.storedAt);
    assert fields[3] == Field(4, Str) && vals[3] == VStr(x.storageLocation);
    StrField(Field(1, Str), x.logId, parts[0]);
    EventField(x, parts[1]);
    StrField(Field(3, Str), x.storedAt, parts[2]);
    StrField(Field(4, Str), x.storageLocation, parts[3]);
  }

  lemma LogTypedExactly(x: AuditLog)
    ensures Typed(AuditLogSchema, AuditLogMsg(x)) <==> LogInRange(x)
  {
    if LogInRange(x) {
      LogTyped(x);
    } else {
      EventTypedExactly(x.event.value);
      hide AuditEventMsg;
      assert AuditLogSchema.fields[1].kind == Message(AuditEventSchema) && AuditLogMsg(x).vals[1] == VMsg(EventMsgOf(x));
    }
  }

  lemma AuditLogExactly(x: AuditLog, e: bytes)
    ensures Encodes(AuditLogSchema, AuditLogMsg(x), e) <==> AuditLogForm(x, e)
  {
    LogTypedExactly(x);
    assert AuditLogMsg(x).unknown == x.unknown && |AuditLogSchema.fields| == 4;
    hide IsEncoding, StrPart, AuditEventForm, Concat, IsParts, Typed, AuditLogMsg, Numbered, LenPart;
    if LogInRange(x) {
      PartsExactly(AuditLogSchema, AuditLogMsg(x), e);
      forall parts | IsParts(AuditLogSchema, AuditLogMsg(x), 0, parts)
        ensures |parts| == 4 && EventPart(x.event, parts[1])
        ensures parts == [StrPart([0x0a], x.logId), parts[1], StrPart([0x1a], x.storedAt), StrPart([0x22], x.storageLocation)]
      {
        PartsCount(AuditLogSchema, AuditLogMsg(x), parts);
        AuditLogFields(x, parts);
      }
      forall event | EventPart(x.event, event)
        ensures IsParts(AuditLogSchema, AuditLogMsg(x), 0,
          [StrPart([0x0a], x.logId), event, StrPart([0x1a], x.storedAt), StrPart([0x22], x.storageLocation)])
      {
        AuditLogFields(x, [StrPart([0x0a], x.logId), event, StrPart([0x1a], x.storedAt), StrPart([0x22], x.storageLocation)]);
      }
    } else if AuditLogForm(x, e) {
      LogFormInRange(x, e);
    }
  }

  lemma LogFormInRange(x: AuditLog, e: bytes)
    requires AuditLogForm(x, e)
    ensures LogInRange(x)
  {
    hide Concat, StrPart, LenPart, AuditEventForm;
    if x.event.Some? {
      var event :| EventPart(x.event, event);
      var body :| AuditEventForm(x.event.value, body);
      FormInRange(x.event.value, body);
    }
  }

  /** Encodings of the events are byte strings of their forms, and the other way round. */
  lemma EventsExactly(xs: seq<AuditEvent>, bodies: seq<bytes>)
    requires forall i | 0 <= i < |xs| :: EventInRange(xs[i])
    ensures forall i | 0 <= i < |xs| :: Typed(AuditEventSchema, EventMsgs(xs)[i])
    ensures AreEncodings(AuditEventSchema, EventMsgs(xs), bodies) <==> EventForms(xs, bodies)
  {
    hide Typed, IsEncoding, AuditEventMsg, AuditEventForm;
    forall i | 0 <= i < |xs| ensures Typed(AuditEventSchema, EventMsgs(xs)[i]) {
      EventTyped(xs[i]);
    }
    if |bodies| == |xs| {
      forall i | 0 <= i < |xs|
        ensures IsEncoding(AuditEventSchema, EventMsgs(xs)[i], bodies[i]) <==> AuditEventForm(xs[i], bodies[i])
      {
        AuditEventExactly(xs[i], bodies[i]);
      }
    }
  }

  lemma BatchFormInRange(x: LogEventBatchRequest, e: bytes)
    requires BatchForm(x, e)
    ensures BatchInRange(x)
  {
    hide Records, AuditEventForm, EventInRange;
    var bodies :| EventForms(x.events, bodies);
    forall i | 0 <= i < |x.events| ensures EventInRange(x.events[i]) {
      FormInRange(x.events[i], bodies[i]);
    }
  }

  /** The one field of a batch. */
  lemma BatchLayout(x: LogEventBatchRequest)
    ensures LogEventBatchRequestSchema.fields == [Field(1, Repeated(AuditEventSchema))]
    ensures BatchMsg(x) == Msg([VRep(EventMsgs(x.events))], x.unknown)
  {}

  lemma BatchTypedExactly(x: LogEventBatchRequest)
    ensures Typed(LogEventBatchRequestSchema, BatchMsg(x)) <==> BatchInRange(x)
  {
    if BatchInRange(x) {
      BatchTyped(x);
    } else {
      BatchLayout(x);
      var i :| 0 <= i < |x.events| && !EventInRange(x.events[i]);
      EventTypedExactly(x.events[i]);
      hide AuditEventMsg, BatchMsg, Numbered;
      assert !Typed(AuditEventSchema, EventMsgs(x.events)[i]);
      assert !TypedVal(Repeated(AuditEventSchema), BatchMsg(x).vals[0]);
    }
  }

  lemma BatchExactly(x: LogEventBatchRequest, e: bytes)
    ensures Encodes(LogEventBatchRequestSchema, BatchMsg(x), e) <==> BatchForm(x, e)
  {
    BatchTypedExactly(x);
    BatchLayout(x);
    if BatchInRange(x) {
      hide IsEncoding, BatchMsg, Typed, Numbered, AuditEventForm, EventForms, Records, AuditEventMsg, EventMsgs;
      var f, ms := Field(1, Repeated(AuditEventSchema)), EventMsgs(x.events);
      EventsExactly(x.events, []);
      KeyBytes(f);
      PartsExactly(LogEventBatchRequestSchema, BatchMsg(x), e);
      forall p ensures EncodesVal(f, VRep(ms), p) <==> RepPart(AuditEventSchema, [0x0a], ms, p) {
        RepExactly(f, ms, p);
      }
      forall bodies ensures AreEncodings(AuditEventSchema, ms, bodies) <==> EventForms(x.events, bodies) {
        EventsExactly(x.events, bodies);
      }
      SinglePart(LogEventBatchRequestSchema, BatchMsg(x), e);
    } else if BatchForm(x, e) {
      BatchFormInRange(x, e);
    }
  }

  lemma SinglePart(sch: Schema, m: Msg, e: bytes)
    requires Typed(sch, m) && |sch.fields| == 1
    ensures HasParts(sch, m, e) <==> exists p :: EncodesVal(sch.fields[0], m.vals[0], p) && e == p + m.unknown
  {
    hide EncodesVal;
    forall parts | IsParts(sch, m, 0, parts) ensures Concat(parts) == parts[0] && EncodesVal(sch.fields[0], m.vals[0], parts[0]) {
      assert parts[0] + [] == parts[0];
    }
    forall p | EncodesVal(sch.fields[0], m.vals[0], p) ensures IsParts(sch, m, 0, [p]) && Concat([p]) == p {
      assert p + [] == p;
    }
  }
}
