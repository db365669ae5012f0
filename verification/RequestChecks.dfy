/**
 The checks between a packet and the runtime: the validator, the normalizer and the
 gates of the runtime bridge.
 */
module RequestChecks {
  import opened AccessTypes
  import opened ByteText
  import opened Wrappers

  // ----- Validation -----

  /** Limits of zero or less are not enforced, and no protocols means all of them. */
  datatype Limits = Limits(maxPayloadBytes: int, maxUserInputBytes: int, allowedProtocols: seq<Bytes>)

  predicate IsNewline(b: Byte) {
    b == 0x0a || b == 0x0d
  }

  predicate HasNewline(s: Bytes) {
    exists i :: 0 <= i < |s| && IsNewline(s[i])
  }

  predicate IsKeyChar(b: Byte) {
    IsAlnum(b) || b == 0x2d || b == 0x5f || b == 0x2e
  }

  predicate GoodKeyChars(key: Bytes) {
    forall i :: 0 <= i < |key| ==> IsKeyChar(key[i])
  }

  predicate GoodEntry(key: Bytes, value: Bytes) {
    key != [] && |key| <= 128 && |value| <= 4096 && !HasNewline(key) && !HasNewline(value) && GoodKeyChars(key)
  }

  predicate GoodContext(context: map<Bytes, Bytes>) {
    forall k :: k in context ==> GoodEntry(k, context[k])
  }

  predicate WithinLimits(l: Limits, r: DispatchRequest) {
    (l.maxPayloadBytes > 0 ==> |r.packet.payload| <= l.maxPayloadBytes)
    && (l.maxUserInputBytes > 0 && USER_INPUT in r.context ==> |r.context[USER_INPUT]| <= l.maxUserInputBytes)
  }

  predicate AllowedProtocol(l: Limits, kind: Bytes) {
    kind != [] && (l.allowedProtocols == [] || kind in l.allowedProtocols)
  }

  predicate Identified(r: DispatchRequest) {
    r.packet.packetId != [] && r.packet.entryType != [] && r.packet.protocolKind != [] && r.actorRef != []
  }

  /** What an accepted request meets, all at once. */
  predicate Acceptable(l: Limits, r: DispatchRequest) {
    Identified(r) && AllowedProtocol(l, r.packet.protocolKind) && WithinLimits(l, r) && GoodContext(r.context)
  }

  /** The first check that fails names the error. */
  function Validate(l: Limits, r: DispatchRequest): (error: Option<AccessError>)
    ensures error.None? <==> Acceptable(l, r)
  {
    if !Identified(r) then Some(ValidationRejected)
    else if !AllowedProtocol(l, r.packet.protocolKind) then Some(UnsupportedProtocol)
    else if !WithinLimits(l, r) then Some(PayloadTooLarge)
    else if !GoodContext(r.context) then Some(MalformedInput)
    else None
  }

  /** Which error a refused request gets: the checks come in this order. */
  lemma ErrorsExactly(l: Limits, r: DispatchRequest)
    ensures var error, p := Validate(l, r), r.packet;
            var named := p.packetId != [] && p.entryType != [] && p.protocolKind != [] && r.actorRef != [];
            var spoken := l.allowedProtocols == [] || p.protocolKind in l.allowedProtocols;
            var short := (l.maxPayloadBytes <= 0 || |p.payload| <= l.maxPayloadBytes)
                         && (l.maxUserInputBytes <= 0 || USER_INPUT !in r.context
                             || |r.context[USER_INPUT]| <= l.maxUserInputBytes);
            (error == Some(ValidationRejected) <==> !named)
            && (error == Some(UnsupportedProtocol) <==> named && !spoken)
            && (error == Some(PayloadTooLarge) <==> named && spoken && !short)
            && (error == Some(MalformedInput) <==> named && spoken && short && !GoodContext(r.context))
  {
  }

  method ContainsNewline(value: Bytes) returns (found: bool)
    ensures found <==> HasNewline(value)
  {
    for i := 0 to |value|
      invariant forall j :: 0 <= j < i ==> !IsNewline(value[j])
    {
      if IsNewline(value[i]) {
        return true;
      }
    }
    return false;
  }

  method CheckKeyChars(key: Bytes) returns (good: bool)
    ensures good <==> GoodKeyChars(key)
  {
    for i := 0 to |key|
      invariant forall j :: 0 <= j < i ==> IsKeyChar(key[j])
    {
      if !IsKeyChar(key[i]) {
        return false;
      }
    }
    return true;
  }

  method CheckEntry(key: Bytes, value: Bytes) returns (good: bool)
    ensures good <==> GoodEntry(key, value)
  {
    if key == [] || |key| > 128 || |value| > 4096 {
      return false;
    }
    var keyBroken := ContainsNewline(key);
    var valueBroken := ContainsNewline(value);
    if keyBroken || valueBroken {
      return false;
    }
    good := CheckKeyChars(key);
  }

  /** The entries are visited in any order; the first bad one ends the loop. */
  method ValidateHeaders(context: map<Bytes, Bytes>) returns (good: bool)
    ensures good <==> GoodContext(context)
  {
    var pending := context.Keys;
    while pending != {}
      invariant pending <= context.Keys
      invariant forall k :: k in context && k !in pending ==> GoodEntry(k, context[k])
      decreases |pending|
    {
      var k :| k in pending;
      var entryGood := CheckEntry(k, context[k]);
      if !entryGood {
        return false;
      }
      pending := pending - {k};
    }
    return true;
  }

  method IsAllowedProtocol(l: Limits, kind: Bytes) returns (allowed: bool)
    ensures allowed <==> AllowedProtocol(l, kind)
  {
    if kind == [] {
      return false;
    }
    if l.allowedProtocols == [] {
      return true;
    }
    for i := 0 to |l.allowedProtocols|
      invariant kind !in l.allowedProtocols[..i]
    {
      if l.allowedProtocols[i] == kind {
        return true;
      }
    }
    return false;
  }

  method ValidatePacket(l: Limits, r: DispatchRequest) returns (error: Option<AccessError>)
    ensures error == Validate(l, r)
  {
    if !Identified(r) {
      return Some(ValidationRejected);
    }
    var allowed := IsAllowedProtocol(l, r.packet.protocolKind);
    if !allowed {
      return Some(UnsupportedProtocol);
    }
    if !WithinLimits(l, r) {
      return Some(PayloadTooLarge);
    }
    var good := ValidateHeaders(r.context);
    return if good then None else Some(MalformedInput);
  }

  // ----- Building the request -----

  function Headers(packet: Packet): map<Bytes, Bytes> {
    map k | k in packet.headers && k != [] && packet.headers[k] != [] :: packet.headers[k]
  }

  function PacketContext(packet: Packet): map<Bytes, Bytes> {
    var ids := map[REQUEST_ID := packet.packetId];
    var traced := if packet.traceId.GetOr([]) != [] then ids[TRACE_ID := packet.traceId.value] else ids;
    var hinted := if packet.sessionHint.GetOr([]) != [] then traced[SESSION_ID := packet.sessionHint.value] else traced;
    var full := hinted + Headers(packet);
    if IDEMPOTENCY_KEY in full then full else full[IDEMPOTENCY_KEY := packet.packetId]
  }

  function BuildRequest(packet: Packet, actorRef: Bytes, decision: Bytes): DispatchRequest {
    DispatchRequest(packet, actorRef, decision, NO_AGENT_REQUEST, PacketContext(packet))
  }

  /** The headers that count, of those visited so far. */
  ghost function Visited(packet: Packet, pending: set<Bytes>): map<Bytes, Bytes> {
    map k | k in packet.headers && k !in pending && k != [] && packet.headers[k] != [] :: packet.headers[k]
  }

  lemma VisitOne(packet: Packet, pending: set<Bytes>, k: Bytes)
    requires k in packet.headers && k in pending
    ensures Visited(packet, pending - {k})
            == if k != [] && packet.headers[k] != [] then Visited(packet, pending)[k := packet.headers[k]]
               else Visited(packet, pending)
  {
  }

  /** Headers that carry something are copied into the context, whatever the order of the walk. */
  method ProjectHeaders(packet: Packet, context: map<Bytes, Bytes>) returns (projected: map<Bytes, Bytes>)
    ensures projected == context + Headers(packet)
  {
    projected := context;
    var pending := packet.headers.Keys;
    while pending != {}
      invariant pending <= packet.headers.Keys
      invariant projected == context + Visited(packet, pending)
      decreases |pending|
    {
      var k :| k in pending;
      VisitOne(packet, pending, k);
      if k != [] && packet.headers[k] != [] {
        projected := projected[k := packet.headers[k]];
      }
      pending := pending - {k};
    }
    assert Visited(packet, {}) == Headers(packet);
  }

  // ----- Normalization -----

  /** How missing ids are made: the ordinal tells request, session and trace apart. */
  type IdGenerator = (nat, DispatchRequest) -> Bytes

  function AgentRequestOf(r: DispatchRequest, newId: IdGenerator): AgentRequest {
    AgentRequest(Some(ContextValue(r.context, REQUEST_ID).GetOr(newId(1, r))),
                 Some(ContextValue(r.context, SESSION_ID).GetOr(newId(2, r))),
                 Some(ContextValue(r.context, TRACE_ID).GetOr(newId(3, r))),
                 ContextValue(r.context, IDEMPOTENCY_KEY),
                 r.packet.payload)
  }

  const YES: Bytes := [0x74, 0x72, 0x75, 0x65]

  function NormalContext(context: map<Bytes, Bytes>, a: AgentRequest): map<Bytes, Bytes>
    requires a.requestId.Some? && a.sessionId.Some? && a.traceId.Some?
  {
    context[REQUEST_ID := a.requestId.value][SESSION_ID := a.sessionId.value][TRACE_ID := a.traceId.value]
           [NORMALIZER_READY := YES]
  }

  /** `None` when a required field is missing. */
  function Normalize(r: DispatchRequest, newId: IdGenerator): Option<DispatchRequest> {
    if !Identified(r) then None
    else
      var a := AgentRequestOf(r, newId);
      Some(r.(agentRequest := a, context := NormalContext(r.context, a)))
  }

  // ----- The runtime bridge -----

  const ALLOW: Bytes := [0x41, 0x6c, 0x6c, 0x6f, 0x77]

  function Rejection(error: AccessError): DispatchResult {
    DispatchResult(Rejected, None, Some(error), map[])
  }

  /** An id of the agent request counts when it is present and not empty. */
  function Public(id: Option<Bytes>): Option<Bytes> {
    if id.GetOr([]) != [] then id else None
  }

  function NoteId(context: map<Bytes, Bytes>, key: Bytes, id: Option<Bytes>): map<Bytes, Bytes> {
    if id.Some? then context[key := id.value] else context
  }

  /** An accepted result without a receipt reference gets one made of the request id. */
  function MapResult(r: DispatchRequest, backend: DispatchResult): DispatchResult {
    var a := r.agentRequest;
    var requestId := Public(a.requestId);
    var context := NoteId(NoteId(NoteId(backend.responseContext, REQUEST_ID, requestId),
                                 SESSION_ID, Public(a.sessionId)), TRACE_ID, Public(a.traceId));
    var receiptRef :=
      if backend.disposition == AcceptedAsync && backend.receiptRef.None? then
        Some(RECEIPT_PREFIX + requestId.GetOr(r.packet.packetId))
      else backend.receiptRef;
    backend.(receiptRef := receiptRef, responseContext := context)
  }

  /** The parts of the runtime the bridge cannot see into: the contract guard and the backend. */
  datatype Runtime = Runtime(guard: DispatchRequest -> bool, backend: Option<DispatchRequest -> DispatchResult>)

  predicate Gated(runtime: Runtime, r: DispatchRequest) {
    ContextValue(r.context, NORMALIZER_READY) == Some(YES) && r.decision == ALLOW
    && runtime.guard(r) && runtime.backend.Some?
  }

  function Dispatch(runtime: Runtime, r: DispatchRequest): DispatchResult {
    if ContextValue(r.context, NORMALIZER_READY) != Some(YES) then Rejection(ValidationRejected)
    else if r.decision != ALLOW then Rejection(AuthorizationDenied)
    else if !runtime.guard(r) then Rejection(ValidationRejected)
    else if runtime.backend.None? then Rejection(RuntimeBridgeUnavailable)
    else MapResult(r, (runtime.backend.value)(r))
  }

  lemma IdNamesDiffer()
    ensures REQUEST_ID != SESSION_ID && REQUEST_ID != TRACE_ID && SESSION_ID != TRACE_ID
  {
    AsciiDiffers("request_id", "session_id", 0);
    AsciiDiffers("request_id", "trace_id", 0);
    AsciiDiffers("session_id", "trace_id", 0);
  }

  lemma NotedIds(context: map<Bytes, Bytes>, a: Bytes, b: Bytes, c: Bytes, v: Bytes, w: Bytes, x: Bytes)
    requires a != b && a != c && b != c
    ensures var noted := NoteId(NoteId(NoteId(context, a, Some(v)), b, Some(w)), c, Some(x));
            ContextHas(noted, a, v) && ContextHas(noted, b, w) && ContextHas(noted, c, x)
            && forall k :: k in context && k != a && k != b && k != c ==> ContextHas(noted, k, context[k])
  {
  }

  predicate ContextHas(context: map<Bytes, Bytes>, key: Bytes, value: Bytes) {
    key in context && context[key] == value
  }

  lemma ReadyDiffers()
    ensures NORMALIZER_READY != REQUEST_ID && NORMALIZER_READY != SESSION_ID && NORMALIZER_READY != TRACE_ID
  {
    AsciiDiffers("normalizer_ready", "request_id", 0);
    AsciiDiffers("normalizer_ready", "session_id", 0);
    AsciiDiffers("normalizer_ready", "trace_id", 0);
  }

  lemma Overwritten(context: map<Bytes, Bytes>, a: Bytes, b: Bytes, c: Bytes, d: Bytes, v: Bytes, w: Bytes, x: Bytes,
                    y: Bytes)
    requires a != b && a != c && a != d && b != c && b != d && c != d
    ensures var all := context[a := v][b := w][c := x][d := y];
            ContextHas(all, a, v) && ContextHas(all, b, w) && ContextHas(all, c, x) && ContextHas(all, d, y)
            && forall k :: k != a && k != b && k != c && k != d ==>
                 ((k in all <==> k in context) && (k in context ==> all[k] == context[k]))
  {
  }

  /** An id of the context, if it is there and not empty, or a new one. */
  function GivenOr(context: map<Bytes, Bytes>, key: Bytes, made: Bytes): Bytes {
    if key in context && context[key] != [] then context[key] else made
  }

  /**
   A request normalizes exactly when it is identified. Then it has the three ids of its
   context, or new ones, in the context and in the agent request; nothing else of it changes.
   */
  lemma NormalExactly(r: DispatchRequest, newId: IdGenerator)
    ensures Normalize(r, newId).Some? <==> Identified(r)
    ensures Identified(r) ==>
              var n := Normalize(r, newId).value;
              var request, session, trace := GivenOr(r.context, REQUEST_ID, newId(1, r)),
                                             GivenOr(r.context, SESSION_ID, newId(2, r)),
                                             GivenOr(r.context, TRACE_ID, newId(3, r));
              n.packet == r.packet && n.actorRef == r.actorRef && n.decision == r.decision
              && n.agentRequest == AgentRequest(Some(request), Some(session), Some(trace),
                                                ContextValue(r.context, IDEMPOTENCY_KEY), r.packet.payload)
              && ContextHas(n.context, REQUEST_ID, request) && ContextHas(n.context, SESSION_ID, session)
              && ContextHas(n.context, TRACE_ID, trace) && ContextHas(n.context, NORMALIZER_READY, YES)
              && forall k :: k != REQUEST_ID && k != SESSION_ID && k != TRACE_ID && k != NORMALIZER_READY ==>
                   ((k in n.context <==> k in r.context) && (k in r.context ==> n.context[k] == r.context[k]))
  {
    IdNamesDiffer();
    ReadyDiffers();
    Overwritten(r.context, REQUEST_ID, SESSION_ID, TRACE_ID, NORMALIZER_READY,
                GivenOr(r.context, REQUEST_ID, newId(1, r)), GivenOr(r.context, SESSION_ID, newId(2, r)),
                GivenOr(r.context, TRACE_ID, newId(3, r)), YES);
  }

  /** What the bridge makes of a normalized request, gate by gate; the backend's reply keeps what it says. */
  lemma DispatchExactly(r: DispatchRequest, newId: IdGenerator, runtime: Runtime)
    requires Identified(r)
    ensures var n := Normalize(r, newId).value;
            var reply := Dispatch(runtime, n);
            if r.decision != ALLOW then reply == Rejection(AuthorizationDenied)
            else if !runtime.guard(n) then reply == Rejection(ValidationRejected)
            else if runtime.backend.None? then reply == Rejection(RuntimeBridgeUnavailable)
            else
              var theirs := (runtime.backend.value)(n);
              reply.disposition == theirs.disposition && reply.error == theirs.error
              && (theirs.receiptRef.Some? || theirs.disposition != AcceptedAsync ==>
                  reply.receiptRef == theirs.receiptRef)
              && (theirs.receiptRef.None? && theirs.disposition == AcceptedAsync ==>
                    reply.receiptRef.Some? && |RECEIPT_PREFIX| <= |reply.receiptRef.value|
                    && reply.receiptRef.value[..|RECEIPT_PREFIX|] == RECEIPT_PREFIX
                    && (reply.receiptRef.value[|RECEIPT_PREFIX|..] == n.agentRequest.requestId.value
                        || (n.agentRequest.requestId == Some([])
                            && reply.receiptRef.value[|RECEIPT_PREFIX|..] == r.packet.packetId)))
  {
    NormalExactly(r, newId);
    assert |YES| == 4;
  }

  /** A dispatched reply carries the ids of the request, and whatever else the backend answered. */
  lemma ReplyCarriesIds(r: DispatchRequest, backend: DispatchResult)
    requires Public(r.agentRequest.requestId).Some? && Public(r.agentRequest.sessionId).Some?
             && Public(r.agentRequest.traceId).Some?
    ensures var a, context := r.agentRequest, MapResult(r, backend).responseContext;
            ContextHas(context, REQUEST_ID, a.requestId.value)
            && ContextHas(context, SESSION_ID, a.sessionId.value)
            && ContextHas(context, TRACE_ID, a.traceId.value)
    ensures MapResult(r, backend).disposition == backend.disposition && MapResult(r, backend).error == backend.error
  {
    var a := r.agentRequest;
    IdNamesDiffer();
    NotedIds(backend.responseContext, REQUEST_ID, SESSION_ID, TRACE_ID, a.requestId.value, a.sessionId.value,
             a.traceId.value);
  }
}
