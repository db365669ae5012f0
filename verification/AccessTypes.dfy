/** The requests and results that pass between the access components. */
module AccessTypes {
  import opened ByteText
  import opened Wrappers

  datatype Packet = Packet(
    packetId: Bytes,
    entryType: Bytes,
    protocolKind: Bytes,
    payload: Bytes,
    headers: map<Bytes, Bytes>,
    traceId: Option<Bytes>,
    sessionHint: Option<Bytes>,
    deadlineMs: Option<int>
  )

  datatype AgentRequest = AgentRequest(
    requestId: Option<Bytes>,
    sessionId: Option<Bytes>,
    traceId: Option<Bytes>,
    idempotencyKey: Option<Bytes>,
    userInput: Bytes
  )

  const NO_AGENT_REQUEST := AgentRequest(None, None, None, None, [])

  datatype DispatchRequest = DispatchRequest(
    packet: Packet,
    actorRef: Bytes,
    decision: Bytes,
    agentRequest: AgentRequest,
    context: map<Bytes, Bytes>
  )

  datatype Disposition = Rejected | Completed | AcceptedAsync | StreamAttached

  datatype AccessError =
    | ValidationRejected
    | UnsupportedProtocol
    | PayloadTooLarge
    | MalformedInput
    | AdmissionRejected
    | IdempotencyConflict
    | AuthorizationDenied
    | RuntimeBridgeUnavailable
    | InternalError
    | OtherError

  datatype DispatchResult = DispatchResult(
    disposition: Disposition,
    receiptRef: Option<Bytes>,
    error: Option<AccessError>,
    responseContext: map<Bytes, Bytes>
  )

  // ----- The names of context entries -----

  const REQUEST_ID: Bytes := Ascii("request_id")
  const SESSION_ID: Bytes := Ascii("session_id")
  const TRACE_ID: Bytes := Ascii("trace_id")
  const IDEMPOTENCY_KEY: Bytes := Ascii("idempotency_key")
  const USER_INPUT: Bytes := Ascii("user_input")
  const NORMALIZER_READY: Bytes := Ascii("normalizer_ready")

  /** A context entry counts only when it is present and not empty. */
  function ContextValue(context: map<Bytes, Bytes>, key: Bytes): Option<Bytes> {
    if key in context && context[key] != [] then Some(context[key]) else None
  }

  const RECEIPT_PREFIX: Bytes := Ascii("receipt:")
}
