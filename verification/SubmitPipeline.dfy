/** The submit pipeline as it drives its stateful components, one packet at a time. */
module SubmitPipeline {
  import opened AccessTypes
  import opened ByteText
  import opened Wrappers
  import opened RequestChecks
  import opened SubmitSpec
  import AdmissionSpec
  import Admission
  import AsyncRegistrySpec
  import AsyncRegistry

  type Controller = Admission.AdmissionController
  type TaskRegistry = AsyncRegistry.AsyncTaskRegistry

  /** The registry side of a command that is answered on the spot. */
  method ApplyOp(registry: TaskRegistry, op: AsyncRegistrySpec.Op)
    modifies registry
    ensures registry.View() == AsyncRegistrySpec.Step(AsyncRegistry.SIGN, old(registry.View()), op)
  {
    match op
    case RegisterOp(a, c) => var _ := registry.StoreReceipt(a, c);
    case QueryOp(id, c) => var _, _ := registry.QueryReceipt(id, c.check);
    case ValidateOp(id, actorRef, token, c) => var _ := registry.ValidateOwnership(id, actorRef, token, c);
    case MarkOp(id, status, c) => var _ := registry.MarkCompleted(id, status, c);
    case PruneOp(c) => var _ := registry.PruneExpiredLocked(c.prune);
    case RotateOp(current, previous, _) => registry.RotateOwnershipKeys(current, previous);
  }

  method ApplyOps(registry: TaskRegistry, ops: seq<AsyncRegistrySpec.Op>)
    modifies registry
    ensures registry.View() == AsyncRegistrySpec.Run(AsyncRegistry.SIGN, old(registry.View()), ops)
  {
    ghost var start := registry.View();
    for i := 0 to |ops|
      invariant AsyncRegistrySpec.Run(AsyncRegistry.SIGN, start, ops)
                == AsyncRegistrySpec.Run(AsyncRegistry.SIGN, registry.View(), ops[i..])
    {
      assert ops[i..][0] == ops[i] && ops[i..][1..] == ops[i + 1..];
      ApplyOp(registry, ops[i]);
    }
  }

  method BuildContext(packet: Packet) returns (context: map<Bytes, Bytes>)
    ensures context == PacketContext(packet)
  {
    context := map[REQUEST_ID := packet.packetId];
    if packet.traceId.GetOr([]) != [] {
      context := context[TRACE_ID := packet.traceId.value];
    }
    if packet.sessionHint.GetOr([]) != [] {
      context := context[SESSION_ID := packet.sessionHint.value];
    }
    context := ProjectHeaders(packet, context);
    if IDEMPOTENCY_KEY !in context {
      context := context[IDEMPOTENCY_KEY := packet.packetId];
    }
  }

  method AttachAsyncReceipt(registry: TaskRegistry, request: DispatchRequest, reply: DispatchResult, clock: Clock)
    returns (result: DispatchResult)
    modifies registry
    ensures (registry.View(), result) == Attach(AsyncRegistry.SIGN, old(registry.View()), request, reply, clock)
  {
    if reply.disposition != AcceptedAsync {
      return reply;
    }
    if !registry.Enabled() {
      return Rejection(InternalError);
    }
    var receipt := registry.RegisterAsyncAccept(request, reply, clock);
    if receipt.None? {
      return Rejection(InternalError);
    }
    result := reply.(receiptRef := Some(receipt.value.receiptId));
  }

  /** From a granted ticket to the result. */
  method Finish(cfg: Settings, admission: Controller, registry: TaskRegistry, call: Call, request: DispatchRequest,
                ticketRef: Bytes)
    returns (result: DispatchResult, ghost outcome: Outcome)
    requires admission.config == cfg.admission && cfg.sign == AsyncRegistry.SIGN
    modifies admission, registry
    ensures (Sys(admission.View(), registry.View()), result, outcome)
            == Settle(cfg, Sys(old(admission.View()), old(registry.View())), call, request, ticketRef)
  {
    var normalized := Normalize(request, call.newId);
    if normalized.None? {
      admission.ReleaseTicket(ticketRef);
      return Rejection(ValidationRejected), Released;
    }
    var reply := Dispatch(call.runtime, normalized.value);
    admission.RecordCompletion(ticketRef, reply);
    outcome := Dispatched(Admission.Signature(request), ticketRef, reply);
    result := AttachAsyncReceipt(registry, normalized.value, reply, call.clock);
  }

  method AdmitAndFinish(cfg: Settings, admission: Controller, registry: TaskRegistry, call: Call,
                        request: DispatchRequest)
    returns (result: DispatchResult, ghost outcome: Outcome)
    requires admission.config == cfg.admission && cfg.sign == AsyncRegistry.SIGN
    modifies admission, registry
    ensures (Sys(admission.View(), registry.View()), result, outcome)
            == AdmitThenSettle(cfg, Sys(old(admission.View()), old(registry.View())), call, request)
  {
    var answer := admission.AdmitRequest(request, call.now);
    if !answer.Admitted? {
      return RefusalResult(answer), Refused(answer);
    }
    result, outcome := Finish(cfg, admission, registry, call, request, answer.ticketRef);
  }

  /** One submission changes the two components exactly as `SubmitSpec.Submit` says. */
  method SubmitPacket(cfg: Settings, admission: Controller, registry: TaskRegistry, call: Call)
    returns (result: DispatchResult, ghost outcome: Outcome)
    requires admission.config == cfg.admission && cfg.sign == AsyncRegistry.SIGN
    modifies admission, registry
    ensures (Sys(admission.View(), registry.View()), result, outcome)
            == Submit(cfg, Sys(old(admission.View()), old(registry.View())), call)
  {
    if call.front.Answered? {
      ApplyOps(registry, call.front.queries);
      return call.front.result, Early;
    }
    var context := BuildContext(call.packet);
    var request := DispatchRequest(call.packet, call.front.actorRef, call.front.decision, NO_AGENT_REQUEST, context);
    var error := ValidatePacket(cfg.limits, request);
    if error.Some? {
      return Rejection(error.value), Invalid;
    }
    result, outcome := AdmitAndFinish(cfg, admission, registry, call, request);
  }
}
