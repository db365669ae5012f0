/**
 The submit pipeline, from validation to receipt: what one submission does to the
 admission controller and the receipt registry, and what every sequence of submissions keeps.
 */
module SubmitSpec {
  import opened AccessTypes
  import opened ByteText
  import opened Wrappers
  import opened RequestChecks
  import opened Widths
  import AdmissionSpec
  import Admission
  import AsyncRegistrySpec
  import AsyncRegistry

  type Registry = AsyncRegistrySpec.State
  type Admitting = AdmissionSpec.State
  type Clock = AsyncRegistrySpec.Clock

  datatype Settings = Settings(limits: Limits, admission: AdmissionSpec.Config, sign: AsyncRegistrySpec.Signer)

  /**
   What happens before the runtime request is built: the command is answered on the spot
   (health, queries, authentication, policy), perhaps by operations on the registry that
   register nothing, or it passes with an actor and a policy decision.
   */
  datatype Front =
    | Answered(result: DispatchResult, queries: seq<AsyncRegistrySpec.Op>)
    | Passed(actorRef: Bytes, decision: Bytes)

  /** One call, with the clock readings and the answers of the parts that are not modelled. */
  datatype Call = Call(packet: Packet, front: Front, now: int, clock: Clock, newId: IdGenerator, runtime: Runtime)

  datatype Sys = Sys(admission: Admitting, registry: Registry)

  /** How far a call got. */
  datatype Outcome =
    | Early
    | Invalid
    | Refused(answer: AdmissionSpec.Answer)
    | Released
    | Dispatched(signature: Bytes, ticketRef: Bytes, reply: DispatchResult)

  /** `idempotency-replay` stands in for a missing receipt. */
  const REPLAY_REF: Bytes := Ascii("idempotency-replay")

  function ReplayResult(receiptRef: Option<Bytes>): DispatchResult {
    DispatchResult(AcceptedAsync, Some(receiptRef.GetOr(REPLAY_REF)), None, map[])
  }

  function RefusalResult(answer: AdmissionSpec.Answer): DispatchResult {
    if answer.Refused? && answer.reason == AdmissionSpec.ReplayHit then ReplayResult(answer.replayRef)
    else if answer.Refused? && answer.reason == AdmissionSpec.Conflict then Rejection(IdempotencyConflict)
    else Rejection(AdmissionRejected)
  }

  /** `attach_async_receipt`, and what the caller is then told. */
  function Attach(sign: AsyncRegistrySpec.Signer, s: Registry, r: DispatchRequest, result: DispatchResult, c: Clock)
    : (Registry, DispatchResult)
  {
    if result.disposition != AcceptedAsync then (s, result)
    else
      var (s', receipt) := AsyncRegistrySpec.Register(sign, s, AsyncRegistry.AcceptOf(r, result), c);
      (s', if receipt.Some? then result.(receiptRef := Some(receipt.value.receiptId)) else Rejection(InternalError))
  }

  function Request(call: Call): DispatchRequest
    requires call.front.Passed?
  {
    BuildRequest(call.packet, call.front.actorRef, call.front.decision)
  }

  /** After admission: normalize, dispatch, settle the ticket, attach a receipt. */
  function Settle(cfg: Settings, s: Sys, call: Call, request: DispatchRequest, ticketRef: Bytes)
    : (Sys, DispatchResult, Outcome)
  {
    match Normalize(request, call.newId)
    case None =>
      (s.(admission := AdmissionSpec.Release(s.admission, ticketRef)), Rejection(ValidationRejected), Released)
    case Some(normal) =>
      var reply := Dispatch(call.runtime, normal);
      var admission := AdmissionSpec.Complete(cfg.admission, s.admission, ticketRef, reply.receiptRef);
      var (registry, result) := Attach(cfg.sign, s.registry, normal, reply, call.clock);
      (Sys(admission, registry), result, Dispatched(Admission.Signature(request), ticketRef, reply))
  }

  function AdmitThenSettle(cfg: Settings, s: Sys, call: Call, request: DispatchRequest)
    : (Sys, DispatchResult, Outcome)
  {
    var (admission, answer) := AdmissionSpec.Admit(cfg.admission, s.admission, Admission.Signature(request), call.now);
    var s1 := s.(admission := admission);
    if answer.Admitted? then Settle(cfg, s1, call, request, answer.ticketRef)
    else (s1, RefusalResult(answer), Refused(answer))
  }

  function Submit(cfg: Settings, s: Sys, call: Call): (Sys, DispatchResult, Outcome) {
    match call.front
    case Answered(result, queries) =>
      (s.(registry := AsyncRegistrySpec.Run(cfg.sign, s.registry, queries)), result, Early)
    case Passed(_, _) =>
      var request := Request(call);
      match Validate(cfg.limits, request)
      case Some(error) => (s, Rejection(error), Invalid)
      case None => AdmitThenSettle(cfg, s, call, request)
  }

  // ----- One submission -----

  /** A validated request always has a signature: the refusal for lack of one cannot fire. */
  lemma ValidatedHasSignature(l: Limits, r: DispatchRequest)
    requires Validate(l, r).None?
    ensures Admission.Signature(r) != []
  {
    Admission.SignatureEmpty(r);
  }

  lemma AdmissionAnswers(c: AdmissionSpec.Config, s: Admitting, signature: Bytes, now: int)
    requires signature != []
    ensures var answer := AdmissionSpec.Admit(c, s, signature, now).1;
            answer.Admitted? || (answer.Refused? && answer.reason != AdmissionSpec.NoSignature)
  {
  }

  /**
   The release branch and the missing-signature refusal are never reached: after the
   validator accepts, a call is refused for capacity, replay or conflict, or dispatched.
   */
  lemma NeverReleased(cfg: Settings, s: Sys, call: Call)
    ensures var outcome := Submit(cfg, s, call).2;
            outcome != Released
            && (outcome.Refused? ==> outcome.answer.Refused? && outcome.answer.reason != AdmissionSpec.NoSignature)
  {
    if call.front.Passed? && Validate(cfg.limits, Request(call)).None? {
      ValidatedHasSignature(cfg.limits, Request(call));
      AdmissionAnswers(cfg.admission, s.admission, Admission.Signature(Request(call)), call.now);
    }
  }

  /** A normalized request always passes the bridge's own readiness gate. */
  lemma NormalIsReady(r: DispatchRequest, newId: IdGenerator, runtime: Runtime)
    requires Identified(r)
    ensures var n := Normalize(r, newId).value;
            Gated(runtime, n) <==> r.decision == ALLOW && runtime.guard(n) && runtime.backend.Some?
  {
    var n := Normalize(r, newId).value;
    assert n.context[NORMALIZER_READY] == YES;
    assert |YES| == 4;
  }

  lemma SettleTicket(c: AdmissionSpec.Config, s: Admitting, signature: Bytes, now: int, receipt: Option<Bytes>)
    requires var (_, answer) := AdmissionSpec.Admit(c, s, signature, now); answer.Admitted?
    requires c.ticketName(AdmissionSpec.NextNumber(s)) !in s.inflight
    ensures var (a, answer) := AdmissionSpec.Admit(c, s, signature, now);
            AdmissionSpec.Complete(c, a, answer.ticketRef, receipt).inflight == s.inflight
  {
  }

  lemma RefusalKeepsTickets(c: AdmissionSpec.Config, s: Admitting, signature: Bytes, now: int)
    requires !AdmissionSpec.Admit(c, s, signature, now).1.Admitted?
    ensures AdmissionSpec.Admit(c, s, signature, now).0.inflight == s.inflight
  {
  }

  /** A submission leaves the tickets in flight as it found them. */
  lemma SubmitConservesTickets(cfg: Settings, s: Sys, call: Call)
    requires cfg.admission.ticketName(AdmissionSpec.NextNumber(s.admission)) !in s.admission.inflight
    ensures Submit(cfg, s, call).0.admission.inflight == s.admission.inflight
  {
    NeverReleased(cfg, s, call);
    if call.front.Passed? && Validate(cfg.limits, Request(call)).None? {
      var request := Request(call);
      var signature := Admission.Signature(request);
      if AdmissionSpec.Admit(cfg.admission, s.admission, signature, call.now).1.Admitted? {
        var reply := Dispatch(call.runtime, Normalize(request, call.newId).value);
        SettleTicket(cfg.admission, s.admission, signature, call.now, reply.receiptRef);
      } else {
        RefusalKeepsTickets(cfg.admission, s.admission, signature, call.now);
      }
    }
  }

  /** So with the fresh names of any sound state, whatever else is in flight stays in flight. */
  lemma SoundSubmit(cfg: Settings, s: Sys, call: Call)
    requires AdmissionSpec.DistinctNames(cfg.admission) && AdmissionSpec.Sound(cfg.admission, s.admission)
    requires s.admission.counter + 1 < TWO64
    ensures Submit(cfg, s, call).0.admission.inflight == s.admission.inflight
  {
    AdmissionSpec.NextIsNew(cfg.admission, s.admission);
    SubmitConservesTickets(cfg, s, call);
  }

  // ----- Sequential runs -----

  datatype Log = Log(calls: seq<Call>, systems: seq<Sys>, results: seq<DispatchResult>, outcomes: seq<Outcome>)

  /** Marks the calls a proof looks at. */
  predicate At(k: int) { true }

  /** One call after the other, from an empty admission controller. */
  ghost predicate IsRun(cfg: Settings, r: Log) {
    |r.systems| == |r.calls| + 1 && |r.results| == |r.outcomes| == |r.calls|
    && r.systems[0].admission == AdmissionSpec.INITIAL
    && forall k {:trigger At(k)} :: 0 <= k < |r.calls| && At(k) ==>
         Submit(cfg, r.systems[k], r.calls[k]) == (r.systems[k + 1], r.results[k], r.outcomes[k])
  }

  ghost predicate Clocked(r: Log) {
    forall i, j :: 0 <= i <= j < |r.calls| ==> r.calls[i].now <= r.calls[j].now
  }

  predicate DispatchedAt(r: Log, k: nat, signature: Bytes) {
    k < |r.calls| && k < |r.outcomes| && r.outcomes[k].Dispatched? && r.outcomes[k].signature == signature
  }

  /** The completed record a dispatch leaves behind. */
  predicate Settled(s: Admitting, signature: Bytes, receipt: Bytes, until: int) {
    signature in s.records
    && var record := s.records[signature];
       record.completed && record.inflightRef.None? && record.replayRef == Some(receipt) && record.expiresAt == until
  }

  function ReceiptLeft(c: AdmissionSpec.Config, ticketRef: Bytes, reply: DispatchResult): Bytes {
    reply.receiptRef.GetOr(c.receiptName(ticketRef))
  }

  lemma AdmitSettles(c: AdmissionSpec.Config, s: Admitting, signature: Bytes, now: int, receipt: Option<Bytes>)
    requires var (_, answer) := AdmissionSpec.Admit(c, s, signature, now); answer.Admitted?
    ensures var (a, answer) := AdmissionSpec.Admit(c, s, signature, now);
            Settled(AdmissionSpec.Complete(c, a, answer.ticketRef, receipt), signature,
                    receipt.GetOr(c.receiptName(answer.ticketRef)), now + c.windowMs)
  {
  }

  lemma AdmitElsewhere(c: AdmissionSpec.Config, s: Admitting, asked: Bytes, now: int, given: Option<Bytes>,
                       signature: Bytes, receipt: Bytes, until: int)
    requires Settled(s, signature, receipt, until) && now <= until && asked != signature
    ensures var (a, answer) := AdmissionSpec.Admit(c, s, asked, now);
            Settled(a, signature, receipt, until)
            && (answer.Admitted? ==> Settled(AdmissionSpec.Complete(c, a, answer.ticketRef, given), signature, receipt,
                                             until))
  {
  }

  lemma AdmitAgain(c: AdmissionSpec.Config, s: Admitting, now: int, signature: Bytes, receipt: Bytes, until: int)
    requires Settled(s, signature, receipt, until) && now <= until && signature != []
    ensures var (a, answer) := AdmissionSpec.Admit(c, s, signature, now);
            Settled(a, signature, receipt, until)
            && answer == if AdmissionSpec.AtLimit(c, s) then AdmissionSpec.LIMIT
                         else AdmissionSpec.Refused(AdmissionSpec.ReplayHit, None, Some(receipt))
  {
  }

  /** A call that reaches admission with this signature. */
  predicate Asks(cfg: Settings, call: Call, signature: Bytes) {
    call.front.Passed? && Validate(cfg.limits, Request(call)).None? && Admission.Signature(Request(call)) == signature
  }

  lemma SubmitAsked(cfg: Settings, s: Sys, call: Call, signature: Bytes)
    requires Asks(cfg, call, signature)
    ensures Submit(cfg, s, call) == AdmitThenSettle(cfg, s, call, Request(call)) && signature != []
  {
    ValidatedHasSignature(cfg.limits, Request(call));
  }

  /** While its window lasts, a settled signature stays settled whatever is submitted, and is not dispatched again. */
  lemma SettledStays(cfg: Settings, s: Sys, call: Call, signature: Bytes, receipt: Bytes, until: int)
    requires Settled(s.admission, signature, receipt, until) && call.now <= until
    ensures var (s', _, outcome) := Submit(cfg, s, call);
            Settled(s'.admission, signature, receipt, until)
            && !(outcome.Dispatched? && outcome.signature == signature)
  {
    if call.front.Passed? && Validate(cfg.limits, Request(call)).None? {
      var request := Request(call);
      var asked := Admission.Signature(request);
      SubmitAsked(cfg, s, call, asked);
      if asked == signature {
        AdmitAgain(cfg.admission, s.admission, call.now, signature, receipt, until);
      } else {
        var reply := Dispatch(call.runtime, Normalize(request, call.newId).value);
        AdmitElsewhere(cfg.admission, s.admission, asked, call.now, reply.receiptRef, signature, receipt, until);
      }
    }
  }

  lemma DispatchSettles(cfg: Settings, s: Sys, call: Call)
    requires Submit(cfg, s, call).2.Dispatched?
    ensures var (s', _, outcome) := Submit(cfg, s, call);
            Settled(s'.admission, outcome.signature, ReceiptLeft(cfg.admission, outcome.ticketRef, outcome.reply),
                    call.now + cfg.admission.windowMs)
  {
    var request := Request(call);
    var reply := Dispatch(call.runtime, Normalize(request, call.newId).value);
    AdmitSettles(cfg.admission, s.admission, Admission.Signature(request), call.now, reply.receiptRef);
  }

  lemma {:induction false} SettledThrough(cfg: Settings, r: Log, i: nat, n: nat)
    requires IsRun(cfg, r) && Clocked(r) && i < n <= |r.calls| && r.outcomes[i].Dispatched?
    requires r.calls[n - 1].now <= r.calls[i].now + cfg.admission.windowMs
    ensures var outcome := r.outcomes[i];
            Settled(r.systems[n].admission, outcome.signature,
                    ReceiptLeft(cfg.admission, outcome.ticketRef, outcome.reply),
                    r.calls[i].now + cfg.admission.windowMs)
    decreases n
  {
    var outcome := r.outcomes[i];
    assert At(n - 1);
    if n == i + 1 {
      DispatchSettles(cfg, r.systems[i], r.calls[i]);
    } else {
      assert r.calls[n - 2].now <= r.calls[n - 1].now;
      SettledThrough(cfg, r, i, n - 1);
      SettledStays(cfg, r.systems[n - 1], r.calls[n - 1], outcome.signature,
                   ReceiptLeft(cfg.admission, outcome.ticketRef, outcome.reply),
                       r.calls[i].now + cfg.admission.windowMs);
    }
  }

  lemma SettledWhenAsked(cfg: Settings, r: Log, i: nat, j: nat)
    requires IsRun(cfg, r) && Clocked(r) && i < j < |r.calls| && r.outcomes[i].Dispatched?
    requires r.calls[j].now <= r.calls[i].now + cfg.admission.windowMs
    ensures var outcome := r.outcomes[i];
            Settled(r.systems[j].admission, outcome.signature,
                    ReceiptLeft(cfg.admission, outcome.ticketRef, outcome.reply),
                    r.calls[i].now + cfg.admission.windowMs)
  {
    assert r.calls[j - 1].now <= r.calls[j].now;
    SettledThrough(cfg, r, i, j);
  }

  lemma NotDispatchedInWindow(cfg: Settings, r: Log, i: nat, j: nat)
    requires IsRun(cfg, r) && Clocked(r) && i < j < |r.calls| && r.outcomes[i].Dispatched?
    requires r.calls[j].now <= r.calls[i].now + cfg.admission.windowMs
    ensures !DispatchedAt(r, j, r.outcomes[i].signature)
  {
    var outcome := r.outcomes[i];
    SettledWhenAsked(cfg, r, i, j);
    assert At(j);
    SettledStays(cfg, r.systems[j], r.calls[j], outcome.signature,
                 ReceiptLeft(cfg.admission, outcome.ticketRef, outcome.reply), r.calls[i].now + cfg.admission.windowMs);
  }

  /** In every sequential run, two dispatches of one signature are more than the window apart. */
  lemma DispatchSpacing(cfg: Settings, r: Log, i: nat, j: nat, signature: Bytes)
    requires IsRun(cfg, r) && Clocked(r) && i < j
    requires DispatchedAt(r, i, signature) && DispatchedAt(r, j, signature)
    ensures r.calls[j].now > r.calls[i].now + cfg.admission.windowMs
  {
    if r.calls[j].now <= r.calls[i].now + cfg.admission.windowMs {
      NotDispatchedInWindow(cfg, r, i, j);
    }
  }

  /** Between the calls of a sequential run nothing is in flight. */
  lemma {:induction false} NothingInFlight(cfg: Settings, r: Log, n: nat)
    requires IsRun(cfg, r) && n <= |r.calls|
    ensures r.systems[n].admission.inflight == map[]
  {
    if n > 0 {
      NothingInFlight(cfg, r, n - 1);
      assert At(n - 1);
      SubmitConservesTickets(cfg, r.systems[n - 1], r.calls[n - 1]);
    }
  }

  lemma SubmitAgain(cfg: Settings, s: Sys, call: Call, signature: Bytes, receipt: Bytes, until: int)
    requires Settled(s.admission, signature, receipt, until) && call.now <= until && Asks(cfg, call, signature)
    requires s.admission.inflight == map[] && cfg.admission.maxInflight > 0
    ensures Submit(cfg, s, call).1 == ReplayResult(Some(receipt))
  {
    SubmitAsked(cfg, s, call, signature);
    AdmitAgain(cfg.admission, s.admission, call.now, signature, receipt, until);
  }

  /** A repeat inside the window of a dispatch is told the receipt that dispatch left. */
  lemma RepeatIsReplayed(cfg: Settings, r: Log, i: nat, j: nat)
    requires IsRun(cfg, r) && Clocked(r) && i < j < |r.calls| && r.outcomes[i].Dispatched?
    requires Asks(cfg, r.calls[j], r.outcomes[i].signature)
    requires r.calls[j].now <= r.calls[i].now + cfg.admission.windowMs
    ensures r.results[j] == ReplayResult(Some(ReceiptLeft(cfg.admission, r.outcomes[i].ticketRef, r.outcomes[i].reply)))
  {
    var outcome := r.outcomes[i];
    SettledWhenAsked(cfg, r, i, j);
    NothingInFlight(cfg, r, j);
    RunHasRoom(cfg, r, i);
    assert At(j);
    SubmitAgain(cfg, r.systems[j], r.calls[j], outcome.signature,
                ReceiptLeft(cfg.admission, outcome.ticketRef, outcome.reply), r.calls[i].now + cfg.admission.windowMs);
  }

  lemma RunHasRoom(cfg: Settings, r: Log, i: nat)
    requires IsRun(cfg, r) && i < |r.calls| && r.outcomes[i].Dispatched?
    ensures cfg.admission.maxInflight > 0
  {
    assert At(i);
    DispatchedHasRoom(cfg, r.systems[i], r.calls[i]);
  }

  lemma DispatchedHasRoom(cfg: Settings, s: Sys, call: Call)
    requires Submit(cfg, s, call).2.Dispatched?
    ensures cfg.admission.maxInflight > 0
  {
  }

  // ----- Receipts agree -----

  /** The receipt id the registry derives is the one in the reply, unless that is empty. */
  lemma RegisteredId(r: DispatchRequest, runtime: Runtime)
    requires Gated(runtime, r) && Dispatch(runtime, r).disposition == AcceptedAsync
    ensures var reply := Dispatch(runtime, r);
            reply.receiptRef.Some?
            && (reply.receiptRef == Some([]) <==> (runtime.backend.value)(r).receiptRef == Some([]))
            && (AsyncRegistry.ReceiptId(r, reply) == reply.receiptRef.value <==> reply.receiptRef != Some([]))
  {
    assert |RECEIPT_PREFIX| == 8;
  }

  /** A dispatch whose accepted result got a receipt. */
  predicate AcceptedWithReceipt(cfg: Settings, s: Sys, call: Call) {
    var outcome := Submit(cfg, s, call).2;
    outcome.Dispatched? && outcome.reply.disposition == AcceptedAsync && AsyncRegistrySpec.ValidKey(s.registry.current)
  }

  lemma AcceptedIsGated(cfg: Settings, s: Sys, call: Call)
    requires AcceptedWithReceipt(cfg, s, call)
    ensures call.front.Passed? && Normalize(Request(call), call.newId).Some?
    ensures var normal := Normalize(Request(call), call.newId).value;
            Gated(call.runtime, normal) && Submit(cfg, s, call).2.reply == Dispatch(call.runtime, normal)
  {
  }

  /** The first caller is told the id under which the registry now holds a receipt. */
  lemma FirstCallerId(cfg: Settings, s: Sys, call: Call)
    requires AcceptedWithReceipt(cfg, s, call)
    ensures var (s', result, outcome) := Submit(cfg, s, call);
            var normal := Normalize(Request(call), call.newId);
            normal.Some? && result.disposition == AcceptedAsync
            && result.receiptRef == Some(AsyncRegistry.ReceiptId(normal.value, outcome.reply))
            && result.receiptRef.value in s'.registry.receipts
            && s'.registry.receipts[result.receiptRef.value].receipt.receiptId == result.receiptRef.value
  {
  }

  /**
   What the first caller is told: the reply itself, or with the id of its receipt, or an error
   without a valid key.
   */
  lemma FirstAnswer(cfg: Settings, s: Sys, call: Call)
    requires Submit(cfg, s, call).2.Dispatched?
    ensures call.front.Passed? && Normalize(Request(call), call.newId).Some?
    ensures var (_, result, outcome) := Submit(cfg, s, call);
            var normal, reply := Normalize(Request(call), call.newId).value, outcome.reply;
            reply == Dispatch(call.runtime, normal)
            && result ==
               if reply.disposition != AcceptedAsync then reply
               else if AsyncRegistrySpec.ValidKey(s.registry.current) then
                 reply.(receiptRef := Some(AsyncRegistry.ReceiptId(normal, reply)))
               else Rejection(InternalError)
  {
  }

  /** When the id a repeat is told is the id the first caller was told: an exact condition on the reply and the key. */
  predicate AgreeingReply(registry: Registry, reply: DispatchResult) {
    if reply.disposition == AcceptedAsync then
      AsyncRegistrySpec.ValidKey(registry.current) && reply.receiptRef != Some([])
    else reply.receiptRef.Some?
  }

  /** An accepted reply came through all gates, and then has a reference. */
  lemma AcceptedReply(r: DispatchRequest, runtime: Runtime)
    requires Dispatch(runtime, r).disposition == AcceptedAsync
    ensures Gated(runtime, r) && Dispatch(runtime, r).receiptRef.Some?
  {
  }

  /**
   For every dispatch and every repeat of its signature inside the window, whatever the reply
   of the runtime was: both callers are told the same receipt id exactly when the reply
   agrees, and the same disposition exactly when the dispatch was accepted and got a receipt.
   */
  lemma AgreementExactly(cfg: Settings, r: Log, i: nat, j: nat)
    requires IsRun(cfg, r) && Clocked(r) && i < j < |r.calls|
    requires r.outcomes[i].Dispatched? && Asks(cfg, r.calls[j], r.outcomes[i].signature)
    requires r.calls[j].now <= r.calls[i].now + cfg.admission.windowMs
    ensures var registry, reply := r.systems[i].registry, r.outcomes[i].reply;
            (r.results[j].receiptRef == r.results[i].receiptRef <==> AgreeingReply(registry, reply))
            && (r.results[j].disposition == r.results[i].disposition <==>
                  reply.disposition == AcceptedAsync && AsyncRegistrySpec.ValidKey(registry.current))
  {
    var call, reply := r.calls[i], r.outcomes[i].reply;
    assert At(i);
    FirstAnswer(cfg, r.systems[i], call);
    RepeatIsReplayed(cfg, r, i, j);
    if reply.disposition == AcceptedAsync {
      var normal := Normalize(Request(call), call.newId).value;
      AcceptedReply(normal, call.runtime);
      RegisteredId(normal, call.runtime);
    }
  }

  /**
   Within the window, the id replayed to a later caller is the id returned to the first
   caller, which is the id registered, exactly when the backend did not answer with an
   empty receipt reference.
   */
  lemma ReceiptAgreement(cfg: Settings, r: Log, i: nat, j: nat)
    requires IsRun(cfg, r) && Clocked(r) && i < j < |r.calls|
    requires AcceptedWithReceipt(cfg, r.systems[i], r.calls[i])
    requires r.outcomes[i].Dispatched? && Asks(cfg, r.calls[j], r.outcomes[i].signature)
    requires r.calls[j].now <= r.calls[i].now + cfg.admission.windowMs
    ensures r.results[i].receiptRef.Some? && r.results[j].receiptRef.Some?
    ensures r.results[i].receiptRef.value in r.systems[i + 1].registry.receipts
    ensures var call := r.calls[i];
            call.front.Passed? && Normalize(Request(call), call.newId).Some? && call.runtime.backend.Some?
            && (r.results[j].receiptRef == r.results[i].receiptRef <==>
                  (call.runtime.backend.value)(Normalize(Request(call), call.newId).value).receiptRef != Some([]))
  {
    var call := r.calls[i];
    assert At(i);
    AcceptedIsGated(cfg, r.systems[i], call);
    FirstCallerId(cfg, r.systems[i], call);
    RegisteredId(Normalize(Request(call), call.newId).value, call.runtime);
    RepeatIsReplayed(cfg, r, i, j);
  }
}
