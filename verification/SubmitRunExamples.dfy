/** Interleavings in which what holds of submissions one after the other is lost. */
module SubmitRunExamples {
  import opened AccessTypes
  import opened ByteText
  import opened Wrappers
  import opened RequestChecks
  import opened SubmitSpec
  import opened SubmitRuns
  import opened SubmitReceipts
  import opened Widths
  import AdmissionSpec
  import AsyncRegistrySpec

  function Four(cfg: Settings, s: SubmitRuns.State, events: seq<SubmitRuns.Event>): SubmitRuns.Log
    requires |events| == 4
  {
    var (s1, d0) := Step(cfg, s, events[0], 0);
    var (s2, d1) := Step(cfg, s1, events[1], 1);
    var (s3, d2) := Step(cfg, s2, events[2], 2);
    var (s4, d3) := Step(cfg, s3, events[3], 3);
    SubmitRuns.Log(events, [s, s1, s2, s3, s4], [d0, d1, d2, d3])
  }

  lemma AdmitCounter(c: AdmissionSpec.Config, s: Admitting, signature: Bytes, now: int, n: nat)
    requires s.counter <= n
    ensures AdmissionSpec.Admit(c, s, signature, now).0.counter <= n + 1
  {
  }

  lemma StepCounter(cfg: Settings, s: SubmitRuns.State, e: SubmitRuns.Event, k: nat, n: nat)
    requires s.admission.counter <= n
    ensures Step(cfg, s, e, k).0.admission.counter <= n + 1
  {
    if e.AttachReceipt? && e.t in s.unattached {
      AttachLeavesAlone(cfg, s, e.t, s.unattached[e.t]);
    }
    if e.Begin? && Passes(cfg, e.call) {
      AdmitCounter(cfg.admission, s.admission, SignatureOf(e.call), e.call.now, n);
    }
    StepHolds(cfg, s, e, k, (s': SubmitRuns.State, deed) => s'.admission.counter <= n + 1);
  }

  lemma FourIsRun(cfg: Settings, s: SubmitRuns.State, events: seq<SubmitRuns.Event>)
    requires |events| == 4 && Starts(s)
    ensures SubmitRuns.IsRun(cfg, Four(cfg, s, events))
  {
    var r := Four(cfg, s, events);
    StepCounter(cfg, r.states[0], events[0], 0, 0);
    StepCounter(cfg, r.states[1], events[1], 1, 1);
    StepCounter(cfg, r.states[2], events[2], 2, 2);
    StepCounter(cfg, r.states[3], events[3], 3, 3);
  }

  // ----- Single events -----

  /** `Asks`, for the events a proof looks at. */
  ghost predicate Asking(cfg: Settings, call: Call, signature: Bytes) {
    forall k {:trigger SubmitRuns.At(k)} :: SubmitRuns.At(k) ==> Asks(cfg, call, signature)
  }

  lemma AskedNotEmpty(cfg: Settings, call: Call, signature: Bytes)
    requires Asking(cfg, call, signature)
    ensures signature != []
  {
    assert SubmitRuns.At(0);
    ValidatedHasSignature(cfg.limits, Request(call));
  }

  /** An idle thread asks for a signature that admission grants. */
  lemma AdmitsNext(cfg: Settings, r: SubmitRuns.Log, k: nat, t: nat, call: Call, signature: Bytes)
    requires SubmitRuns.IsRun(cfg, r) && k < |r.events| && r.events[k] == Begin(t, call) && Asking(cfg, call, signature)
    requires t !in r.states[k].submissions && t !in r.states[k].unattached
    requires AdmissionSpec.Admit(cfg.admission, r.states[k].admission, signature, call.now).1.Admitted?
    ensures var s, s' := r.states[k], r.states[k + 1];
            var (admission, answer) := AdmissionSpec.Admit(cfg.admission, s.admission, signature, call.now);
            r.deeds[k] == Admits(signature) && s'.admission == admission && s'.registry == s.registry
            && s'.unattached == s.unattached && s'.submissions.Keys == s.submissions.Keys + {t}
            && s'.submissions[t] == Ticketed(call, signature, answer.ticketRef, k)
  {
    assert SubmitRuns.At(k);
  }

  /** A thread with a ticket dispatches with its next event. */
  lemma DispatchesNext(cfg: Settings, r: SubmitRuns.Log, k: nat, t: nat)
    requires SubmitRuns.IsRun(cfg, r) && k < |r.events| && r.events[k].Proceed? && r.events[k].t == t
    requires t in r.states[k].submissions && r.states[k].submissions[t].Ticketed?
    ensures var s, s', p := r.states[k], r.states[k + 1], r.states[k].submissions[t];
            DispatchesAt(r, k, p.signature, p.origin)
            && s'.admission == s.admission && s'.registry == s.registry && s'.unattached == s.unattached
            && s'.submissions.Keys == s.submissions.Keys && s'.submissions[t].Replied?
            && s'.submissions[t].signature == p.signature && s'.submissions[t].ticketRef == p.ticketRef
  {
    ReplyIsThere(cfg, r, k, t);
    assert SubmitRuns.At(k);
  }

  lemma ReplyIsThere(cfg: Settings, r: SubmitRuns.Log, k: nat, t: nat)
    requires SubmitRuns.IsRun(cfg, r) && k < |r.events| && t in r.states[k].submissions
    ensures ReplyTo(r.states[k].submissions[t].call).Some?
  {
    RunPrepared(cfg, r, k);
    PreparedReplies(cfg, r.states[k].submissions[t]);
  }

  lemma LeavesNext(cfg: Settings, r: SubmitRuns.Log, k: nat, t: nat)
    requires SubmitRuns.IsRun(cfg, r) && k < |r.events| && r.events[k] == Finish(t)
    requires t in r.states[k].submissions && r.states[k].submissions[t].Replied?
    ensures var s, s', p := r.states[k], r.states[k + 1], r.states[k].submissions[t];
            r.deeds[k] == Leaves(p.signature, ReceiptLeft(cfg.admission, p.ticketRef, p.reply), p.reply)
            && s'.admission == AdmissionSpec.Complete(cfg.admission, s.admission, p.ticketRef, p.reply.receiptRef)
            && s'.registry == s.registry && s'.submissions.Keys == s.submissions.Keys - {t}
            && s'.unattached.Keys == s.unattached.Keys + {t}
  {
    assert SubmitRuns.At(k);
  }

  lemma ReplaysNext(cfg: Settings, r: SubmitRuns.Log, k: nat, t: nat, call: Call, signature: Bytes, receipt: Bytes,
                    until: int)
    requires SubmitRuns.IsRun(cfg, r) && k < |r.events| && r.events[k] == Begin(t, call) && Asking(cfg, call, signature)
    requires t !in r.states[k].submissions && t !in r.states[k].unattached && call.now <= until
    requires Settled(r.states[k].admission, signature, receipt, until)
    requires !AdmissionSpec.AtLimit(cfg.admission, r.states[k].admission)
    ensures r.deeds[k] == Replays(signature, receipt) && r.states[k + 1].registry == r.states[k].registry
  {
    AskedNotEmpty(cfg, call, signature);
    AdmitAgain(cfg.admission, r.states[k].admission, call.now, signature, receipt, until);
    assert SubmitRuns.At(k);
  }

  // ----- A delayed thread -----

  lemma TwoAdmits(c: AdmissionSpec.Config, s: Admitting, signature: Bytes, now: int, later: int)
    requires AdmissionSpec.DistinctNames(c) && signature != [] && c.maxInflight >= 2 && c.windowMs >= 0
    requires s == AdmissionSpec.INITIAL && later == now + c.windowMs + 1
    ensures var (s', answer) := AdmissionSpec.Admit(c, s, signature, now);
            answer.Admitted? && AdmissionSpec.Admit(c, s', signature, later).1.Admitted?
  {
    AdmissionSpec.LateTicketDoubles(c, signature, now);
  }

  function DelayedEvents(a: Call, b: Call, delay: nat): seq<SubmitRuns.Event> {
    [Begin(0, a), Proceed(0, a.now + delay), Begin(1, b), Proceed(1, b.now)]
  }

  lemma DelayedClocked(cfg: Settings, r: SubmitRuns.Log, a: Call, b: Call, delay: nat)
    requires r.events == DelayedEvents(a, b, delay) && b.now == a.now + cfg.admission.windowMs + 1
    requires delay <= cfg.admission.windowMs + 1
    ensures SubmitRuns.Clocked(r) && r.events[3].now - r.events[1].now == cfg.admission.windowMs - delay + 1
  {
  }

  /** An idle thread that admission grants a ticket dispatches with its next event. */
  lemma AdmitAndDispatch(cfg: Settings, r: SubmitRuns.Log, k: nat, t: nat, call: Call, signature: Bytes)
    requires SubmitRuns.IsRun(cfg, r) && k + 2 <= |r.events| && r.events[k] == Begin(t, call)
    requires r.events[k + 1].Proceed? && r.events[k + 1].t == t && Asking(cfg, call, signature)
    requires t !in r.states[k].submissions && t !in r.states[k].unattached
    requires AdmissionSpec.Admit(cfg.admission, r.states[k].admission, signature, call.now).1.Admitted?
    ensures var (admission, answer) :=
              AdmissionSpec.Admit(cfg.admission, r.states[k].admission, signature, call.now);
            var s, s' := r.states[k], r.states[k + 2];
            DispatchesAt(r, k + 1, signature, k)
            && s'.admission == admission && s'.unattached == s.unattached && s'.registry == s.registry
            && s'.submissions.Keys == s.submissions.Keys + {t} && s'.submissions[t].Replied?
            && s'.submissions[t].signature == signature && s'.submissions[t].ticketRef == answer.ticketRef
  {
    AdmitsNext(cfg, r, k, t, call, signature);
    DispatchesNext(cfg, r, k + 1, t);
  }

  lemma DispatchesAfter(cfg: Settings, r: SubmitRuns.Log, k: nat, t: nat, call: Call, signature: Bytes)
    requires SubmitRuns.IsRun(cfg, r) && k + 2 <= |r.events| && r.events[k] == Begin(t, call)
    requires r.events[k + 1].Proceed? && r.events[k + 1].t == t && Asking(cfg, call, signature)
    requires t !in r.states[k].submissions && t !in r.states[k].unattached
    requires AdmissionSpec.Admit(cfg.admission, r.states[k].admission, signature, call.now).1.Admitted?
    ensures DispatchesAt(r, k + 1, signature, k)
  {
    AdmitsNext(cfg, r, k, t, call, signature);
    DispatchesNext(cfg, r, k + 1, t);
  }

  /** With nothing under way before, the other threads stay idle. */
  lemma OthersIdle(cfg: Settings, r: SubmitRuns.Log, k: nat, a: Call, signature: Bytes)
    requires SubmitRuns.IsRun(cfg, r) && k + 2 <= |r.events| && r.events[k] == Begin(0, a)
    requires r.events[k + 1].Proceed? && r.events[k + 1].t == 0 && Asking(cfg, a, signature)
    requires r.states[k].submissions == map[] && r.states[k].unattached == map[]
    requires AdmissionSpec.Admit(cfg.admission, r.states[k].admission, signature, a.now).1.Admitted?
    ensures DispatchesAt(r, k + 1, signature, k) && 1 !in r.states[k + 2].submissions
            && 1 !in r.states[k + 2].unattached
    ensures r.states[k + 2].admission == AdmissionSpec.Admit(cfg.admission, r.states[k].admission, signature, a.now).0
  {
    AdmitAndDispatch(cfg, r, k, 0, a, signature);
  }

  lemma BothDispatch(cfg: Settings, r: SubmitRuns.Log, k: nat, a: Call, b: Call, signature: Bytes)
    requires SubmitRuns.IsRun(cfg, r) && k + 4 <= |r.events| && r.events[k] == Begin(0, a)
             && r.events[k + 2] == Begin(1, b)
    requires r.events[k + 1].Proceed? && r.events[k + 1].t == 0 && r.events[k + 3].Proceed? && r.events[k + 3].t == 1
    requires Asking(cfg, a, signature) && Asking(cfg, b, signature)
    requires r.states[k].submissions == map[] && r.states[k].unattached == map[]
    requires var (admission, answer) := AdmissionSpec.Admit(cfg.admission, r.states[k].admission, signature, a.now);
             answer.Admitted? && AdmissionSpec.Admit(cfg.admission, admission, signature, b.now).1.Admitted?
    ensures DispatchesAt(r, k + 1, signature, k) && DispatchesAt(r, k + 3, signature, k + 2)
  {
    OthersIdle(cfg, r, k, a, signature);
    DispatchesAfter(cfg, r, k + 2, 1, b, signature);
  }

  /**
   The bound on the distance of dispatches is attained for every delay up to the window: one
   thread dispatches `delay` after its admission, and the next is admitted and dispatched as
   soon as the window is over. With a delay of the window and one more they dispatch at once.
   */
  lemma DelayedDispatches(cfg: Settings, r: SubmitRuns.Log, a: Call, b: Call, delay: nat, signature: Bytes)
    requires AdmissionSpec.DistinctNames(cfg.admission) && cfg.admission.maxInflight >= 2 && cfg.admission.windowMs >= 0
    requires Asking(cfg, a, signature) && Asking(cfg, b, signature) && b.now == a.now + cfg.admission.windowMs + 1
    requires delay <= cfg.admission.windowMs + 1
    requires SubmitRuns.IsRun(cfg, r) && r.events == DelayedEvents(a, b, delay)
    ensures DispatchesAt(r, 1, signature, 0) && DispatchesAt(r, 3, signature, 2)
  {
    AskedNotEmpty(cfg, a, signature);
    TwoAdmits(cfg.admission, r.states[0].admission, signature, a.now, b.now);
    BothDispatch(cfg, r, 0, a, b, signature);
  }

  // ----- A repeat before the attachment -----

  lemma FirstAdmit(c: AdmissionSpec.Config, s: Admitting, signature: Bytes, now: int)
    requires s == AdmissionSpec.INITIAL && c.maxInflight >= 1 && signature != []
    ensures var (a, answer) := AdmissionSpec.Admit(c, s, signature, now);
            answer.Admitted? && a.inflight.Keys == {answer.ticketRef}
  {
    assert AdmissionSpec.Prune(AdmissionSpec.INITIAL.records, now) == map[];
  }

  /** The first ticket is completed, and its record is settled. */
  lemma FinishSettles(cfg: Settings, r: SubmitRuns.Log, k: nat, s0: Admitting, now: int, signature: Bytes)
    requires SubmitRuns.IsRun(cfg, r) && k < |r.events| && r.events[k] == Finish(0)
    requires 0 in r.states[k].submissions && r.states[k].submissions[0].Replied?
    requires var s, (admission, answer) := r.states[k], AdmissionSpec.Admit(cfg.admission, s0, signature, now);
             s.admission == admission && answer.Admitted?
             && admission.inflight.Keys == {answer.ticketRef} && cfg.admission.maxInflight >= 1
             && s.submissions[0].signature == signature && s.submissions[0].ticketRef == answer.ticketRef
    ensures var s, s' := r.states[k], r.states[k + 1];
            r.deeds[k].Leaves? && r.deeds[k].signature == signature && s'.registry == s.registry
            && s'.submissions.Keys == s.submissions.Keys - {0} && s'.unattached.Keys == s.unattached.Keys + {0}
            && Settled(s'.admission, signature, r.deeds[k].receipt, now + cfg.admission.windowMs)
            && !AdmissionSpec.AtLimit(cfg.admission, s'.admission)
  {
    AdmitSettles(cfg.admission, s0, signature, now, r.states[k].submissions[0].reply.receiptRef);
    LeavesNext(cfg, r, k, 0);
  }

  lemma RepeatIsTold(cfg: Settings, r: SubmitRuns.Log, k: nat, a: Call, b: Call, signature: Bytes)
    requires SubmitRuns.IsRun(cfg, r) && k + 4 <= |r.events| && r.events[k] == Begin(0, a)
             && r.events[k + 3] == Begin(1, b)
    requires r.events[k + 1].Proceed? && r.events[k + 1].t == 0 && r.events[k + 2] == Finish(0)
    requires Asking(cfg, a, signature) && Asking(cfg, b, signature) && b.now <= a.now + cfg.admission.windowMs
    requires r.states[k].submissions == map[] && r.states[k].unattached == map[] && cfg.admission.maxInflight >= 1
    requires var (admission, answer) := AdmissionSpec.Admit(cfg.admission, r.states[k].admission, signature, a.now);
             answer.Admitted? && admission.inflight.Keys == {answer.ticketRef}
    ensures r.deeds[k + 2].Leaves? && r.deeds[k + 3] == Replays(signature, r.deeds[k + 2].receipt)
    ensures r.states[k + 4].registry == r.states[k].registry
  {
    AdmitAndDispatch(cfg, r, k, 0, a, signature);
    FinishSettles(cfg, r, k + 2, r.states[k].admission, a.now, signature);
    ReplaysNext(cfg, r, k + 3, 1, b, signature, r.deeds[k + 2].receipt, a.now + cfg.admission.windowMs);
  }

  function RepeatEvents(a: Call, b: Call): seq<SubmitRuns.Event> {
    [Begin(0, a), Proceed(0, a.now), Finish(0), Begin(1, b)]
  }

  lemma RepeatClocked(r: SubmitRuns.Log, a: Call, b: Call)
    requires r.events == RepeatEvents(a, b) && a.now <= b.now
    ensures SubmitRuns.Clocked(r)
  {
  }

  /** Between completion and attachment a repeat is told an id, while the registry is as it was at the start. */
  lemma ReplayBeforeAttach(cfg: Settings, r: SubmitRuns.Log, a: Call, b: Call, signature: Bytes)
    requires Asking(cfg, a, signature) && Asking(cfg, b, signature) && cfg.admission.maxInflight >= 1
    requires a.now <= b.now <= a.now + cfg.admission.windowMs
    requires SubmitRuns.IsRun(cfg, r) && r.events == RepeatEvents(a, b)
    ensures r.deeds[2].Leaves? && r.deeds[3] == Replays(signature, r.deeds[2].receipt)
            && r.states[4].registry == r.states[0].registry
  {
    AskedNotEmpty(cfg, a, signature);
    FirstAdmit(cfg.admission, r.states[0].admission, signature, a.now);
    RepeatIsTold(cfg, r, 0, a, b, signature);
  }
}
