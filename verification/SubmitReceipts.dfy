/** Receipts in interleaved submissions: which ids are replayed, and which the registry holds by then. */
module SubmitReceipts {
  import opened AccessTypes
  import opened ByteText
  import opened Wrappers
  import opened RequestChecks
  import opened SubmitSpec
  import opened SubmitRuns
  import opened Threads
  import AdmissionSpec
  import AsyncRegistrySpec
  import AsyncRegistry

  // ----- Replayed ids -----

  predicate LeavesAt(r: SubmitRuns.Log, f: nat, signature: Bytes, receipt: Bytes) {
    f < |r.deeds| && r.deeds[f].Leaves? && r.deeds[f].signature == signature && r.deeds[f].receipt == receipt
  }

  ghost predicate LeftBefore(r: SubmitRuns.Log, n: nat, signature: Bytes, receipt: Bytes) {
    exists f: nat :: f < n && LeavesAt(r, f, signature, receipt)
  }

  /** The record has a receipt to replay. */
  predicate Replayable(s: Admitting, signature: Bytes, receipt: Bytes) {
    signature in s.records && s.records[signature].replayRef == Some(receipt)
  }

  lemma AdmitReplayable(c: AdmissionSpec.Config, s: Admitting, asked: Bytes, now: int, signature: Bytes, receipt: Bytes)
    requires Replayable(AdmissionSpec.Admit(c, s, asked, now).0, signature, receipt)
    ensures Replayable(s, signature, receipt)
  {
  }

  lemma CompleteReplayable(c: AdmissionSpec.Config, s: Admitting, ref: Bytes, given: Option<Bytes>, signature: Bytes,
                           receipt: Bytes)
    requires ref in s.inflight && Replayable(AdmissionSpec.Complete(c, s, ref, given), signature, receipt)
    ensures Replayable(s, signature, receipt)
            || (s.inflight[ref].signature == signature && receipt == given.GetOr(c.receiptName(ref)))
  {
  }

  /** A receipt to replay was there before, or the step left it. */
  lemma StepReplayable(cfg: Settings, s: SubmitRuns.State, e: SubmitRuns.Event, k: nat, signature: Bytes,
                       receipt: Bytes)
    requires Matched(s) && Replayable(Step(cfg, s, e, k).0.admission, signature, receipt)
    ensures var deed := Step(cfg, s, e, k).1;
            Replayable(s.admission, signature, receipt)
            || (deed.Leaves? && deed.signature == signature && deed.receipt == receipt)
  {
    match e {
      case Begin(t, call) =>
        if Passes(cfg, call) && Replayable(AdmissionSpec.Admit(cfg.admission, s.admission, SignatureOf(call),
                                                               call.now).0, signature, receipt) {
          AdmitReplayable(cfg.admission, s.admission, SignatureOf(call), call.now, signature, receipt);
        }
      case Proceed(t, _) =>
      case Finish(t) =>
        if t in s.submissions && s.submissions[t].Replied? {
          var p := s.submissions[t];
          assert HoldsTicket(s, t);
          if Replayable(FinishStep(cfg, s, t, p).0.admission, signature, receipt) {
            CompleteReplayable(cfg.admission, s.admission, p.ticketRef, p.reply.receiptRef, signature, receipt);
          }
        }
      case AttachReceipt(t) =>
        if t in s.unattached {
          AttachLeavesAlone(cfg, s, t, s.unattached[t]);
        }
    }
    StepHolds(cfg, s, e, k, (s': SubmitRuns.State, deed: Deed) =>
      Replayable(s'.admission, signature, receipt) ==>
        Replayable(s.admission, signature, receipt)
        || (deed.Leaves? && deed.signature == signature && deed.receipt == receipt));
  }

  lemma ReplayableAt(cfg: Settings, r: SubmitRuns.Log, k: nat, signature: Bytes, receipt: Bytes)
    requires AdmissionSpec.DistinctNames(cfg.admission) && SubmitRuns.IsRun(cfg, r) && k < |r.events|
    requires Replayable(r.states[k + 1].admission, signature, receipt)
    ensures Replayable(r.states[k].admission, signature, receipt) || LeavesAt(r, k, signature, receipt)
  {
    RunSound(cfg, r, k);
    assert SubmitRuns.At(k);
    StepReplayable(cfg, r.states[k], r.events[k], k, signature, receipt);
  }

  lemma {:induction false} ReplayableWasLeft(cfg: Settings, r: SubmitRuns.Log, n: nat, signature: Bytes, receipt: Bytes)
    requires AdmissionSpec.DistinctNames(cfg.admission) && SubmitRuns.IsRun(cfg, r) && n <= |r.events|
    requires Replayable(r.states[n].admission, signature, receipt)
    ensures LeftBefore(r, n, signature, receipt)
  {
    if n > 0 {
      ReplayableAt(cfg, r, n - 1, signature, receipt);
      if !LeavesAt(r, n - 1, signature, receipt) {
        ReplayableWasLeft(cfg, r, n - 1, signature, receipt);
        var f: nat :| f < n - 1 && LeavesAt(r, f, signature, receipt);
        assert f < n && LeavesAt(r, f, signature, receipt);
      }
    }
  }

  lemma RefusalReplays(c: AdmissionSpec.Config, s: Admitting, signature: Bytes, now: int, receipt: Bytes)
    requires AdmissionSpec.Sound(c, s)
    requires !AdmissionSpec.Admit(c, s, signature, now).1.Admitted?
    requires Refusal(signature, AdmissionSpec.Admit(c, s, signature, now).1) == Replays(signature, receipt)
    ensures Replayable(s, signature, receipt)
  {
    assert signature in s.records ==> AdmissionSpec.SoundRecord(s, signature);
  }

  lemma StepReplays(cfg: Settings, s: SubmitRuns.State, e: SubmitRuns.Event, k: nat, signature: Bytes, receipt: Bytes)
    requires AdmissionSpec.Sound(cfg.admission, s.admission)
    requires Step(cfg, s, e, k).1 == Replays(signature, receipt)
    ensures Replayable(s.admission, signature, receipt)
  {
    if e.Begin? && Passes(cfg, e.call) {
      var asked := SignatureOf(e.call);
      var answer := AdmissionSpec.Admit(cfg.admission, s.admission, asked, e.call.now).1;
      if !answer.Admitted? && Refusal(asked, answer) == Replays(signature, receipt) {
        RefusalReplays(cfg.admission, s.admission, asked, e.call.now, receipt);
      }
    } else if e.AttachReceipt? && e.t in s.unattached {
      AttachLeavesAlone(cfg, s, e.t, s.unattached[e.t]);
    }
    StepHolds(cfg, s, e, k, (s': SubmitRuns.State, deed: Deed) =>
      deed == Replays(signature, receipt) ==> Replayable(s.admission, signature, receipt));
  }

  /** In every interleaving a replayed id was left by an earlier completion of the same signature. */
  lemma ReplayedWasLeft(cfg: Settings, r: SubmitRuns.Log, j: nat, signature: Bytes, receipt: Bytes)
    requires AdmissionSpec.DistinctNames(cfg.admission) && SubmitRuns.IsRun(cfg, r) && j < |r.events|
    requires r.deeds[j] == Replays(signature, receipt)
    ensures LeftBefore(r, j, signature, receipt)
  {
    RunSound(cfg, r, j);
    assert SubmitRuns.At(j);
    StepReplays(cfg, r.states[j], r.events[j], j, signature, receipt);
    ReplayableWasLeft(cfg, r, j, signature, receipt);
  }

  // ----- Registered ids -----

  ghost predicate RegisteredBefore(r: SubmitRuns.Log, n: nat, id: Bytes) {
    exists m: nat :: m < n && m < |r.deeds| && r.deeds[m] == Registers(id)
  }

  lemma StepRegisters(cfg: Settings, s: SubmitRuns.State, e: SubmitRuns.Event, k: nat, id: Bytes)
    ensures var (s', deed) := Step(cfg, s, e, k);
            id in s'.registry.receipts <==> id in s.registry.receipts || deed == Registers(id)
  {
    StepHolds(cfg, s, e, k, (s': SubmitRuns.State, deed: Deed) =>
      (id in s'.registry.receipts <==> id in s.registry.receipts || deed == Registers(id)));
  }

  lemma RegistersAt(cfg: Settings, r: SubmitRuns.Log, k: nat, id: Bytes)
    requires SubmitRuns.IsRun(cfg, r) && k < |r.events|
    ensures id in r.states[k + 1].registry.receipts <==>
              id in r.states[k].registry.receipts || r.deeds[k] == Registers(id)
  {
    assert SubmitRuns.At(k);
    StepRegisters(cfg, r.states[k], r.events[k], k, id);
  }

  /** In every interleaving the registry holds exactly the ids it started with and those attached so far. */
  lemma {:induction false} RegisteredExactly(cfg: Settings, r: SubmitRuns.Log, n: nat, id: Bytes)
    requires SubmitRuns.IsRun(cfg, r) && n <= |r.events|
    ensures id in r.states[n].registry.receipts <==> id in r.states[0].registry.receipts || RegisteredBefore(r, n, id)
  {
    if n > 0 {
      RegisteredExactly(cfg, r, n - 1, id);
      RegistersAt(cfg, r, n - 1, id);
    }
  }

  // ----- From completion to attachment -----

  /** Replies held by a submission, or waiting to be attached, are those of the runtime. */
  ghost predicate Answering(s: SubmitRuns.State) {
    (forall t :: t in s.submissions && s.submissions[t].Replied? ==>
     ReplyTo(s.submissions[t].call) == Some(s.submissions[t].reply))
    && forall t :: t in s.unattached ==> ReplyTo(s.unattached[t].call) == Some(s.unattached[t].reply)
  }

  lemma BeginAnswering(cfg: Settings, s: SubmitRuns.State, t: Thread, call: Call, signature: Bytes, k: nat)
    requires Answering(s)
    ensures Answering(BeginStep(cfg, s, t, call, signature, k).0)
  {
  }

  lemma ProceedAnswering(s: SubmitRuns.State, t: Thread, p: Phase)
    requires Answering(s)
    ensures Answering(ProceedStep(s, t, p, ReplyTo(p.call)).0)
  {
  }

  lemma FinishAnswering(cfg: Settings, s: SubmitRuns.State, t: Thread, p: Phase)
    requires Answering(s) && t in s.submissions && s.submissions[t] == p && p.Replied?
    ensures Answering(FinishStep(cfg, s, t, p).0)
  {
  }

  lemma AttachAnswering(cfg: Settings, s: SubmitRuns.State, t: Thread, w: Unattached)
    requires Answering(s)
    ensures Answering(AttachStep(cfg, s, t, w).0)
  {
    AttachLeavesAlone(cfg, s, t, w);
  }

  lemma RunAnswering(cfg: Settings, r: SubmitRuns.Log, n: nat)
    requires SubmitRuns.IsRun(cfg, r) && n <= |r.events|
    ensures Answering(r.states[n])
  {
    forall s: SubmitRuns.State, t, call: Call, k: nat | Answering(s) && Passes(cfg, call)
      ensures Answering(BeginStep(cfg, s, t, call, SignatureOf(call), k).0)
    {
      BeginAnswering(cfg, s, t, call, SignatureOf(call), k);
    }
    forall s: SubmitRuns.State, t | Answering(s) && t in s.submissions
      ensures Answering(ProceedStep(s, t, s.submissions[t], ReplyTo(s.submissions[t].call)).0)
    {
      ProceedAnswering(s, t, s.submissions[t]);
    }
    forall s: SubmitRuns.State, t | Answering(s) && t in s.submissions && s.submissions[t].Replied?
      ensures Answering(FinishStep(cfg, s, t, s.submissions[t]).0)
    {
      FinishAnswering(cfg, s, t, s.submissions[t]);
    }
    forall s: SubmitRuns.State, t | Answering(s) && t in s.unattached
      ensures Answering(AttachStep(cfg, s, t, s.unattached[t]).0)
    {
      AttachAnswering(cfg, s, t, s.unattached[t]);
    }
    RunKeeps(cfg, s => Answering(s), r, n);
  }

  /** What a completion leaves waiting stays until it is attached. */
  lemma StaysUnattached(cfg: Settings, s: SubmitRuns.State, e: SubmitRuns.Event, k: nat, t: Thread)
    requires t in s.unattached && t !in s.submissions && !(e.AttachReceipt? && e.t == t)
    ensures var s' := Step(cfg, s, e, k).0;
            t in s'.unattached && t !in s'.submissions && s'.unattached[t] == s.unattached[t]
  {
  }

  /** No event before `m` attaches the receipt the thread got to attach at `f`. */
  ghost predicate NotYetAttached(r: SubmitRuns.Log, f: nat, m: nat, t: Thread)
    requires m <= |r.events|
  {
    forall i :: f < i < m ==> !(r.events[i].AttachReceipt? && r.events[i].t == t)
  }

  lemma {:induction false} WaitsUnattached(cfg: Settings, r: SubmitRuns.Log, f: nat, m: nat)
    requires SubmitRuns.IsRun(cfg, r) && f < m <= |r.events| && r.events[f].Finish? && r.deeds[f].Leaves?
    requires NotYetAttached(r, f, m, r.events[f].t)
    ensures var s, t := r.states[m], r.events[f].t;
            t in s.unattached && t !in s.submissions
            && s.unattached[t].reply == r.deeds[f].reply && s.unattached[t].left == r.deeds[f].receipt
    decreases m
  {
    assert SubmitRuns.At(m - 1);
    if f < m - 1 {
      WaitsUnattached(cfg, r, f, m - 1);
      StaysUnattached(cfg, r.states[m - 1], r.events[m - 1], m - 1, r.events[f].t);
    }
  }

  lemma FinishLeaves(cfg: Settings, s: SubmitRuns.State, e: SubmitRuns.Event, k: nat)
    requires e.Finish? && Step(cfg, s, e, k).1.Leaves?
    ensures var deed := Step(cfg, s, e, k).1;
            deed.reply.receiptRef.Some? ==> deed.receipt == deed.reply.receiptRef.value
  {
  }

  lemma AttachRegisters(cfg: Settings, s: SubmitRuns.State, t: Thread, w: Unattached)
    requires ReplyTo(w.call) == Some(w.reply)
    ensures var deed := AttachStep(cfg, s, t, w).1;
            if w.reply.disposition == AcceptedAsync && AsyncRegistrySpec.ValidKey(s.registry.current) then
              w.reply.receiptRef.Some? && deed.Registers?
              && (deed.receiptId == w.reply.receiptRef.value <==> w.reply.receiptRef != Some([]))
            else deed == Nothing
  {
    var normal := Normalize(Request(w.call), w.call.newId).value;
    if w.reply.disposition == AcceptedAsync {
      AcceptedReply(normal, w.call.runtime);
      RegisteredId(normal, w.call.runtime);
    }
  }

  lemma FinishLeavesAt(cfg: Settings, r: SubmitRuns.Log, f: nat)
    requires SubmitRuns.IsRun(cfg, r) && f < |r.events| && r.events[f].Finish? && r.deeds[f].Leaves?
    ensures r.deeds[f].reply.receiptRef.Some? ==> r.deeds[f].receipt == r.deeds[f].reply.receiptRef.value
  {
    assert SubmitRuns.At(f);
    FinishLeaves(cfg, r.states[f], r.events[f], f);
  }

  lemma AttachesAt(cfg: Settings, r: SubmitRuns.Log, m: nat, t: Thread)
    requires SubmitRuns.IsRun(cfg, r) && m < |r.events| && r.events[m] == AttachReceipt(t)
             && t in r.states[m].unattached
    ensures r.deeds[m] == AttachStep(cfg, r.states[m], t, r.states[m].unattached[t]).1
  {
    assert SubmitRuns.At(m);
  }

  lemma AttachRegistersAt(cfg: Settings, r: SubmitRuns.Log, m: nat, t: Thread)
    requires SubmitRuns.IsRun(cfg, r) && m < |r.events| && r.events[m] == AttachReceipt(t)
             && t in r.states[m].unattached
    ensures var reply := r.states[m].unattached[t].reply;
            if reply.disposition == AcceptedAsync && AsyncRegistrySpec.ValidKey(r.states[m].registry.current) then
              reply.receiptRef.Some? && r.deeds[m].Registers?
              && (r.deeds[m].receiptId == reply.receiptRef.value <==> reply.receiptRef != Some([]))
            else r.deeds[m] == Nothing
  {
    RunAnswering(cfg, r, m);
    AttachesAt(cfg, r, m, t);
    AttachRegisters(cfg, r.states[m], t, r.states[m].unattached[t]);
  }

  /**
   Whatever happens between the completion and the attachment of a submission, the id that
   completion left for replays is the one the attachment registers exactly when the reply was
   accepted, with a reference that is not empty, and the registry has a valid key by then.
   */
  lemma AttachedAsLeft(cfg: Settings, r: SubmitRuns.Log, f: nat, m: nat)
    requires SubmitRuns.IsRun(cfg, r) && f < m < |r.events| && r.events[f].Finish? && r.deeds[f].Leaves?
    requires r.events[m] == AttachReceipt(r.events[f].t) && NotYetAttached(r, f, m, r.events[f].t)
    ensures var reply, registry := r.deeds[f].reply, r.states[m].registry;
            r.deeds[m] == Registers(r.deeds[f].receipt) <==>
              reply.disposition == AcceptedAsync && AgreeingReply(registry, reply)
  {
    FinishLeavesAt(cfg, r, f);
    WaitsUnattached(cfg, r, f, m);
    AttachRegistersAt(cfg, r, m, r.events[f].t);
  }
}
