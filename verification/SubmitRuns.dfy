/**
 Submissions of unboundedly many threads, interleaved: admission, dispatch, completion and
 the attaching of a receipt are separate atomic steps, and any number of submissions may be
 between two of them.
 */
module SubmitRuns {
  import opened AccessTypes
  import opened ByteText
  import opened Wrappers
  import opened RequestChecks
  import opened SubmitSpec
  import opened Threads
  import opened Widths
  import AdmissionSpec
  import Admission
  import AsyncRegistrySpec
  import AsyncRegistry

  /** A submission holds a ticket, and later also a reply; `origin` is the index of the event that admitted it. */
  datatype Phase =
    | Ticketed(call: Call, signature: Bytes, ticketRef: Bytes, origin: nat)
    | Replied(call: Call, signature: Bytes, ticketRef: Bytes, origin: nat, reply: DispatchResult)

  /** The ticket is settled and its receipt left; the receipt registry has yet to hear of the reply. */
  datatype Unattached = Unattached(call: Call, reply: DispatchResult, left: Bytes)

  datatype State = State(
    admission: Admitting,
    registry: Registry,
    submissions: map<Thread, Phase>,
    unattached: map<Thread, Unattached>
  )

  datatype Event =
    | Begin(t: Thread, call: Call)
    | Proceed(t: Thread, now: int)
    | Finish(t: Thread)
    | AttachReceipt(t: Thread)

  /** What a step did, if anything. */
  datatype Deed =
    | Admits(signature: Bytes)
    | Replays(signature: Bytes, receipt: Bytes)
    | Dispatches(signature: Bytes, origin: nat)
    | GivesBack
    | Leaves(signature: Bytes, receipt: Bytes, reply: DispatchResult)
    | Registers(receiptId: Bytes)
    | Nothing

  predicate Passes(cfg: Settings, call: Call) {
    call.front.Passed? && Validate(cfg.limits, Request(call)).None?
  }

  function SignatureOf(call: Call): Bytes
    requires call.front.Passed?
  {
    Admission.Signature(Request(call))
  }

  /** `None` when the request does not normalize. */
  function ReplyTo(call: Call): Option<DispatchResult> {
    if !call.front.Passed? then None
    else
      match Normalize(Request(call), call.newId)
      case None => None
      case Some(normal) => Some(Dispatch(call.runtime, normal))
  }

  function Refusal(signature: Bytes, answer: AdmissionSpec.Answer): Deed {
    if answer.Refused? && answer.reason == AdmissionSpec.ReplayHit then
      Replays(signature, answer.replayRef.GetOr(REPLAY_REF))
    else Nothing
  }

  function BeginStep(cfg: Settings, s: State, t: Thread, call: Call, signature: Bytes, k: nat): (State, Deed) {
    var (admission, answer) := AdmissionSpec.Admit(cfg.admission, s.admission, signature, call.now);
    if answer.Admitted? then
      (s.(admission := admission, submissions := s.submissions[t := Ticketed(call, signature, answer.ticketRef, k)]),
       Admits(signature))
    else (s.(admission := admission), Refusal(signature, answer))
  }

  function ProceedStep(s: State, t: Thread, p: Phase, reply: Option<DispatchResult>): (State, Deed) {
    match reply
    case None =>
      (s.(admission := AdmissionSpec.Release(s.admission, p.ticketRef), submissions := s.submissions - {t}), GivesBack)
    case Some(r) =>
      (s.(submissions := s.submissions[t := Replied(p.call, p.signature, p.ticketRef, p.origin, r)]),
       Dispatches(p.signature, p.origin))
  }

  function FinishStep(cfg: Settings, s: State, t: Thread, p: Phase): (State, Deed)
    requires p.Replied?
  {
    var left := ReceiptLeft(cfg.admission, p.ticketRef, p.reply);
    (s.(admission := AdmissionSpec.Complete(cfg.admission, s.admission, p.ticketRef, p.reply.receiptRef),
        submissions := s.submissions - {t},
        unattached := s.unattached[t := Unattached(p.call, p.reply, left)]),
     Leaves(p.signature, left, p.reply))
  }

  /** An accepted reply is registered under the id derived from it, when there is a valid key. */
  function AttachStep(cfg: Settings, s: State, t: Thread, w: Unattached): (State, Deed) {
    var s' := s.(unattached := s.unattached - {t});
    if !w.call.front.Passed? then (s', Nothing)
    else
      match Normalize(Request(w.call), w.call.newId)
      case None => (s', Nothing)
      case Some(normal) =>
        (s'.(registry := Attach(cfg.sign, s.registry, normal, w.reply, w.call.clock).0),
         if w.reply.disposition == AcceptedAsync && AsyncRegistrySpec.ValidKey(s.registry.current) then
           Registers(AsyncRegistry.ReceiptId(normal, w.reply))
         else Nothing)
  }

  /** Event number `k`. An event a thread is not ready for changes nothing. */
  function Step(cfg: Settings, s: State, e: Event, k: nat): (State, Deed) {
    match e
    case Begin(t, call) =>
      if t in s.submissions || t in s.unattached || !Passes(cfg, call) then (s, Nothing)
      else BeginStep(cfg, s, t, call, SignatureOf(call), k)
    case Proceed(t, _) =>
      if t !in s.submissions || !s.submissions[t].Ticketed? then (s, Nothing)
      else ProceedStep(s, t, s.submissions[t], ReplyTo(s.submissions[t].call))
    case Finish(t) =>
      if t !in s.submissions || !s.submissions[t].Replied? then (s, Nothing)
      else FinishStep(cfg, s, t, s.submissions[t])
    case AttachReceipt(t) =>
      if t !in s.unattached then (s, Nothing)
      else AttachStep(cfg, s, t, s.unattached[t])
  }

  datatype Log = Log(events: seq<Event>, states: seq<State>, deeds: seq<Deed>)

  /** Marks the events a proof looks at. */
  predicate At(k: int) { true }

  ghost predicate Starts(s: State) {
    s.admission == AdmissionSpec.INITIAL && s.submissions == map[] && s.unattached == map[]
  }

  /** A run from the start in which the ticket counter does not wrap around. */
  ghost predicate IsRun(cfg: Settings, r: Log) {
    |r.states| == |r.events| + 1 && |r.deeds| == |r.events| && Starts(r.states[0])
    && (forall k :: 0 <= k < |r.states| ==> r.states[k].admission.counter + 1 < TWO64)
    && forall k {:trigger At(k)} :: 0 <= k < |r.events| && At(k) ==>
         Step(cfg, r.states[k], r.events[k], k) == (r.states[k + 1], r.deeds[k])
  }

  predicate Timed(e: Event) {
    e.Begin? || e.Proceed?
  }

  function Now(e: Event): int
    requires Timed(e)
  {
    if e.Begin? then e.call.now else e.now
  }

  /** The clock never goes back between admission attempts and dispatches. */
  ghost predicate Clocked(r: Log) {
    forall i, j :: 0 <= i <= j < |r.events| && Timed(r.events[i]) && Timed(r.events[j]) ==>
      Now(r.events[i]) <= Now(r.events[j])
  }

  // ----- What every step keeps -----

  /** The submission's ticket is live for its signature. */
  predicate HoldsTicket(s: State, t: Thread)
    requires t in s.submissions
  {
    var p := s.submissions[t];
    p.ticketRef in s.admission.inflight && s.admission.inflight[p.ticketRef].signature == p.signature
  }

  ghost predicate Owned(s: State, ref: Bytes) {
    exists t :: t in s.submissions && s.submissions[t].ticketRef == ref
  }

  ghost predicate Distinct(s: State) {
    forall t, u ::
      t in s.submissions && u in s.submissions && s.submissions[t].ticketRef == s.submissions[u].ticketRef ==> t == u
  }

  /** Tickets in flight and submissions under way are the same thing. */
  ghost predicate Matched(s: State) {
    (forall t :: t in s.submissions ==> HoldsTicket(s, t)) && Distinct(s)
    && (forall ref :: ref in s.admission.inflight ==> Owned(s, ref))
  }

  ghost predicate All(good: Phase -> bool, submissions: map<Thread, Phase>) {
    forall t :: t in submissions ==> good(submissions[t])
  }

  lemma PutAll(good: Phase -> bool, submissions: map<Thread, Phase>, t: Thread, p: Phase)
    requires All(good, submissions) && good(p)
    ensures All(good, submissions[t := p])
  {
  }

  lemma DropAll(good: Phase -> bool, submissions: map<Thread, Phase>, t: Thread)
    requires All(good, submissions)
    ensures All(good, submissions - {t})
  {
  }

  /** A submission under way passed the validator, so its request will normalize. */
  function PreparedFor(cfg: Settings): Phase -> bool {
    (p: Phase) => Passes(cfg, p.call) && p.signature == SignatureOf(p.call)
  }

  ghost predicate Prepared(cfg: Settings, s: State) {
    All(PreparedFor(cfg), s.submissions)
  }

  ghost predicate Sound(cfg: Settings, s: State) {
    AdmissionSpec.Sound(cfg.admission, s.admission) && Matched(s)
  }

  /** What holds of the outcome of each kind of step holds of the outcome of the event. */
  lemma StepHolds(cfg: Settings, s: State, e: Event, k: nat, holds: (State, Deed) -> bool)
    requires holds(s, Nothing)
    requires e.Begin? && e.t !in s.submissions && Passes(cfg, e.call) ==>
               var (s', deed) := BeginStep(cfg, s, e.t, e.call, SignatureOf(e.call), k); holds(s', deed)
    requires e.Proceed? && e.t in s.submissions ==>
               var p := s.submissions[e.t];
               var (s', deed) := ProceedStep(s, e.t, p, ReplyTo(p.call)); holds(s', deed)
    requires e.Finish? && e.t in s.submissions && s.submissions[e.t].Replied? ==>
               var (s', deed) := FinishStep(cfg, s, e.t, s.submissions[e.t]); holds(s', deed)
    requires e.AttachReceipt? && e.t in s.unattached ==>
               var (s', deed) := AttachStep(cfg, s, e.t, s.unattached[e.t]); holds(s', deed)
    ensures var (s', deed) := Step(cfg, s, e, k); holds(s', deed)
  {
  }

  lemma PreparedReplies(cfg: Settings, p: Phase)
    requires PreparedFor(cfg)(p)
    ensures ReplyTo(p.call).Some?
  {
  }

  lemma OwnedBy(s: State, t: Thread, ref: Bytes)
    requires t in s.submissions && s.submissions[t].ticketRef == ref
    ensures Owned(s, ref)
  {
  }

  /** A new ticket for a thread without one. */
  lemma JoinMatched(s: State, t: Thread, p: Phase, admission: Admitting)
    requires Matched(s) && t !in s.submissions && p.ticketRef !in s.admission.inflight
    requires p.ticketRef in admission.inflight && admission.inflight[p.ticketRef].signature == p.signature
    requires admission.inflight == s.admission.inflight[p.ticketRef := admission.inflight[p.ticketRef]]
    ensures Matched(s.(admission := admission, submissions := s.submissions[t := p]))
  {
    var s' := s.(admission := admission, submissions := s.submissions[t := p]);
    forall u | u in s'.submissions ensures HoldsTicket(s', u) {
      if u != t {
        assert HoldsTicket(s, u);
      }
    }
    forall u | u in s.submissions ensures s.submissions[u].ticketRef != p.ticketRef {
      assert HoldsTicket(s, u);
    }
    forall q | q in s'.admission.inflight ensures Owned(s', q) {
      if q == p.ticketRef {
        OwnedBy(s', t, q);
      } else {
        var u :| u in s.submissions && s.submissions[u].ticketRef == q;
        OwnedBy(s', u, q);
      }
    }
  }

  /** The same tickets, whatever else changes. */
  lemma SameMatched(s: State, s': State)
    requires Matched(s) && s'.admission.inflight == s.admission.inflight && s'.submissions.Keys == s.submissions.Keys
    requires forall t :: t in s.submissions ==>
               s'.submissions[t].ticketRef == s.submissions[t].ticketRef
               && s'.submissions[t].signature == s.submissions[t].signature
    ensures Matched(s')
  {
    forall u | u in s'.submissions ensures HoldsTicket(s', u) {
      assert HoldsTicket(s, u);
    }
    forall q | q in s'.admission.inflight ensures Owned(s', q) {
      var u :| u in s.submissions && s.submissions[u].ticketRef == q;
      OwnedBy(s', u, q);
    }
  }

  lemma LeaveMatched(s: State, t: Thread, admission: Admitting)
    requires Matched(s) && t in s.submissions
    requires admission.inflight == s.admission.inflight - {s.submissions[t].ticketRef}
    ensures Matched(s.(admission := admission, submissions := s.submissions - {t}))
  {
    var s' := s.(admission := admission, submissions := s.submissions - {t});
    forall u | u in s'.submissions ensures HoldsTicket(s', u) {
      assert HoldsTicket(s, u) && HoldsTicket(s, t);
    }
    forall q | q in s'.admission.inflight ensures Owned(s', q) {
      var u :| u in s.submissions && s.submissions[u].ticketRef == q;
      OwnedBy(s', u, q);
    }
  }

  lemma IssueAdds(c: AdmissionSpec.Config, s: Admitting, signature: Bytes, now: int)
    requires AdmissionSpec.Admit(c, s, signature, now).1.Admitted?
    ensures var (a, answer) := AdmissionSpec.Admit(c, s, signature, now);
            var ref := answer.ticketRef;
            ref == c.ticketName(AdmissionSpec.NextNumber(s)) && ref in a.inflight
            && a.inflight[ref].signature == signature
            && a.inflight == s.inflight[ref := a.inflight[ref]]
  {
  }

  lemma BeginMatched(cfg: Settings, s: State, t: Thread, call: Call, signature: Bytes, k: nat)
    requires AdmissionSpec.NextNumber(s.admission) == s.admission.counter + 1
    requires cfg.admission.ticketName(s.admission.counter + 1) !in s.admission.inflight
    requires Matched(s) && t !in s.submissions
    ensures Matched(BeginStep(cfg, s, t, call, signature, k).0)
  {
    var (admission, answer) := AdmissionSpec.Admit(cfg.admission, s.admission, signature, call.now);
    if answer.Admitted? {
      IssueAdds(cfg.admission, s.admission, signature, call.now);
      JoinMatched(s, t, Ticketed(call, signature, answer.ticketRef, k), admission);
    } else {
      RefusalKeepsTickets(cfg.admission, s.admission, signature, call.now);
      SameMatched(s, s.(admission := admission));
    }
  }

  lemma BeginSound(cfg: Settings, s: State, t: Thread, call: Call, signature: Bytes, k: nat)
    requires AdmissionSpec.DistinctNames(cfg.admission) && Sound(cfg, s) && s.admission.counter + 1 < TWO64
    requires t !in s.submissions
    ensures Sound(cfg, BeginStep(cfg, s, t, call, signature, k).0)
  {
    AdmissionSpec.AdmitSound(cfg.admission, s.admission, signature, call.now);
    AdmissionSpec.NextIsNew(cfg.admission, s.admission);
    BeginMatched(cfg, s, t, call, signature, k);
  }

  lemma BeginPrepared(cfg: Settings, s: State, t: Thread, call: Call, k: nat)
    requires Prepared(cfg, s) && Passes(cfg, call)
    ensures Prepared(cfg, BeginStep(cfg, s, t, call, SignatureOf(call), k).0)
  {
    var signature := SignatureOf(call);
    var answer := AdmissionSpec.Admit(cfg.admission, s.admission, signature, call.now).1;
    if answer.Admitted? {
      TicketedPrepared(cfg, call, answer.ticketRef, k);
      PutAll(PreparedFor(cfg), s.submissions, t, Ticketed(call, signature, answer.ticketRef, k));
    }
  }

  lemma TicketedPrepared(cfg: Settings, call: Call, ref: Bytes, k: nat)
    requires Passes(cfg, call)
    ensures PreparedFor(cfg)(Ticketed(call, SignatureOf(call), ref, k))
  {
  }

  lemma RepliedPrepared(cfg: Settings, p: Phase, reply: DispatchResult)
    requires PreparedFor(cfg)(p)
    ensures PreparedFor(cfg)(Replied(p.call, p.signature, p.ticketRef, p.origin, reply))
  {
  }

  lemma ProceedSound(cfg: Settings, s: State, t: Thread, p: Phase, reply: Option<DispatchResult>)
    requires Sound(cfg, s) && t in s.submissions && s.submissions[t] == p
    ensures Sound(cfg, ProceedStep(s, t, p, reply).0)
  {
    assert HoldsTicket(s, t);
    var s' := ProceedStep(s, t, p, reply).0;
    if reply.Some? {
      SameMatched(s, s');
    } else {
      ReleaseRemoves(cfg.admission, s.admission, p.ticketRef);
      LeaveMatched(s, t, s'.admission);
    }
  }

  lemma ProceedPrepared(cfg: Settings, s: State, t: Thread, p: Phase, reply: Option<DispatchResult>)
    requires Prepared(cfg, s) && t in s.submissions && s.submissions[t] == p
    ensures Prepared(cfg, ProceedStep(s, t, p, reply).0)
  {
    if reply.Some? {
      RepliedPrepared(cfg, p, reply.value);
      PutAll(PreparedFor(cfg), s.submissions, t, Replied(p.call, p.signature, p.ticketRef, p.origin, reply.value));
    } else {
      DropAll(PreparedFor(cfg), s.submissions, t);
    }
  }

  lemma ReleaseRemoves(c: AdmissionSpec.Config, s: Admitting, ref: Bytes)
    requires AdmissionSpec.Sound(c, s) && ref in s.inflight
    ensures AdmissionSpec.Sound(c, AdmissionSpec.Release(s, ref))
    ensures AdmissionSpec.Release(s, ref).inflight == s.inflight - {ref}
  {
    AdmissionSpec.SettleSound(c, s, ref, None);
  }

  lemma CompleteRemoves(c: AdmissionSpec.Config, s: Admitting, ref: Bytes, receipt: Option<Bytes>)
    requires AdmissionSpec.Sound(c, s) && ref in s.inflight
    ensures AdmissionSpec.Sound(c, AdmissionSpec.Complete(c, s, ref, receipt))
    ensures AdmissionSpec.Complete(c, s, ref, receipt).inflight == s.inflight - {ref}
  {
    AdmissionSpec.SettleSound(c, s, ref, receipt);
  }

  lemma FinishSound(cfg: Settings, s: State, t: Thread, p: Phase)
    requires Sound(cfg, s) && t in s.submissions && s.submissions[t] == p && p.Replied?
    ensures Sound(cfg, FinishStep(cfg, s, t, p).0)
  {
    assert HoldsTicket(s, t);
    CompleteRemoves(cfg.admission, s.admission, p.ticketRef, p.reply.receiptRef);
    var s' := FinishStep(cfg, s, t, p).0;
    LeaveMatched(s, t, s'.admission);
    SameMatched(s.(admission := s'.admission, submissions := s'.submissions), s');
  }

  lemma AttachLeavesAlone(cfg: Settings, s: State, t: Thread, w: Unattached)
    ensures var (s', deed) := AttachStep(cfg, s, t, w);
            s'.admission == s.admission && s'.submissions == s.submissions && (deed.Registers? || deed.Nothing?)
  {
  }

  lemma AttachSound(cfg: Settings, s: State, t: Thread, w: Unattached)
    requires Sound(cfg, s)
    ensures Sound(cfg, AttachStep(cfg, s, t, w).0)
  {
    AttachLeavesAlone(cfg, s, t, w);
    SameMatched(s, AttachStep(cfg, s, t, w).0);
  }

  lemma NotGivenBack(cfg: Settings, s: State, e: Event, k: nat)
    requires Prepared(cfg, s)
    ensures Step(cfg, s, e, k).1 != GivesBack
  {
    if e.Proceed? && e.t in s.submissions {
      PreparedReplies(cfg, s.submissions[e.t]);
    }
    StepHolds(cfg, s, e, k, (s', deed) => deed != GivesBack);
  }

  lemma StartSound(cfg: Settings, s: State)
    requires Starts(s)
    ensures Sound(cfg, s)
  {
  }

  lemma StartPrepared(cfg: Settings, s: State)
    requires Starts(s)
    ensures Prepared(cfg, s)
  {
  }

  /** What the start has and every kind of step keeps holds in every state of a run. */
  lemma {:induction false} RunKeeps(cfg: Settings, keeps: State -> bool, r: Log, n: nat)
    requires IsRun(cfg, r) && n <= |r.events| && keeps(r.states[0])
    requires forall s: State, t, call: Call, k: nat ::
               keeps(s) && s.admission.counter + 1 < TWO64 && t !in s.submissions && Passes(cfg, call) ==>
                 keeps(BeginStep(cfg, s, t, call, SignatureOf(call), k).0)
    requires forall s: State, t :: keeps(s) && t in s.submissions ==>
               keeps(ProceedStep(s, t, s.submissions[t], ReplyTo(s.submissions[t].call)).0)
    requires forall s: State, t :: keeps(s) && t in s.submissions && s.submissions[t].Replied? ==>
               keeps(FinishStep(cfg, s, t, s.submissions[t]).0)
    requires forall s: State, t :: keeps(s) && t in s.unattached ==> keeps(AttachStep(cfg, s, t, s.unattached[t]).0)
    ensures keeps(r.states[n])
  {
    if n > 0 {
      RunKeeps(cfg, keeps, r, n - 1);
      assert At(n - 1);
      StepHolds(cfg, r.states[n - 1], r.events[n - 1], n - 1, (s, deed) => keeps(s));
    }
  }

  lemma RunSound(cfg: Settings, r: Log, n: nat)
    requires AdmissionSpec.DistinctNames(cfg.admission) && IsRun(cfg, r) && n <= |r.events|
    ensures Sound(cfg, r.states[n])
  {
    StartSound(cfg, r.states[0]);
    forall s: State, t, call: Call, k: nat |
      Sound(cfg, s) && s.admission.counter + 1 < TWO64 && t !in s.submissions && Passes(cfg, call)
      ensures Sound(cfg, BeginStep(cfg, s, t, call, SignatureOf(call), k).0)
    {
      BeginSound(cfg, s, t, call, SignatureOf(call), k);
    }
    forall s: State, t | Sound(cfg, s) && t in s.submissions
      ensures Sound(cfg, ProceedStep(s, t, s.submissions[t], ReplyTo(s.submissions[t].call)).0)
    {
      ProceedSound(cfg, s, t, s.submissions[t], ReplyTo(s.submissions[t].call));
    }
    forall s: State, t | Sound(cfg, s) && t in s.submissions && s.submissions[t].Replied?
      ensures Sound(cfg, FinishStep(cfg, s, t, s.submissions[t]).0)
    {
      FinishSound(cfg, s, t, s.submissions[t]);
    }
    forall s: State, t | Sound(cfg, s) && t in s.unattached
      ensures Sound(cfg, AttachStep(cfg, s, t, s.unattached[t]).0)
    {
      AttachSound(cfg, s, t, s.unattached[t]);
    }
    RunKeeps(cfg, s => Sound(cfg, s), r, n);
  }

  lemma RunPrepared(cfg: Settings, r: Log, n: nat)
    requires IsRun(cfg, r) && n <= |r.events|
    ensures Prepared(cfg, r.states[n])
  {
    StartPrepared(cfg, r.states[0]);
    forall s: State, t, call: Call, k: nat | Prepared(cfg, s) && t !in s.submissions && Passes(cfg, call)
      ensures Prepared(cfg, BeginStep(cfg, s, t, call, SignatureOf(call), k).0)
    {
      BeginPrepared(cfg, s, t, call, k);
    }
    forall s: State, t | Prepared(cfg, s) && t in s.submissions
      ensures Prepared(cfg, ProceedStep(s, t, s.submissions[t], ReplyTo(s.submissions[t].call)).0)
    {
      ProceedPrepared(cfg, s, t, s.submissions[t], ReplyTo(s.submissions[t].call));
    }
    forall s: State, t | Prepared(cfg, s) && t in s.submissions && s.submissions[t].Replied?
      ensures Prepared(cfg, FinishStep(cfg, s, t, s.submissions[t]).0)
    {
      DropAll(PreparedFor(cfg), s.submissions, t);
    }
    forall s: State, t | Prepared(cfg, s) && t in s.unattached
      ensures Prepared(cfg, AttachStep(cfg, s, t, s.unattached[t]).0)
    {
      AttachLeavesAlone(cfg, s, t, s.unattached[t]);
    }
    RunKeeps(cfg, s => Prepared(cfg, s), r, n);
  }

  /**
   In every interleaving the tickets in flight are exactly those of the submissions between
   admission and completion.
   */
  lemma TicketsAreSubmissions(cfg: Settings, r: Log, n: nat)
    requires AdmissionSpec.DistinctNames(cfg.admission) && IsRun(cfg, r) && n <= |r.events|
    ensures var s := r.states[n];
            (forall ref :: ref in s.admission.inflight <==> Owned(s, ref)) && Distinct(s)
  {
    RunSound(cfg, r, n);
    var s := r.states[n];
    forall ref | Owned(s, ref) ensures ref in s.admission.inflight {
      var t :| t in s.submissions && s.submissions[t].ticketRef == ref;
      assert HoldsTicket(s, t);
    }
  }

  /** In every interleaving no ticket is ever given back. */
  lemma NoneGivesBack(cfg: Settings, r: Log, k: nat)
    requires IsRun(cfg, r) && k < |r.events|
    ensures r.deeds[k] != GivesBack
  {
    RunPrepared(cfg, r, k);
    assert At(k);
    NotGivenBack(cfg, r.states[k], r.events[k], k);
  }

  // ----- Spacing -----

  predicate AdmitsAt(r: Log, k: nat, signature: Bytes) {
    k < |r.events| && k < |r.deeds| && r.events[k].Begin? && r.deeds[k] == Admits(signature)
  }

  lemma AdmitGuarded(c: AdmissionSpec.Config, s: Admitting, asked: Bytes, now: int, signature: Bytes, until: int)
    requires AdmissionSpec.Sound(c, s) && AdmissionSpec.Guards(s, signature, until) && now <= until
    ensures AdmissionSpec.Guards(AdmissionSpec.Admit(c, s, asked, now).0, signature, until)
    ensures asked == signature ==> !AdmissionSpec.Admit(c, s, asked, now).1.Admitted?
  {
    AdmissionSpec.PruneSound(c, s, now);
    AdmissionSpec.NoAnswerMeansNoLiveRecord(c, s.(records := AdmissionSpec.Prune(s.records, now)), signature, now);
  }

  lemma CompleteGuarded(c: AdmissionSpec.Config, s: Admitting, ref: Bytes, receipt: Option<Bytes>, signature: Bytes,
                        until: int)
    requires AdmissionSpec.Guards(s, signature, until)
    ensures AdmissionSpec.Guards(AdmissionSpec.Complete(c, s, ref, receipt), signature, until)
  {
  }

  lemma StepGuarded(cfg: Settings, s: State, e: Event, k: nat, signature: Bytes, until: int)
    requires AdmissionSpec.Sound(cfg.admission, s.admission) && Prepared(cfg, s)
    requires AdmissionSpec.Guards(s.admission, signature, until) && (e.Begin? ==> e.call.now <= until)
    ensures var (s', deed) := Step(cfg, s, e, k);
            AdmissionSpec.Guards(s'.admission, signature, until) && deed != Admits(signature)
  {
    match e {
      case Begin(t, call) =>
        if Passes(cfg, call) {
          AdmitGuarded(cfg.admission, s.admission, SignatureOf(call), call.now, signature, until);
        }
      case Proceed(t, _) =>
        if t in s.submissions {
          PreparedReplies(cfg, s.submissions[t]);
        }
      case Finish(t) =>
        if t in s.submissions && s.submissions[t].Replied? {
          var p := s.submissions[t];
          CompleteGuarded(cfg.admission, s.admission, p.ticketRef, p.reply.receiptRef, signature, until);
        }
      case AttachReceipt(t) =>
        if t in s.unattached {
          AttachLeavesAlone(cfg, s, t, s.unattached[t]);
        }
    }
    StepHolds(cfg, s, e, k, (s': State, deed) => AdmissionSpec.Guards(s'.admission, signature, until)
              && deed != Admits(signature));
  }

  lemma BeginGuards(cfg: Settings, s: State, e: Event, k: nat, signature: Bytes)
    requires e.Begin? && Step(cfg, s, e, k).1 == Admits(signature)
    ensures AdmissionSpec.Guards(Step(cfg, s, e, k).0.admission, signature, e.call.now + cfg.admission.windowMs)
  {
  }

  ghost predicate BeginsBy(r: Log, n: nat, until: int)
    requires n <= |r.events|
  {
    forall m :: 0 <= m < n && r.events[m].Begin? ==> r.events[m].call.now <= until
  }

  lemma {:induction false} GuardedThrough(cfg: Settings, r: Log, i: nat, n: nat, signature: Bytes)
    requires AdmissionSpec.DistinctNames(cfg.admission) && IsRun(cfg, r) && i < n <= |r.events|
             && AdmitsAt(r, i, signature)
    requires BeginsBy(r, n, r.events[i].call.now + cfg.admission.windowMs)
    ensures AdmissionSpec.Guards(r.states[n].admission, signature, r.events[i].call.now + cfg.admission.windowMs)
    decreases n
  {
    var k := n - 1;
    assert At(k);
    if k == i {
      BeginGuards(cfg, r.states[k], r.events[k], k, signature);
    } else {
      GuardedThrough(cfg, r, i, k, signature);
      RunSound(cfg, r, k);
      RunPrepared(cfg, r, k);
      StepGuarded(cfg, r.states[k], r.events[k], k, signature, r.events[i].call.now + cfg.admission.windowMs);
    }
  }

  lemma GuardRefuses(cfg: Settings, r: Log, j: nat, signature: Bytes, until: int)
    requires AdmissionSpec.DistinctNames(cfg.admission) && IsRun(cfg, r) && AdmitsAt(r, j, signature)
    requires AdmissionSpec.Guards(r.states[j].admission, signature, until)
    ensures r.events[j].call.now > until
  {
    if r.events[j].call.now <= until {
      RunSound(cfg, r, j);
      RunPrepared(cfg, r, j);
      assert At(j);
      StepGuarded(cfg, r.states[j], r.events[j], j, signature, until);
    }
  }

  /** In every interleaving two admissions of one signature are more than the window apart. */
  lemma AdmissionSpacing(cfg: Settings, r: Log, i: nat, j: nat, signature: Bytes)
    requires AdmissionSpec.DistinctNames(cfg.admission) && IsRun(cfg, r) && Clocked(r) && i < j
    requires AdmitsAt(r, i, signature) && AdmitsAt(r, j, signature)
    ensures r.events[j].call.now > r.events[i].call.now + cfg.admission.windowMs
  {
    var until := r.events[i].call.now + cfg.admission.windowMs;
    if r.events[j].call.now <= until {
      assert BeginsBy(r, j, until) by {
        forall m | 0 <= m < j && r.events[m].Begin? ensures r.events[m].call.now <= until {
          assert r.events[m].call.now <= r.events[j].call.now;
        }
      }
      GuardedThrough(cfg, r, i, j, signature);
      GuardRefuses(cfg, r, j, signature, until);
    }
  }

  // ----- Dispatches -----

  predicate DispatchesAt(r: Log, k: nat, signature: Bytes, origin: nat) {
    k < |r.events| && k < |r.deeds| && r.events[k].Proceed? && r.deeds[k] == Dispatches(signature, origin)
  }

  /** The submission was admitted at its origin, by its own thread. */
  predicate FromOrigin(r: Log, t: Thread, p: Phase, n: nat) {
    p.origin < n && AdmitsAt(r, p.origin, p.signature) && r.events[p.origin].t == t
  }

  lemma StepOrigin(cfg: Settings, s: State, e: Event, k: nat, t: Thread)
    requires t in Step(cfg, s, e, k).0.submissions
    ensures var p, (s', deed) := Step(cfg, s, e, k).0.submissions[t], Step(cfg, s, e, k);
            (t in s.submissions && p.origin == s.submissions[t].origin && p.signature == s.submissions[t].signature)
            || (e.Begin? && e.t == t && p.origin == k && deed == Admits(p.signature))
  {
  }

  lemma {:induction false} Origins(cfg: Settings, r: Log, n: nat)
    requires IsRun(cfg, r) && n <= |r.events|
    ensures forall t :: t in r.states[n].submissions ==> FromOrigin(r, t, r.states[n].submissions[t], n)
  {
    if n > 0 {
      var k := n - 1;
      Origins(cfg, r, k);
      assert At(k);
      forall t | t in r.states[n].submissions ensures FromOrigin(r, t, r.states[n].submissions[t], n) {
        StepOrigin(cfg, r.states[k], r.events[k], k, t);
        if t in r.states[k].submissions {
          assert FromOrigin(r, t, r.states[k].submissions[t], k);
        }
      }
    }
  }

  lemma DispatchOrigin(cfg: Settings, r: Log, k: nat, signature: Bytes, origin: nat)
    requires IsRun(cfg, r) && DispatchesAt(r, k, signature, origin)
    ensures origin < k && AdmitsAt(r, origin, signature) && r.events[origin].t == r.events[k].t
    ensures var t := r.events[k].t;
            t in r.states[k].submissions && r.states[k].submissions[t].Ticketed?
            && r.states[k].submissions[t].origin == origin
  {
    Origins(cfg, r, k);
    assert At(k);
    var t := r.events[k].t;
    assert t in r.states[k].submissions;
    assert FromOrigin(r, t, r.states[k].submissions[t], k);
  }

  /** A step leaves a thread without a fresh ticket, or with the one it had, or grants it one. */
  lemma StepTicketed(cfg: Settings, s: State, e: Event, k: nat, t: Thread)
    requires t in Step(cfg, s, e, k).0.submissions && Step(cfg, s, e, k).0.submissions[t].Ticketed?
    ensures Step(cfg, s, e, k).0.submissions[t].origin == k
            || (t in s.submissions && s.submissions[t] == Step(cfg, s, e, k).0.submissions[t]
                && !(e.Proceed? && e.t == t))
  {
  }

  /** Once dispatched, a thread holds an undispatched ticket only from a later admission. */
  lemma {:induction false} DispatchedOnce(cfg: Settings, r: Log, k: nat, n: nat, t: Thread)
    requires IsRun(cfg, r) && k < n <= |r.events| && r.events[k].Proceed? && r.events[k].t == t
    requires t in r.states[n].submissions && r.states[n].submissions[t].Ticketed?
    ensures r.states[n].submissions[t].origin >= k
    decreases n
  {
    var m := n - 1;
    assert At(m);
    StepTicketed(cfg, r.states[m], r.events[m], m, t);
    if r.states[n].submissions[t].origin != m {
      DispatchedOnce(cfg, r, k, m, t);
    }
  }

  /**
   In every interleaving two dispatches of one signature go back to two admissions more than
   the window apart, whichever of them is dispatched first.
   */
  lemma InterleavedSpacing(cfg: Settings, r: Log, k: nat, l: nat, signature: Bytes, o: nat, p: nat)
    requires AdmissionSpec.DistinctNames(cfg.admission) && IsRun(cfg, r) && Clocked(r) && k < l
    requires DispatchesAt(r, k, signature, o) && DispatchesAt(r, l, signature, p)
    ensures AdmitsAt(r, o, signature) && AdmitsAt(r, p, signature)
    ensures var first, second := r.events[o].call.now, r.events[p].call.now;
            second > first + cfg.admission.windowMs || first > second + cfg.admission.windowMs
  {
    DispatchOrigin(cfg, r, k, signature, o);
    DispatchOrigin(cfg, r, l, signature, p);
    if r.events[k].t == r.events[l].t {
      DispatchedOnce(cfg, r, k, l, r.events[k].t);
    }
    if o < p {
      AdmissionSpacing(cfg, r, o, p, signature);
    } else {
      AdmissionSpacing(cfg, r, p, o, signature);
    }
  }

  /**
   Timed: of two dispatches of one signature, the later comes more than the window after the
   earlier of the two admissions they go back to.
   */
  lemma DelayedSpacing(cfg: Settings, r: Log, k: nat, l: nat, signature: Bytes, o: nat, p: nat)
    requires AdmissionSpec.DistinctNames(cfg.admission) && IsRun(cfg, r) && Clocked(r) && k < l
    requires DispatchesAt(r, k, signature, o) && DispatchesAt(r, l, signature, p)
    ensures AdmitsAt(r, o, signature) && AdmitsAt(r, p, signature)
    ensures r.events[l].now > r.events[if o < p then o else p].call.now + cfg.admission.windowMs
  {
    InterleavedSpacing(cfg, r, k, l, signature, o, p);
    DispatchOrigin(cfg, r, k, signature, o);
    DispatchOrigin(cfg, r, l, signature, p);
    assert Now(r.events[o]) <= Now(r.events[k]) <= Now(r.events[l]) && Now(r.events[p]) <= Now(r.events[l]);
    if o < p {
      assert Now(r.events[o]) <= Now(r.events[p]);
    } else {
      assert Now(r.events[p]) <= Now(r.events[o]);
    }
  }

  /** So with no dispatch more than `delay` after its admission, two are more than the window minus `delay` apart. */
  lemma DispatchesApart(cfg: Settings, r: Log, k: nat, l: nat, signature: Bytes, o: nat, p: nat, delay: int)
    requires AdmissionSpec.DistinctNames(cfg.admission) && IsRun(cfg, r) && Clocked(r) && k < l
    requires DispatchesAt(r, k, signature, o) && DispatchesAt(r, l, signature, p)
    requires AdmitsAt(r, o, signature) && r.events[k].now - r.events[o].call.now <= delay
    requires AdmitsAt(r, p, signature) && r.events[l].now - r.events[p].call.now <= delay
    ensures r.events[l].now - r.events[k].now > cfg.admission.windowMs - delay
  {
    DelayedSpacing(cfg, r, k, l, signature, o, p);
    DispatchOrigin(cfg, r, k, signature, o);
    assert Now(r.events[o]) <= Now(r.events[k]) <= Now(r.events[l]);
    if p <= o {
      assert Now(r.events[p]) <= Now(r.events[o]);
    }
  }
}
