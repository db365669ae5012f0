/**
 Admission: in-flight tickets, idempotency records and a clock, as a state machine.

 A ticket may outlive its idempotency window, and a second ticket of the same signature
 may then be in flight beside it. What every run keeps is proved without excluding that.
 */
module AdmissionSpec {
  import opened ByteText
  import opened Widths
  import opened Wrappers

  /** The two governance values, and how tickets and default receipts are named. */
  datatype Config = Config(windowMs: int, maxInflight: int, ticketName: nat -> Bytes, receiptName: Bytes -> Bytes)

  ghost predicate DistinctNames(c: Config) {
    forall a, b :: c.ticketName(a) == c.ticketName(b) ==> a == b
  }

  datatype Ticket = Ticket(ref: Bytes, signature: Bytes, issuedAt: int)

  datatype Record = Record(
    signature: Bytes,
    inflightRef: Option<Bytes>,
    completed: bool,
    replayRef: Option<Bytes>,
    expiresAt: int
  )

  datatype State = State(counter: nat, inflight: map<Bytes, Ticket>, records: map<Bytes, Record>)

  const INITIAL := State(0, map[], map[])

  datatype RejectReason = ConcurrencyLimit | NoSignature | ReplayHit | Conflict

  datatype Answer =
    | Admitted(ticketRef: Bytes)
    | Refused(reason: RejectReason, conflictRef: Option<Bytes>, replayRef: Option<Bytes>)
    | Silent

  const LIMIT := Refused(ConcurrencyLimit, None, None)

  // ----- The steps -----

  predicate Stale(r: Record, now: int) {
    r.expiresAt < now && r.inflightRef.None?
  }

  function Prune(records: map<Bytes, Record>, now: int): map<Bytes, Record> {
    map k | k in records && !Stale(records[k], now) :: records[k]
  }

  function CheckIdempotency(records: map<Bytes, Record>, signature: Bytes, now: int): Option<Answer> {
    if signature !in records then None
    else
      var r := records[signature];
      if r.expiresAt < now then None
      else if r.completed then Some(Refused(ReplayHit, None, r.replayRef))
      else if r.inflightRef.Some? then Some(Refused(Conflict, r.inflightRef, None))
      else None
  }

  predicate AtLimit(c: Config, s: State) {
    c.maxInflight <= 0 || |s.inflight| >= c.maxInflight
  }

  /** The number of the next ticket; `std::size_t` wraps around. */
  function NextNumber(s: State): nat {
    if s.counter + 1 == TWO64 then 0 else s.counter + 1
  }

  function Issue(c: Config, s: State, signature: Bytes, now: int): State {
    var ref := c.ticketName(NextNumber(s));
    State(NextNumber(s),
          s.inflight[ref := Ticket(ref, signature, now)],
          s.records[signature := Record(signature, Some(ref), false, None, now + c.windowMs)])
  }

  /** `admit`, once the signature of the request has been built. */
  function Admit(c: Config, s0: State, signature: Bytes, now: int): (State, Answer) {
    var s := s0.(records := Prune(s0.records, now));
    if AtLimit(c, s) then (s, LIMIT)
    else if signature == [] then (s, Refused(NoSignature, None, None))
    else
      match CheckIdempotency(s.records, signature, now)
      case Some(answer) => (s, answer)
      case None => (Issue(c, s, signature, now), Admitted(c.ticketName(NextNumber(s))))
  }

  function Release(s: State, ref: Bytes): State {
    if ref !in s.inflight then s
    else
      var signature := s.inflight[ref].signature;
      State(s.counter, s.inflight - {ref},
            if signature in s.records && !s.records[signature].completed then s.records - {signature} else s.records)
  }

  function Complete(c: Config, s: State, ref: Bytes, receipt: Option<Bytes>): State {
    if ref !in s.inflight then s
    else
      var signature := s.inflight[ref].signature;
      State(s.counter, s.inflight - {ref},
            if signature in s.records then
              s.records[signature := s.records[signature].(
                  completed := true, inflightRef := None, replayRef := Some(receipt.GetOr(c.receiptName(ref))))]
            else s.records)
  }

  // ----- Runs -----

  datatype Event =
    | AdmitEvent(signature: Bytes, now: int)
    | ReleaseEvent(ref: Bytes, now: int)
    | CompleteEvent(ref: Bytes, receipt: Option<Bytes>, now: int)

  function Step(c: Config, s: State, e: Event): (State, Answer) {
    match e
    case AdmitEvent(signature, now) => Admit(c, s, signature, now)
    case ReleaseEvent(ref, _) => (Release(s, ref), Silent)
    case CompleteEvent(ref, receipt, _) => (Complete(c, s, ref, receipt), Silent)
  }

  /** The log of a run: `states[k]` is where `events[k]` happens, with `answers[k]`. */
  datatype Run = Run(events: seq<Event>, states: seq<State>, answers: seq<Answer>)

  /** How many of the first `n` events admitted a request. */
  function AdmitCount(r: Run, n: nat): nat
    requires n <= |r.events| == |r.answers|
  {
    if n == 0 then 0 else AdmitCount(r, n - 1) + if r.answers[n - 1].Admitted? then 1 else 0
  }

  /** Marks the steps a proof looks at. */
  predicate At(k: int) { true }

  /** Fewer admissions than the ticket counter can number. */
  ghost predicate IsRun(c: Config, r: Run) {
    |r.states| == |r.events| + 1 && |r.answers| == |r.events| && r.states[0] == INITIAL
    && AdmitCount(r, |r.events|) + 1 < TWO64
    && forall k {:trigger At(k)} :: 0 <= k < |r.events| && At(k) ==>
         Step(c, r.states[k], r.events[k]) == (r.states[k + 1], r.answers[k])
  }

  /** The clock never goes back. */
  ghost predicate Clocked(r: Run) {
    forall i, j :: 0 <= i <= j < |r.events| ==> r.events[i].now <= r.events[j].now
  }

  predicate AdmitsAt(r: Run, i: nat, signature: Bytes) {
    i < |r.events| && i < |r.answers|
    && r.events[i].AdmitEvent? && r.events[i].signature == signature && r.answers[i].Admitted?
  }

  /** Event `i` settles a ticket that is live. */
  predicate SettlesAt(r: Run, i: nat) {
    i < |r.events| && i < |r.states|
    && !r.events[i].AdmitEvent? && r.events[i].ref in r.states[i].inflight
  }

  predicate ReleasesAt(r: Run, i: nat, signature: Bytes) {
    SettlesAt(r, i) && r.events[i].ReleaseEvent? && r.states[i].inflight[r.events[i].ref].signature == signature
  }

  /** A release reopens its signature when it finds the record not completed. */
  predicate ReopensAt(r: Run, k: nat, signature: Bytes) {
    ReleasesAt(r, k, signature)
    && signature in r.states[k].records && !r.states[k].records[signature].completed
  }

  // ----- What every step keeps -----

  /** A record is exactly one of in flight, naming a live ticket of its signature, or completed with a receipt. */
  ghost predicate SoundRecord(s: State, k: Bytes)
    requires k in s.records
  {
    var r := s.records[k];
    r.signature == k
    && (r.completed <==> r.inflightRef.None?)
    && (r.completed <==> r.replayRef.Some?)
    && (r.inflightRef.Some? ==> r.inflightRef.value in s.inflight && s.inflight[r.inflightRef.value].signature == k)
  }

  ghost predicate Issued(c: Config, ref: Bytes, counter: nat) {
    exists n: nat :: 1 <= n <= counter && ref == c.ticketName(n)
  }

  ghost predicate Sound(c: Config, s: State) {
    (forall k :: k in s.records ==> SoundRecord(s, k))
    && (forall ref :: ref in s.inflight ==> s.inflight[ref].ref == ref && Issued(c, ref, s.counter))
    && (s.inflight == map[] || |s.inflight| <= c.maxInflight)
  }

  lemma NextIsNew(c: Config, s: State)
    requires DistinctNames(c) && Sound(c, s) && s.counter + 1 < TWO64
    ensures c.ticketName(NextNumber(s)) !in s.inflight
  {
    forall ref | ref in s.inflight ensures ref != c.ticketName(NextNumber(s)) {
      var n: nat :| 1 <= n <= s.counter && ref == c.ticketName(n);
    }
  }

  lemma PruneSound(c: Config, s: State, now: int)
    requires Sound(c, s)
    ensures Sound(c, s.(records := Prune(s.records, now)))
  {
    var s' := s.(records := Prune(s.records, now));
    forall k | k in s'.records ensures SoundRecord(s', k) {
      assert SoundRecord(s, k);
    }
  }

  lemma IssueSound(c: Config, s: State, signature: Bytes, now: int)
    requires DistinctNames(c) && Sound(c, s) && s.counter + 1 < TWO64 && !AtLimit(c, s)
    ensures Sound(c, Issue(c, s, signature, now))
    ensures |Issue(c, s, signature, now).inflight| == |s.inflight| + 1
  {
    NextIsNew(c, s);
    var s' := Issue(c, s, signature, now);
    forall k | k in s'.records ensures SoundRecord(s', k) {
      if k != signature {
        assert SoundRecord(s, k);
      }
    }
    forall ref | ref in s'.inflight ensures s'.inflight[ref].ref == ref && Issued(c, ref, s'.counter) {
      if ref in s.inflight {
        var n: nat :| 1 <= n <= s.counter && ref == c.ticketName(n);
        assert 1 <= n <= s'.counter;
      } else {
        assert ref == c.ticketName(s'.counter);
      }
    }
  }

  lemma AdmitSound(c: Config, s: State, signature: Bytes, now: int)
    requires DistinctNames(c) && Sound(c, s) && s.counter + 1 < TWO64
    ensures var (s', answer) := Admit(c, s, signature, now);
            Sound(c, s')
            && s'.counter == s.counter + (if answer.Admitted? then 1 else 0)
            && |s'.inflight| == |s.inflight| + (if answer.Admitted? then 1 else 0)
            && (answer.Admitted? ==> answer.ticketRef == c.ticketName(s'.counter))
  {
    var p := s.(records := Prune(s.records, now));
    PruneSound(c, s, now);
    if Admit(c, s, signature, now).1.Admitted? {
      IssueSound(c, p, signature, now);
    }
  }

  lemma SettleSound(c: Config, s: State, ref: Bytes, receipt: Option<Bytes>)
    requires Sound(c, s)
    ensures Sound(c, Release(s, ref)) && Sound(c, Complete(c, s, ref, receipt))
    ensures ref in s.inflight ==>
              |Release(s, ref).inflight| == |s.inflight| - 1 == |Complete(c, s, ref, receipt).inflight|
  {
    if ref in s.inflight {
      var a, b := Release(s, ref), Complete(c, s, ref, receipt);
      var rest := s.inflight - {ref};
      assert rest.Keys == s.inflight.Keys - {ref};
      forall k | k in a.records ensures SoundRecord(a, k) {
        assert SoundRecord(s, k);
      }
      forall k | k in b.records ensures SoundRecord(b, k) {
        assert SoundRecord(s, k);
      }
    }
  }

  /** The last return of `check_idempotency` is reached only when the signature has no live record. */
  lemma NoAnswerMeansNoLiveRecord(c: Config, s: State, signature: Bytes, now: int)
    requires Sound(c, s)
    ensures CheckIdempotency(s.records, signature, now).None? <==>
              signature !in s.records || s.records[signature].expiresAt < now
  {
    if signature in s.records {
      assert SoundRecord(s, signature);
    }
  }

  /** How many of the first `n` events settled a live ticket. */
  function SettleCount(r: Run, n: nat): nat
    requires n <= |r.events|
  {
    if n == 0 then 0 else SettleCount(r, n - 1) + if SettlesAt(r, n - 1) then 1 else 0
  }

  lemma SoundAt(c: Config, r: Run, k: nat)
    requires DistinctNames(c) && IsRun(c, r) && k < |r.events|
    requires Sound(c, r.states[k]) && r.states[k].counter + 1 < TWO64
    ensures Sound(c, r.states[k + 1])
    ensures r.answers[k].Admitted? ==>
              r.events[k].AdmitEvent? && r.answers[k].ticketRef == c.ticketName(r.states[k + 1].counter)
    ensures r.states[k + 1].counter == r.states[k].counter + if r.answers[k].Admitted? then 1 else 0
    ensures |r.states[k + 1].inflight| + (if SettlesAt(r, k) then 1 else 0)
            == |r.states[k].inflight| + (if r.answers[k].Admitted? then 1 else 0)
  {
    assert At(k);
    match r.events[k]
    case AdmitEvent(signature, now) => AdmitSound(c, r.states[k], signature, now);
    case ReleaseEvent(ref, _) => SettleSound(c, r.states[k], ref, None);
    case CompleteEvent(ref, receipt, _) => SettleSound(c, r.states[k], ref, receipt);
  }

  lemma CountStep(r: Run, k: nat)
    requires k < |r.events| == |r.answers|
    ensures AdmitCount(r, k + 1) == AdmitCount(r, k) + if r.answers[k].Admitted? then 1 else 0
    ensures SettleCount(r, k + 1) == SettleCount(r, k) + if SettlesAt(r, k) then 1 else 0
  {
  }

  lemma {:induction false} CountsGrow(r: Run, m: nat, n: nat)
    requires m <= n <= |r.events| == |r.answers|
    ensures AdmitCount(r, m) <= AdmitCount(r, n)
  {
    if m < n {
      CountsGrow(r, m, n - 1);
    }
  }

  /**
   Every reachable state: records are sound, tickets in flight never exceed the limit,
   and they are exactly the admissions that were not settled.
   */
  lemma {:induction false} Reachable(c: Config, r: Run, n: nat)
    requires DistinctNames(c) && IsRun(c, r) && n <= |r.events|
    ensures Sound(c, r.states[n])
    ensures r.states[n].counter == AdmitCount(r, n) && r.states[n].counter + 1 < TWO64
    ensures |r.states[n].inflight| + SettleCount(r, n) == AdmitCount(r, n)
  {
    if n > 0 {
      var k := n - 1;
      Reachable(c, r, k);
      SoundAt(c, r, k);
      CountStep(r, k);
      assert n == k + 1;
    }
    CountsGrow(r, n, |r.events|);
  }

  lemma ReachableSound(c: Config, r: Run, n: nat)
    requires DistinctNames(c) && IsRun(c, r) && n <= |r.events|
    ensures Sound(c, r.states[n]) && r.states[n].counter + 1 < TWO64
  {
    Reachable(c, r, n);
  }

  lemma TicketNumber(c: Config, r: Run, i: nat)
    requires DistinctNames(c) && IsRun(c, r) && i < |r.events| && r.answers[i].Admitted?
    ensures r.answers[i].ticketRef == c.ticketName(AdmitCount(r, i + 1)) && AdmitCount(r, i + 1) == AdmitCount(r, i) + 1
  {
    Reachable(c, r, i);
    SoundAt(c, r, i);
  }

  /** No two admissions of a run ever hand out the same ticket. */
  lemma TicketsNeverRepeat(c: Config, r: Run, i: nat, j: nat)
    requires DistinctNames(c) && IsRun(c, r) && i < j < |r.events|
    requires r.answers[i].Admitted? && r.answers[j].Admitted?
    ensures r.answers[i].ticketRef != r.answers[j].ticketRef
  {
    TicketNumber(c, r, i);
    TicketNumber(c, r, j);
    CountsGrow(r, i + 1, j);
  }

  // ----- Admission spacing -----

  /** The record holds back further admissions of its signature. */
  predicate Guards(s: State, signature: Bytes, until: int) {
    signature in s.records && s.records[signature].expiresAt == until
  }

  /** Up to its expiry, nothing but a reopening release moves the record, and it lets nobody in. */
  lemma GuardsAt(c: Config, r: Run, k: nat, signature: Bytes, until: int)
    requires DistinctNames(c) && IsRun(c, r) && k < |r.events|
    requires Sound(c, r.states[k]) && Guards(r.states[k], signature, until)
    requires r.events[k].now <= until && !ReopensAt(r, k, signature)
    ensures !AdmitsAt(r, k, signature)
    ensures Guards(r.states[k + 1], signature, until)
  {
    assert At(k);
    var s, e := r.states[k], r.events[k];
    if e.AdmitEvent? {
      PruneSound(c, s, e.now);
      NoAnswerMeansNoLiveRecord(c, s.(records := Prune(s.records, e.now)), signature, e.now);
    }
  }

  lemma AdmissionGuards(c: Config, r: Run, k: nat, signature: Bytes)
    requires IsRun(c, r) && AdmitsAt(r, k, signature)
    ensures Guards(r.states[k + 1], signature, r.events[k].now + c.windowMs)
  {
    assert At(k);
  }

  /** After an admission at `t`, its record stays until some event happens later than `t` plus the window. */
  lemma {:induction false} RecordStays(c: Config, r: Run, i: nat, n: nat, signature: Bytes)
    requires DistinctNames(c) && IsRun(c, r) && Clocked(r) && i < n <= |r.events|
    requires AdmitsAt(r, i, signature)
    requires forall k :: i < k < n ==> !ReopensAt(r, k, signature)
    ensures r.events[n - 1].now > r.events[i].now + c.windowMs
            || Guards(r.states[n], signature, r.events[i].now + c.windowMs)
  {
    if i + 1 == n {
      AdmissionGuards(c, r, i, signature);
    } else {
      RecordStays(c, r, i, n - 1, signature);
      ReachableSound(c, r, n - 1);
      if r.events[n - 1].now <= r.events[i].now + c.windowMs {
        GuardsAt(c, r, n - 1, signature, r.events[i].now + c.windowMs);
      }
    }
  }

  /**
   Admission spacing over whole runs. With a clock that never goes back and no release in
   between that finds the signature's record incomplete, two successful admissions of one signature are more
   than the window apart, even when older tickets are still in flight or complete late.
   */
  lemma Spacing(c: Config, r: Run, i: nat, j: nat, signature: Bytes)
    requires DistinctNames(c) && IsRun(c, r) && Clocked(r) && i < j
    requires AdmitsAt(r, i, signature) && AdmitsAt(r, j, signature)
    requires forall k :: i < k < j ==> !ReopensAt(r, k, signature)
    ensures r.events[j].now > r.events[i].now + c.windowMs
  {
    RecordStays(c, r, i, j, signature);
    assert r.events[j - 1].now <= r.events[j].now;
    ReachableSound(c, r, j);
    if r.events[j].now <= r.events[i].now + c.windowMs {
      GuardsAt(c, r, j, signature, r.events[i].now + c.windowMs);
    }
  }

  lemma GoneStays(c: Config, r: Run, k: nat, signature: Bytes)
    requires IsRun(c, r) && k < |r.events| && signature !in r.states[k].records && !AdmitsAt(r, k, signature)
    ensures signature !in r.states[k + 1].records
  {
    assert At(k);
  }

  lemma ReopeningRemoves(c: Config, r: Run, k: nat, signature: Bytes)
    requires IsRun(c, r) && k < |r.events| && ReopensAt(r, k, signature)
    ensures signature !in r.states[k + 1].records
  {
    assert At(k);
  }

  ghost predicate Reopened(r: Run, i: nat, n: nat, signature: Bytes) {
    exists k: nat :: i < k < n && ReopensAt(r, k, signature)
  }

  /** Inside the window of the last admission the record guards the signature, or a release has reopened it for good. */
  lemma {:induction false} GuardedOrReopened(c: Config, r: Run, i: nat, n: nat, signature: Bytes)
    requires DistinctNames(c) && IsRun(c, r) && Clocked(r) && i < n <= |r.events|
    requires AdmitsAt(r, i, signature) && r.events[n - 1].now <= r.events[i].now + c.windowMs
    requires forall k :: i < k < n ==> !AdmitsAt(r, k, signature)
    ensures if Reopened(r, i, n, signature) then signature !in r.states[n].records
            else Guards(r.states[n], signature, r.events[i].now + c.windowMs)
  {
    if i + 1 == n {
      AdmissionGuards(c, r, i, signature);
    } else {
      var k := n - 1;
      assert r.events[k - 1].now <= r.events[k].now;
      GuardedOrReopened(c, r, i, k, signature);
      assert Reopened(r, i, n, signature) <==> Reopened(r, i, k, signature) || ReopensAt(r, k, signature) by {
        if Reopened(r, i, n, signature) {
          var m: nat :| i < m < n && ReopensAt(r, m, signature);
          assert m == k || Reopened(r, i, k, signature);
        }
      }
      if Reopened(r, i, k, signature) {
        GoneStays(c, r, k, signature);
      } else if ReopensAt(r, k, signature) {
        ReopeningRemoves(c, r, k, signature);
      } else {
        ReachableSound(c, r, k);
        GuardsAt(c, r, k, signature, r.events[i].now + c.windowMs);
      }
    }
  }

  lemma AskedWhenGone(c: Config, r: Run, j: nat, signature: Bytes)
    requires IsRun(c, r) && j < |r.events| && r.events[j].AdmitEvent? && r.events[j].signature == signature != []
    requires signature !in r.states[j].records
    ensures AdmitsAt(r, j, signature) <==> !AtLimit(c, r.states[j])
  {
    assert At(j);
  }

  /**
   When spacing is broken: inside the window of the last admission of a signature the next
   request of it is admitted exactly when there is room and some release in between found
   the record incomplete.
   */
  lemma SpacingExactly(c: Config, r: Run, i: nat, j: nat, signature: Bytes)
    requires DistinctNames(c) && IsRun(c, r) && Clocked(r) && i < j < |r.events|
    requires AdmitsAt(r, i, signature) && (forall k :: i < k < j ==> !AdmitsAt(r, k, signature))
    requires r.events[j].AdmitEvent? && r.events[j].signature == signature
    requires r.events[j].now <= r.events[i].now + c.windowMs
    ensures AdmitsAt(r, j, signature) <==>
              !AtLimit(c, r.states[j]) && exists k: nat :: i < k < j && ReopensAt(r, k, signature)
  {
    assert r.events[j - 1].now <= r.events[j].now;
    GuardedOrReopened(c, r, i, j, signature);
    AdmittedHasSignature(c, r, i);
    if Reopened(r, i, j, signature) {
      AskedWhenGone(c, r, j, signature);
    } else {
      ReachableSound(c, r, j);
      GuardsAt(c, r, j, signature, r.events[i].now + c.windowMs);
    }
  }

  /** Without the hypothesis on releases it fails: a released ticket lets its signature in again at once. */
  lemma ReleaseReopens(c: Config, signature: Bytes, now: int)
    requires signature != [] && c.maxInflight >= 1
    ensures var (s, a) := Admit(c, INITIAL, signature, now);
            a.Admitted? && Admit(c, Release(s, a.ticketRef), signature, now).1.Admitted?
  {
    var (s, a) := Admit(c, INITIAL, signature, now);
    assert Prune(INITIAL.records, now) == map[];
    assert s.inflight == map[a.ticketRef := Ticket(a.ticketRef, signature, now)];
    var s' := Release(s, a.ticketRef);
    assert s'.inflight == map[] && s'.records == map[];
    assert Prune(s'.records, now) == map[];
  }

  // ----- Tickets that are not asked for after their window -----

  /** A request that there is room for finds every live ticket of its signature inside its window. */
  ghost predicate AskedInTime(c: Config, s: State, e: Event) {
    e.AdmitEvent? && e.signature != [] && !AtLimit(c, s) ==>
      forall ref :: ref in s.inflight && s.inflight[ref].signature == e.signature ==>
        e.now <= s.inflight[ref].issuedAt + c.windowMs
  }

  /** No request comes while a ticket of its signature is overdue. */
  ghost predicate OnTime(c: Config, r: Run) {
    |r.states| > |r.events| && forall k :: 0 <= k < |r.events| ==> AskedInTime(c, r.states[k], r.events[k])
  }

  /** The live ticket is the one its signature's record names. */
  ghost predicate NamedByRecord(c: Config, s: State, ref: Bytes)
    requires ref in s.inflight
  {
    var t := s.inflight[ref];
    t.signature in s.records
    && s.records[t.signature] == Record(t.signature, Some(ref), false, None, t.issuedAt + c.windowMs)
  }

  ghost predicate AllNamed(c: Config, s: State) {
    forall ref :: ref in s.inflight ==> NamedByRecord(c, s, ref)
  }

  lemma AdmitNamed(c: Config, s: State, signature: Bytes, now: int)
    requires DistinctNames(c) && Sound(c, s) && s.counter + 1 < TWO64 && AllNamed(c, s)
    requires AskedInTime(c, s, AdmitEvent(signature, now))
    ensures AllNamed(c, Admit(c, s, signature, now).0)
  {
    NextIsNew(c, s);
    var s' := Admit(c, s, signature, now).0;
    forall ref | ref in s'.inflight ensures NamedByRecord(c, s', ref) {
      if ref in s.inflight {
        assert NamedByRecord(c, s, ref);
      }
    }
  }

  lemma SettleNamed(c: Config, s: State, ref: Bytes, receipt: Option<Bytes>)
    requires AllNamed(c, s)
    ensures AllNamed(c, Release(s, ref)) && AllNamed(c, Complete(c, s, ref, receipt))
  {
    if ref in s.inflight {
      assert NamedByRecord(c, s, ref);
      var a, b := Release(s, ref), Complete(c, s, ref, receipt);
      forall q | q in a.inflight ensures NamedByRecord(c, a, q) && NamedByRecord(c, b, q) {
        assert NamedByRecord(c, s, q);
      }
    }
  }

  lemma NamedAt(c: Config, r: Run, k: nat)
    requires DistinctNames(c) && IsRun(c, r) && k < |r.events|
    requires Sound(c, r.states[k]) && r.states[k].counter + 1 < TWO64
    requires AllNamed(c, r.states[k]) && AskedInTime(c, r.states[k], r.events[k])
    ensures AllNamed(c, r.states[k + 1])
  {
    assert At(k);
    match r.events[k]
    case AdmitEvent(signature, now) => AdmitNamed(c, r.states[k], signature, now);
    case ReleaseEvent(ref, _) => SettleNamed(c, r.states[k], ref, None);
    case CompleteEvent(ref, receipt, _) => SettleNamed(c, r.states[k], ref, receipt);
  }

  lemma {:induction false} OnTimeNamed(c: Config, r: Run, n: nat)
    requires DistinctNames(c) && IsRun(c, r) && OnTime(c, r) && n <= |r.events|
    ensures AllNamed(c, r.states[n])
  {
    if n > 0 {
      OnTimeNamed(c, r, n - 1);
      ReachableSound(c, r, n - 1);
      NamedAt(c, r, n - 1);
    }
  }

  /** Each signature has at most one ticket in flight. */
  ghost predicate Single(s: State) {
    forall a, b :: a in s.inflight && b in s.inflight && s.inflight[a].signature == s.inflight[b].signature ==> a == b
  }

  lemma NamedIsSingle(c: Config, s: State)
    requires AllNamed(c, s)
    ensures Single(s)
  {
    forall a, b | a in s.inflight && b in s.inflight && s.inflight[a].signature == s.inflight[b].signature
      ensures a == b
    {
      assert NamedByRecord(c, s, a) && NamedByRecord(c, s, b);
    }
  }

  /** A request for a signature with an overdue ticket issues a second one beside it. */
  lemma OverdueDoubles(c: Config, s: State, signature: Bytes, now: int)
    requires DistinctNames(c) && Sound(c, s) && s.counter + 1 < TWO64 && AllNamed(c, s)
    requires !AskedInTime(c, s, AdmitEvent(signature, now))
    ensures !Single(Admit(c, s, signature, now).0)
  {
    var ref :| ref in s.inflight && s.inflight[ref].signature == signature
             && now > s.inflight[ref].issuedAt + c.windowMs;
    assert NamedByRecord(c, s, ref);
    NextIsNew(c, s);
    var s', next := Admit(c, s, signature, now).0, c.ticketName(NextNumber(s));
    assert ref in s'.inflight && next in s'.inflight && ref != next;
    assert s'.inflight[ref].signature == s'.inflight[next].signature;
  }

  lemma {:induction false} SingleIsOnTime(c: Config, r: Run, n: nat)
    requires DistinctNames(c) && IsRun(c, r) && n <= |r.events|
    requires forall m :: 0 <= m <= n ==> Single(r.states[m])
    ensures AllNamed(c, r.states[n]) && forall k :: 0 <= k < n ==> AskedInTime(c, r.states[k], r.events[k])
  {
    if n > 0 {
      var k := n - 1;
      var s, e := r.states[k], r.events[k];
      SingleIsOnTime(c, r, k);
      ReachableSound(c, r, k);
      assert At(k);
      if !AskedInTime(c, s, e) {
        OverdueDoubles(c, s, e.signature, e.now);
      }
      NamedAt(c, r, k);
    }
  }

  /**
   Single flight, exactly: no signature ever has two tickets in flight if and only if no
   request there is room for comes while a ticket of its signature is overdue.
   */
  lemma SingleFlightExactly(c: Config, r: Run)
    requires DistinctNames(c) && IsRun(c, r)
    ensures (forall n :: 0 <= n <= |r.events| ==> Single(r.states[n])) <==> OnTime(c, r)
  {
    if OnTime(c, r) {
      forall n | 0 <= n <= |r.events| ensures Single(r.states[n]) {
        OnTimeNamed(c, r, n);
        NamedIsSingle(c, r.states[n]);
      }
    }
    if forall n :: 0 <= n <= |r.events| ==> Single(r.states[n]) {
      SingleIsOnTime(c, r, |r.events|);
    }
  }

  /** In particular when every ticket settles inside its window. */
  lemma SingleFlight(c: Config, r: Run, n: nat, a: Bytes, b: Bytes)
    requires DistinctNames(c) && IsRun(c, r) && n <= |r.events|
    requires forall k, ref :: 0 <= k < |r.events| && ref in r.states[k].inflight ==>
               r.events[k].now <= r.states[k].inflight[ref].issuedAt + c.windowMs
    requires a in r.states[n].inflight && b in r.states[n].inflight
    requires r.states[n].inflight[a].signature == r.states[n].inflight[b].signature
    ensures a == b
  {
    assert OnTime(c, r);
    SingleFlightExactly(c, r);
    assert Single(r.states[n]);
  }

  /** The failing case: a ticket outlives its window, and its signature is then in flight twice. */
  lemma LateTicketDoubles(c: Config, signature: Bytes, now: int)
    requires DistinctNames(c) && signature != [] && c.maxInflight >= 2 && c.windowMs >= 0
    ensures var (s, a) := Admit(c, INITIAL, signature, now);
            var (s', b) := Admit(c, s, signature, now + c.windowMs + 1);
            a.Admitted? && b.Admitted? && a.ticketRef != b.ticketRef
            && a.ticketRef in s'.inflight && b.ticketRef in s'.inflight
  {
    var (s, a) := Admit(c, INITIAL, signature, now);
    assert Prune(INITIAL.records, now) == map[];
    assert s.inflight == map[a.ticketRef := Ticket(a.ticketRef, signature, now)];
    assert |s.inflight| == 1;
    assert c.ticketName(1) != c.ticketName(2);
  }

  /** The receipt event `k` gives to the ticket, if it completes it. */
  function CompletesAt(c: Config, r: Run, k: nat, ref: Bytes): Option<Bytes> {
    if SettlesAt(r, k) && r.events[k].CompleteEvent? && r.events[k].ref == ref then
      Some(r.events[k].receipt.GetOr(c.receiptName(ref)))
    else None
  }

  /** What the events from `i` up to `n` say about the ticket: not settled yet, or completed with a receipt. */
  function Settlement(c: Config, r: Run, i: nat, n: nat, ref: Bytes): Option<Bytes>
    decreases n
  {
    if n <= i + 1 then None
    else if CompletesAt(c, r, n - 1, ref).Some? then CompletesAt(c, r, n - 1, ref)
    else Settlement(c, r, i, n - 1, ref)
  }

  function WindowRecord(signature: Bytes, ref: Bytes, receipt: Option<Bytes>, expiresAt: int): Record {
    Record(signature, if receipt.None? then Some(ref) else None, receipt.Some?, receipt, expiresAt)
  }

  /** The record of an admission inside its window, and its ticket as long as it is in flight. */
  ghost predicate InWindow(c: Config, s: State, signature: Bytes, ref: Bytes, receipt: Option<Bytes>, expiresAt: int) {
    signature in s.records && s.records[signature] == WindowRecord(signature, ref, receipt, expiresAt)
    && (ref in s.inflight ==> s.inflight[ref].signature == signature)
    && Issued(c, ref, s.counter)
  }

  lemma WindowAdmit(c: Config, s: State, asked: Bytes, now: int, signature: Bytes, ref: Bytes,
                    receipt: Option<Bytes>, expiresAt: int)
    requires DistinctNames(c) && Sound(c, s) && s.counter + 1 < TWO64 && now <= expiresAt
    requires InWindow(c, s, signature, ref, receipt, expiresAt)
    ensures InWindow(c, Admit(c, s, asked, now).0, signature, ref, receipt, expiresAt)
  {
    var n: nat :| 1 <= n <= s.counter && ref == c.ticketName(n);
    assert 1 <= n <= Admit(c, s, asked, now).0.counter;
  }

  /** Event `k` completes a ticket of the signature other than `ref`. */
  predicate OtherCompletes(r: Run, k: nat, signature: Bytes, ref: Bytes) {
    SettlesAt(r, k) && r.events[k].CompleteEvent? && r.events[k].ref != ref
    && r.states[k].inflight[r.events[k].ref].signature == signature
  }

  /** Nothing reopens the signature from `i` to `n`, and no ticket but `ref` completes it. */
  ghost predicate Undisturbed(r: Run, i: nat, n: nat, signature: Bytes, ref: Bytes) {
    forall k :: i < k < n ==> !ReopensAt(r, k, signature) && !OtherCompletes(r, k, signature, ref)
  }

  lemma WindowAt(c: Config, r: Run, k: nat, signature: Bytes, ref: Bytes, receipt: Option<Bytes>, expiresAt: int)
    requires DistinctNames(c) && IsRun(c, r) && k < |r.events|
    requires Sound(c, r.states[k]) && r.states[k].counter + 1 < TWO64
    requires r.events[k].now <= expiresAt && !ReopensAt(r, k, signature) && !OtherCompletes(r, k, signature, ref)
    requires InWindow(c, r.states[k], signature, ref, receipt, expiresAt)
    ensures var done := CompletesAt(c, r, k, ref);
            InWindow(c, r.states[k + 1], signature, ref, if done.Some? then done else receipt, expiresAt)
  {
    assert At(k);
    var s, e := r.states[k], r.events[k];
    if e.AdmitEvent? {
      WindowAdmit(c, s, e.signature, e.now, signature, ref, receipt, expiresAt);
    }
  }

  lemma WindowOn(c: Config, r: Run, k: nat, signature: Bytes, ref: Bytes, receipt: Option<Bytes>, expiresAt: int)
    requires DistinctNames(c) && IsRun(c, r) && k < |r.events|
    requires r.events[k].now <= expiresAt && !ReopensAt(r, k, signature) && !OtherCompletes(r, k, signature, ref)
    requires InWindow(c, r.states[k], signature, ref, receipt, expiresAt)
    ensures var done := CompletesAt(c, r, k, ref);
            InWindow(c, r.states[k + 1], signature, ref, if done.Some? then done else receipt, expiresAt)
  {
    ReachableSound(c, r, k);
    WindowAt(c, r, k, signature, ref, receipt, expiresAt);
  }

  lemma WindowOpens(c: Config, r: Run, k: nat, signature: Bytes)
    requires DistinctNames(c) && IsRun(c, r) && AdmitsAt(r, k, signature)
    requires Sound(c, r.states[k]) && r.states[k].counter + 1 < TWO64
    ensures InWindow(c, r.states[k + 1], signature, r.answers[k].ticketRef, None, r.events[k].now + c.windowMs)
  {
    assert At(k);
    assert r.answers[k].ticketRef == c.ticketName(r.states[k].counter + 1);
  }

  /**
   Inside its window, while nothing reopens its signature and no other ticket of it completes,
   the record of an admission is fixed by that admission and its completion alone.
   */
  lemma {:induction false} WindowStable(c: Config, r: Run, i: nat, n: nat, signature: Bytes)
    requires DistinctNames(c) && IsRun(c, r) && Clocked(r) && i < n <= |r.events|
    requires AdmitsAt(r, i, signature) && r.events[n - 1].now <= r.events[i].now + c.windowMs
    requires Undisturbed(r, i, n, signature, r.answers[i].ticketRef)
    ensures var ref := r.answers[i].ticketRef;
            InWindow(c, r.states[n], signature, ref, Settlement(c, r, i, n, ref), r.events[i].now + c.windowMs)
  {
    var ref := r.answers[i].ticketRef;
    if i + 1 == n {
      ReachableSound(c, r, i);
      WindowOpens(c, r, i, signature);
    } else {
      assert r.events[n - 2].now <= r.events[n - 1].now;
      WindowStable(c, r, i, n - 1, signature);
      WindowOn(c, r, n - 1, signature, ref, Settlement(c, r, i, n - 1, ref), r.events[i].now + c.windowMs);
    }
  }

  function WindowReply(atLimit: bool, ref: Bytes, receipt: Option<Bytes>): Answer {
    if atLimit then LIMIT
    else if receipt.None? then Refused(Conflict, Some(ref), None)
    else Refused(ReplayHit, None, receipt)
  }

  lemma ReplyFromRecord(c: Config, s: State, signature: Bytes, now: int, ref: Bytes, receipt: Option<Bytes>,
                        expiresAt: int)
    requires signature != [] && now <= expiresAt && InWindow(c, s, signature, ref, receipt, expiresAt)
    ensures Admit(c, s, signature, now).1 == WindowReply(AtLimit(c, s), ref, receipt)
  {
  }

  /**
   Replay stability. In an undisturbed window every further request of the signature is
   refused with one fixed answer: the limit, a conflict naming the admitted ticket, or a
   replay of the receipt that ticket completed with.
   */
  lemma WindowAnswer(c: Config, r: Run, i: nat, j: nat, signature: Bytes)
    requires DistinctNames(c) && IsRun(c, r) && Clocked(r) && i < j < |r.events|
    requires AdmitsAt(r, i, signature)
    requires r.events[j].AdmitEvent? && r.events[j].signature == signature
    requires r.events[j].now <= r.events[i].now + c.windowMs
    requires Undisturbed(r, i, j, signature, r.answers[i].ticketRef)
    ensures r.answers[j] == WindowReply(AtLimit(c, r.states[j]), r.answers[i].ticketRef,
                                        Settlement(c, r, i, j, r.answers[i].ticketRef))
  {
    assert r.events[j - 1].now <= r.events[j].now;
    WindowStable(c, r, i, j, signature);
    var ref := r.answers[i].ticketRef;
    AdmittedHasSignature(c, r, i);
    ReplyFromRecord(c, r.states[j], signature, r.events[j].now, ref, Settlement(c, r, i, j, ref),
                    r.events[i].now + c.windowMs);
    assert At(j);
  }

  lemma AdmittedHasSignature(c: Config, r: Run, i: nat)
    requires IsRun(c, r) && i < |r.events| && r.answers[i].Admitted?
    ensures r.events[i].AdmitEvent? && r.events[i].signature != []
  {
    assert At(i);
  }

  // ----- When a window is undisturbed -----

  /** All tickets of the signature in flight are `ref`. */
  ghost predicate OnlyTicket(s: State, signature: Bytes, ref: Bytes) {
    forall q :: q in s.inflight && s.inflight[q].signature == signature ==> q == ref
  }

  lemma OnlyTicketStep(c: Config, r: Run, k: nat, signature: Bytes, ref: Bytes)
    requires IsRun(c, r) && k < |r.events| && OnlyTicket(r.states[k], signature, ref)
    requires AdmitsAt(r, k, signature) ==> r.answers[k].ticketRef == ref
    ensures OnlyTicket(r.states[k + 1], signature, ref)
  {
    assert At(k);
  }

  lemma {:induction false} OnlyTicketStays(c: Config, r: Run, i: nat, n: nat, signature: Bytes)
    requires DistinctNames(c) && IsRun(c, r) && Clocked(r) && i < n <= |r.events|
    requires AdmitsAt(r, i, signature) && r.events[n - 1].now <= r.events[i].now + c.windowMs
    requires forall q :: q in r.states[i].inflight ==> r.states[i].inflight[q].signature != signature
    requires forall k :: i < k < n ==> !ReopensAt(r, k, signature)
    ensures OnlyTicket(r.states[n], signature, r.answers[i].ticketRef)
  {
    if n > i + 1 {
      assert r.events[n - 2].now <= r.events[n - 1].now;
      OnlyTicketStays(c, r, i, n - 1, signature);
      RecordStays(c, r, i, n - 1, signature);
      ReachableSound(c, r, n - 1);
      GuardsAt(c, r, n - 1, signature, r.events[i].now + c.windowMs);
    }
    OnlyTicketStep(c, r, n - 1, signature, r.answers[i].ticketRef);
  }

  /** A window is undisturbed when its admission found no older ticket of the signature and nothing reopens it. */
  lemma NoOlderTicket(c: Config, r: Run, i: nat, n: nat, signature: Bytes)
    requires DistinctNames(c) && IsRun(c, r) && Clocked(r) && i < n <= |r.events|
    requires AdmitsAt(r, i, signature) && r.events[n - 1].now <= r.events[i].now + c.windowMs
    requires forall q :: q in r.states[i].inflight ==> r.states[i].inflight[q].signature != signature
    requires forall k :: i < k < n ==> !ReopensAt(r, k, signature)
    ensures Undisturbed(r, i, n, signature, r.answers[i].ticketRef)
  {
    forall k | i < k < n ensures !OtherCompletes(r, k, signature, r.answers[i].ticketRef) {
      assert r.events[k - 1].now <= r.events[n - 1].now;
      OnlyTicketStays(c, r, i, k, signature);
    }
  }

  lemma LateState(c: Config, signature: Bytes, now: int)
    requires DistinctNames(c) && signature != [] && c.maxInflight >= 2 && c.windowMs >= 0
    ensures var (s1, a) := Admit(c, INITIAL, signature, now);
            var (s2, b) := Admit(c, s1, signature, now + c.windowMs + 1);
            a.Admitted? && b.Admitted? && a.ticketRef != b.ticketRef && a.ticketRef in s2.inflight
            && b.ticketRef in s2.inflight
            && s2.inflight[a.ticketRef].signature == signature && |s2.inflight| == 2
            && Guards(s2, signature, now + c.windowMs + 1 + c.windowMs)
  {
    LateTicketDoubles(c, signature, now);
    assert Prune(INITIAL.records, now) == map[];
  }

  /**
   The failing case: an older ticket completes in the window of a newer one, and repeats are
   told its receipt while the newer ticket is still in flight.
   */
  lemma LateReceipt(c: Config, signature: Bytes, now: int, receipt: Option<Bytes>)
    requires DistinctNames(c) && signature != [] && c.maxInflight >= 2 && c.windowMs >= 0
    ensures var later := now + c.windowMs + 1;
            var (s1, a) := Admit(c, INITIAL, signature, now);
            var (s2, b) := Admit(c, s1, signature, later);
            var s3 := Complete(c, s2, a.ticketRef, receipt);
            a.Admitted? && b.Admitted? && b.ticketRef in s3.inflight
            && Admit(c, s3, signature, later).1
               == Refused(ReplayHit, None, Some(receipt.GetOr(c.receiptName(a.ticketRef))))
  {
    LateState(c, signature, now);
    var (s1, a) := Admit(c, INITIAL, signature, now);
    var (s2, b) := Admit(c, s1, signature, now + c.windowMs + 1);
    LateCompletes(c, s2, a.ticketRef, b.ticketRef, signature, receipt, now + c.windowMs + 1);
  }

  lemma LateCompletes(c: Config, s: State, a: Bytes, b: Bytes, signature: Bytes, receipt: Option<Bytes>, now: int)
    requires a in s.inflight && b in s.inflight && a != b && s.inflight[a].signature == signature != []
    requires Guards(s, signature, now + c.windowMs) && c.windowMs >= 0 && |s.inflight| == 2 <= c.maxInflight
    ensures var s' := Complete(c, s, a, receipt);
            b in s'.inflight
            && Admit(c, s', signature, now).1 == Refused(ReplayHit, None, Some(receipt.GetOr(c.receiptName(a))))
  {
  }
}
