/** Which submissions are dispatched, and whose receipt a repeat is told, in terms of the requests themselves. */
module SubmitRepeats {
  import opened AccessTypes
  import opened ByteText
  import opened Wrappers
  import opened RequestChecks
  import opened Signatures
  import opened SubmitSpec
  import AdmissionSpec
  import Admission

  /** The completed record that dispatch `i` of the run leaves behind. */
  ghost predicate LeftBy(cfg: Settings, r: Log, i: nat, signature: Bytes, record: AdmissionSpec.Record) {
    i < |r.calls| && i < |r.outcomes| && DispatchedAt(r, i, signature)
    && record == LeftRecord(cfg, r.calls[i], r.outcomes[i])
  }

  function LeftRecord(cfg: Settings, call: Call, outcome: Outcome): AdmissionSpec.Record
    requires outcome.Dispatched?
  {
    AdmissionSpec.Record(outcome.signature, None, true,
                         Some(ReceiptLeft(cfg.admission, outcome.ticketRef, outcome.reply)),
                         call.now + cfg.admission.windowMs)
  }

  ghost predicate LeftBefore(cfg: Settings, r: Log, n: nat, signature: Bytes, record: AdmissionSpec.Record) {
    exists i: nat :: i < n && LeftBy(cfg, r, i, signature, record)
  }

  lemma AdmitRecords(c: AdmissionSpec.Config, s: Admitting, asked: Bytes, now: int, given: Option<Bytes>,
                     signature: Bytes)
    requires var (a, answer) := AdmissionSpec.Admit(c, s, asked, now);
             var s' := if answer.Admitted? then AdmissionSpec.Complete(c, a, answer.ticketRef, given) else a;
             signature in s'.records
    ensures var (a, answer) := AdmissionSpec.Admit(c, s, asked, now);
            var s' := if answer.Admitted? then AdmissionSpec.Complete(c, a, answer.ticketRef, given) else a;
            (signature in s.records && s'.records[signature] == s.records[signature])
            || (answer.Admitted? && signature == asked
                && s'.records[signature] == AdmissionSpec.Record(asked, None, true,
                     Some(given.GetOr(c.receiptName(answer.ticketRef))), now + c.windowMs))
  {
  }

  /** A record after a submission was there before, or is the one its dispatch leaves. */
  lemma SubmitRecords(cfg: Settings, s: Sys, call: Call, signature: Bytes)
    requires signature in Submit(cfg, s, call).0.admission.records
    ensures var (s', _, outcome) := Submit(cfg, s, call);
            var record := s'.admission.records[signature];
            (signature in s.admission.records && record == s.admission.records[signature])
            || (outcome.Dispatched? && outcome.signature == signature && record == LeftRecord(cfg, call, outcome))
  {
    NeverReleased(cfg, s, call);
    if call.front.Passed? && Validate(cfg.limits, Request(call)).None? {
      var asked := Admission.Signature(Request(call));
      var reply := Dispatch(call.runtime, Normalize(Request(call), call.newId).value);
      AdmitRecords(cfg.admission, s.admission, asked, call.now, reply.receiptRef, signature);
    }
  }

  /** In a sequential run every record is one that an earlier dispatch left. */
  lemma {:induction false} RecordsWereLeft(cfg: Settings, r: Log, n: nat, signature: Bytes)
    requires IsRun(cfg, r) && n <= |r.calls| && signature in r.systems[n].admission.records
    ensures LeftBefore(cfg, r, n, signature, r.systems[n].admission.records[signature])
  {
    if n > 0 {
      RecordAt(cfg, r, n - 1, signature);
      var record := r.systems[n].admission.records[signature];
      if !LeftBy(cfg, r, n - 1, signature, record) {
        RecordsWereLeft(cfg, r, n - 1, signature);
        var i: nat :| i < n - 1 && LeftBy(cfg, r, i, signature, record);
        assert i < n && LeftBy(cfg, r, i, signature, record);
      }
    }
  }

  lemma RecordAt(cfg: Settings, r: Log, k: nat, signature: Bytes)
    requires IsRun(cfg, r) && k < |r.calls| && signature in r.systems[k + 1].admission.records
    ensures var record := r.systems[k + 1].admission.records[signature];
            (signature in r.systems[k].admission.records && record == r.systems[k].admission.records[signature])
            || LeftBy(cfg, r, k, signature, record)
  {
    assert At(k);
    SubmitRecords(cfg, r.systems[k], r.calls[k], signature);
  }

  // ----- What is dispatched -----

  ghost predicate DispatchedInWindow(cfg: Settings, r: Log, j: nat, signature: Bytes) {
    exists i: nat :: i < j < |r.calls| && DispatchedAt(r, i, signature)
                     && r.calls[j].now <= r.calls[i].now + cfg.admission.windowMs
  }

  lemma AdmitsFresh(c: AdmissionSpec.Config, s: Admitting, signature: Bytes, now: int)
    requires signature != [] && s.inflight == map[] && c.maxInflight > 0
    requires signature in s.records ==> s.records[signature].expiresAt < now
    ensures AdmissionSpec.Admit(c, s, signature, now).1.Admitted?
  {
  }

  lemma DispatchesFresh(cfg: Settings, s: Sys, call: Call, signature: Bytes)
    requires Asks(cfg, call, signature) && s.admission.inflight == map[] && cfg.admission.maxInflight > 0
    requires signature in s.admission.records ==> s.admission.records[signature].expiresAt < call.now
    ensures var outcome := Submit(cfg, s, call).2; outcome.Dispatched? && outcome.signature == signature
  {
    SubmitAsked(cfg, s, call, signature);
    AdmitsFresh(cfg.admission, s.admission, signature, call.now);
    NeverReleased(cfg, s, call);
  }

  /**
   In every sequential run a call that passes the validator is dispatched exactly when there
   is any room at all and no dispatch of its signature was inside the window before it.
   */
  lemma DispatchedExactly(cfg: Settings, r: Log, j: nat, signature: Bytes)
    requires IsRun(cfg, r) && Clocked(r) && j < |r.calls| && Asks(cfg, r.calls[j], signature)
    ensures DispatchedAt(r, j, signature) <==>
              cfg.admission.maxInflight > 0 && !DispatchedInWindow(cfg, r, j, signature)
  {
    if DispatchedAt(r, j, signature) {
      RunHasRoom(cfg, r, j);
      forall i: nat | i < j && DispatchedAt(r, i, signature)
        ensures r.calls[j].now > r.calls[i].now + cfg.admission.windowMs
      {
        DispatchSpacing(cfg, r, i, j, signature);
      }
    } else if cfg.admission.maxInflight > 0 && !DispatchedInWindow(cfg, r, j, signature) {
      NothingInFlight(cfg, r, j);
      if signature in r.systems[j].admission.records {
        RecordsWereLeft(cfg, r, j, signature);
      }
      DispatchesFresh(cfg, r.systems[j], r.calls[j], signature);
      assert At(j);
    }
  }

  /**
   Two calls of different submissions, without a bar before the key: the one's dispatch never
   stands in the other's way.
   */
  lemma OthersDoNotCount(cfg: Settings, r: Log, i: nat, j: nat)
    requires IsRun(cfg, r) && i < |r.calls| && j < |r.calls|
    requires r.outcomes[i].Dispatched? && Asks(cfg, r.calls[j], Admission.Signature(RequestAt(r, j)))
    requires Plain(PartsAt(r, i), 0x7c) && Plain(PartsAt(r, j), 0x7c)
    ensures DispatchedAt(r, i, Admission.Signature(RequestAt(r, j))) <==> PartsAt(r, i) == PartsAt(r, j)
  {
    DispatchSigns(cfg, r, i);
    ValidatedHasSignature(cfg.limits, RequestAt(r, j));
    Admission.SignatureExactly(RequestAt(r, i), RequestAt(r, j));
  }

  function RequestAt(r: Log, i: nat): DispatchRequest
    requires i < |r.calls|
  {
    if r.calls[i].front.Passed? then Request(r.calls[i]) else BuildRequest(r.calls[i].packet, [], [])
  }

  function PartsAt(r: Log, i: nat): Parts
    requires i < |r.calls|
  {
    Admission.PartsOf(RequestAt(r, i))
  }

  lemma DispatchSigns(cfg: Settings, r: Log, i: nat)
    requires IsRun(cfg, r) && i < |r.calls| && r.outcomes[i].Dispatched?
    ensures r.calls[i].front.Passed? && r.outcomes[i].signature == Admission.Signature(Request(r.calls[i])) != []
  {
    assert At(i);
    SubmitSigns(cfg, r.systems[i], r.calls[i]);
  }

  lemma SubmitSigns(cfg: Settings, s: Sys, call: Call)
    requires Submit(cfg, s, call).2.Dispatched?
    ensures call.front.Passed? && Validate(cfg.limits, Request(call)).None?
    ensures Submit(cfg, s, call).2.signature == Admission.Signature(Request(call)) != []
  {
    ValidatedHasSignature(cfg.limits, Request(call));
  }

  // ----- Whose receipt is replayed -----

  predicate ReplayedAt(r: Log, j: nat) {
    j < |r.calls| && j < |r.outcomes| && r.outcomes[j].Refused? && r.outcomes[j].answer.Refused?
    && r.outcomes[j].answer.reason == AdmissionSpec.ReplayHit
  }

  lemma ReplayIsOfRecord(c: AdmissionSpec.Config, s: Admitting, signature: Bytes, now: int)
    requires var answer := AdmissionSpec.Admit(c, s, signature, now).1;
             answer.Refused? && answer.reason == AdmissionSpec.ReplayHit
    ensures signature in s.records && s.records[signature].expiresAt >= now
    ensures AdmissionSpec.Admit(c, s, signature, now).1.replayRef == s.records[signature].replayRef
  {
  }

  lemma SubmitReplays(cfg: Settings, s: Sys, call: Call)
    requires var outcome := Submit(cfg, s, call).2;
             outcome.Refused? && outcome.answer.Refused? && outcome.answer.reason == AdmissionSpec.ReplayHit
    ensures call.front.Passed?
    ensures var signature := Admission.Signature(Request(call));
            signature != [] && signature in s.admission.records && s.admission.records[signature].expiresAt >= call.now
            && Submit(cfg, s, call).1 == ReplayResult(s.admission.records[signature].replayRef)
  {
    ValidatedHasSignature(cfg.limits, Request(call));
    ReplayIsOfRecord(cfg.admission, s.admission, Admission.Signature(Request(call)), call.now);
  }

  /** Call `j` is told the receipt that dispatch `i` left, inside the window of that dispatch. */
  predicate ToldBy(cfg: Settings, r: Log, i: nat, j: nat)
    requires i < |r.calls| == |r.outcomes| == |r.results| && j < |r.calls|
  {
    r.outcomes[i].Dispatched? && r.calls[j].now <= r.calls[i].now + cfg.admission.windowMs
    && r.results[j] == ReplayResult(Some(ReceiptLeft(cfg.admission, r.outcomes[i].ticketRef, r.outcomes[i].reply)))
  }

  /**
   Whoever is told a replayed receipt is told the one of an earlier dispatch inside the window
   that has its signature; so, without bars before the keys, one of the same entry type,
   protocol, actor and key.
   */
  lemma ReplayedIsOwn(cfg: Settings, r: Log, j: nat)
    requires IsRun(cfg, r) && ReplayedAt(r, j)
    ensures r.calls[j].front.Passed?
    ensures exists i: nat :: i < j && ToldBy(cfg, r, i, j) && DispatchedAt(r, i, Admission.Signature(RequestAt(r, j)))
              && (Plain(PartsAt(r, i), 0x7c) && Plain(PartsAt(r, j), 0x7c) ==> PartsAt(r, i) == PartsAt(r, j))
  {
    assert At(j);
    SubmitReplays(cfg, r.systems[j], r.calls[j]);
    var signature := Admission.Signature(Request(r.calls[j]));
    RecordsWereLeft(cfg, r, j, signature);
    var i: nat :| i < j && LeftBy(cfg, r, i, signature, r.systems[j].admission.records[signature]);
    DispatchSigns(cfg, r, i);
    if Plain(PartsAt(r, i), 0x7c) && Plain(PartsAt(r, j), 0x7c) {
      Admission.SignatureExactly(RequestAt(r, i), RequestAt(r, j));
    }
    assert ToldBy(cfg, r, i, j);
  }

  // ----- What a caller is told -----

  /** The signature has a record whose window is not over. */
  predicate Live(s: Admitting, signature: Bytes, now: int) {
    signature in s.records && now <= s.records[signature].expiresAt
  }

  lemma RefusedAs(c: AdmissionSpec.Config, s: Admitting, signature: Bytes, now: int)
    requires signature != []
    ensures var answer := AdmissionSpec.Admit(c, s, signature, now).1;
            var room := |s.inflight| < c.maxInflight;
            (answer.Refused? && RefusalResult(answer) == Rejection(AdmissionRejected) <==> !room)
            && (answer.Refused? && RefusalResult(answer) == Rejection(IdempotencyConflict) <==>
                  room && Live(s, signature, now) && !s.records[signature].completed
                  && s.records[signature].inflightRef.Some?)
            && (answer.Refused? && RefusalResult(answer).disposition == AcceptedAsync <==>
                  room && Live(s, signature, now) && s.records[signature].completed)
  {
  }

  /** In any state: what a call that passes the validator is told instead of being dispatched, and when. */
  lemma ToldExactly(cfg: Settings, s: Sys, call: Call, signature: Bytes)
    requires Asks(cfg, call, signature)
    ensures var (_, result, outcome) := Submit(cfg, s, call);
            var records, room := s.admission.records, |s.admission.inflight| < cfg.admission.maxInflight;
            var live := Live(s.admission, signature, call.now);
            (outcome.Refused? && result == Rejection(AdmissionRejected) <==> !room)
            && (outcome.Refused? && result == Rejection(IdempotencyConflict) <==>
                  room && live && !records[signature].completed && records[signature].inflightRef.Some?)
            && (outcome.Refused? && result.disposition == AcceptedAsync <==>
                room && live && records[signature].completed)
            && (outcome.Dispatched? <==>
                  room && (live ==> !records[signature].completed && records[signature].inflightRef.None?))
  {
    SubmitAsked(cfg, s, call, signature);
    RefusedAs(cfg.admission, s.admission, signature, call.now);
    NeverReleased(cfg, s, call);
  }

  /** A call the validator refuses is told its error and changes nothing; one answered before changes no ticket. */
  lemma ToldInvalid(cfg: Settings, s: Sys, call: Call)
    requires call.front.Passed? ==> Validate(cfg.limits, Request(call)).Some?
    ensures var (s', result, outcome) := Submit(cfg, s, call);
            s'.admission == s.admission
            && (if call.front.Passed? then result == Rejection(Validate(cfg.limits, Request(call)).value) && s' == s
                else result == call.front.result)
  {
  }
}
