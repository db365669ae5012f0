/** The bounded retry loop around one route, over an arbitrary history of its registry and adapter. */
module CallExecutor {
  import opened Wrappers
  import opened LLMResults
  import opened Widths

  datatype RouteState = Missing | Blocked | Ready

  /** What one turn of the loop meets: the route, the concurrency permit, the adapter, and the route afterwards. */
  datatype Attempt = Attempt(
    route: RouteState,
    permitted: bool,
    reply: AdapterResult,
    elapsedMs: int,
    blockedAfter: bool
  )

  type Tape = nat -> Attempt

  datatype Config = Config(initialized: bool, retryBudget: nat, timeoutMs: int)

  /** `calls` counts the adapter calls of the execution; `attemptsStarted` of the result is a 32-bit counter. */
  datatype Execution = Execution(result: ExecutionResult, calls: nat)

  function EffectiveTimeout(configured: int, requested: Option<nat>): (ms: nat)
    ensures requested.Some? ==> ms <= requested.value
  {
    var atLeastOne := if configured < 1 then 1 else configured;
    var clamped := if atLeastOne < TWO32 then atLeastOne else TWO32 - 1;
    if requested.Some? && requested.value < clamped then requested.value else clamped
  }

  function Failure(route: string, attempts: nat, adapter: Option<AdapterResult>, code: ResultCode, retryable: bool,
                   reason: FailureReason)
    : ExecutionResult
  {
    ExecutionResult(route, attempts, adapter, Some(MakeError(code, retryable, false)), Some(code), Some(reason))
  }

  function Success(route: string, attempts: nat, adapter: AdapterResult): ExecutionResult {
    ExecutionResult(route, attempts, Some(adapter), None, None, None)
  }

  const TIMEOUT_RESULT := AdapterResult(None, Some(MakeError(PROVIDER_TIMEOUT, true, false)), Some(PROVIDER_TIMEOUT),
                                        None, true)

  predicate Retryable(r: AdapterResult) {
    r.error.Some? && r.error.value.retryable.GetOr(false)
  }

  /** The adapter is called on this attempt. */
  predicate Reached(a: Attempt) {
    a.route == Ready && a.permitted
  }

  /** A called attempt that may be tried again: late, or failed in a retryable way, on a route still open. */
  predicate TryAgain(a: Attempt, timeoutMs: nat) {
    Reached(a) && ConsistentAdapter(a.reply) && !a.blockedAfter
    && (a.elapsedMs > timeoutMs || (a.reply.response.None? && Retryable(a.reply)))
  }

  predicate Answers(a: Attempt, timeoutMs: nat) {
    Reached(a) && ConsistentAdapter(a.reply) && a.elapsedMs <= timeoutMs && a.reply.response.Some?
  }

  /** How the execution ends when attempt `k` is its last. */
  function Ending(route: string, a: Attempt, timeoutMs: nat, k: nat): Execution {
    var before, after := k % TWO32, (k + 1) % TWO32;
    if a.route == Missing then
      Execution(Failure(route, before, None, RUNTIME_RETRY_EXHAUSTED, false, RouteUnavailable), k)
    else if a.route == Blocked then
      Execution(Failure(route, before, None, RUNTIME_RETRY_EXHAUSTED, false, RouteBlocked), k)
    else if !a.permitted then
      Execution(Failure(route, before, None, RUNTIME_RETRY_EXHAUSTED, false, ConcurrencyRejected), k)
    else if !ConsistentAdapter(a.reply) then
      var reason := if a.blockedAfter then RouteBlocked else AdapterFailure;
      Execution(Failure(route, after, Some(a.reply), RUNTIME_RETRY_EXHAUSTED, false, reason), k + 1)
    else if a.elapsedMs > timeoutMs then
      if a.blockedAfter then
        Execution(Failure(route, after, Some(TIMEOUT_RESULT), RUNTIME_RETRY_EXHAUSTED, false, RouteBlocked), k + 1)
      else Execution(Failure(route, after, Some(TIMEOUT_RESULT), PROVIDER_TIMEOUT, true, Timeout), k + 1)
    else if a.reply.response.Some? then Execution(Success(route, after, a.reply), k + 1)
    else if a.blockedAfter then
      Execution(Failure(route, after, Some(a.reply), RUNTIME_RETRY_EXHAUSTED, false, RouteBlocked), k + 1)
    else
      Execution(Failure(route, after, Some(a.reply), a.reply.code.GetOr(RUNTIME_RETRY_EXHAUSTED), Retryable(a.reply),
                        AdapterFailure), k + 1)
  }

  /** The number of the last attempt. */
  function LastAttempt(c: Config, tape: Tape, timeoutMs: nat, k: nat): (last: nat)
    requires k <= c.retryBudget
    ensures k <= last <= c.retryBudget
    ensures forall j :: k <= j < last ==> TryAgain(tape(j), timeoutMs)
    ensures last < c.retryBudget ==> !TryAgain(tape(last), timeoutMs)
    decreases c.retryBudget - k
  {
    if k < c.retryBudget && TryAgain(tape(k), timeoutMs) then LastAttempt(c, tape, timeoutMs, k + 1) else k
  }

  function Execute(c: Config, route: string, requested: Option<nat>, tape: Tape): Execution {
    if !c.initialized then
      Execution(Failure(route, 0, None, RUNTIME_RETRY_EXHAUSTED, false, NotInitialized), 0)
    else
      var timeoutMs := EffectiveTimeout(c.timeoutMs, requested);
      var last := LastAttempt(c, tape, timeoutMs, 0);
      Ending(route, tape(last), timeoutMs, last)
  }

  lemma {:induction false} LastAfterRetries(c: Config, tape: Tape, timeoutMs: nat, k: nat)
    requires k <= c.retryBudget && forall j :: 0 <= j < k ==> TryAgain(tape(j), timeoutMs)
    ensures LastAttempt(c, tape, timeoutMs, 0) == LastAttempt(c, tape, timeoutMs, k)
  {
    if k > 0 {
      LastAfterRetries(c, tape, timeoutMs, k - 1);
    }
  }

  /** Where the loop stands: all attempts so far were to be tried again, and if this one is not, it is the last. */
  lemma Turn(c: Config, route: string, requested: Option<nat>, tape: Tape, k: nat)
    requires c.initialized && k <= c.retryBudget
    requires forall j :: 0 <= j < k ==> TryAgain(tape(j), EffectiveTimeout(c.timeoutMs, requested))
    ensures var timeoutMs := EffectiveTimeout(c.timeoutMs, requested);
            !TryAgain(tape(k), timeoutMs) || k == c.retryBudget ==>
              Execute(c, route, requested, tape) == Ending(route, tape(k), timeoutMs, k)
  {
    LastAfterRetries(c, tape, EffectiveTimeout(c.timeoutMs, requested), k);
  }

  /** Every call but the last may be retried, and at most one call more than the budget is made. */
  lemma CallsBounded(c: Config, route: string, requested: Option<nat>, tape: Tape)
    ensures var e := Execute(c, route, requested, tape);
            e.calls <= c.retryBudget + 1 && e.result.attemptsStarted == e.calls % TWO32
            && (forall j :: 0 <= j < e.calls - 1 ==> TryAgain(tape(j), EffectiveTimeout(c.timeoutMs, requested)))
            && (forall j :: 0 <= j < e.calls ==> Reached(tape(j)))
  {
  }

  /** An execution answers exactly when some attempt within the budget answers and all before it may be retried. */
  lemma AnswersExactly(c: Config, route: string, requested: Option<nat>, tape: Tape)
    requires c.initialized
    ensures var e, timeoutMs := Execute(c, route, requested, tape), EffectiveTimeout(c.timeoutMs, requested);
            (Succeeded(e.result) && e.result.error.None?) <==>
              exists k :: 0 <= k <= c.retryBudget && Answers(tape(k), timeoutMs)
                          && forall j :: 0 <= j < k ==> TryAgain(tape(j), timeoutMs)
  {
    var timeoutMs := EffectiveTimeout(c.timeoutMs, requested);
    var last := LastAttempt(c, tape, timeoutMs, 0);
    if k :| 0 <= k <= c.retryBudget && Answers(tape(k), timeoutMs)
            && forall j :: 0 <= j < k ==> TryAgain(tape(j), timeoutMs) {
      LastAfterRetries(c, tape, timeoutMs, k);
      assert !TryAgain(tape(k), timeoutMs);
      assert last == k;
    }
    if Answers(tape(last), timeoutMs) {
      assert Answers(tape(last), timeoutMs) && forall j :: 0 <= j < last ==> TryAgain(tape(j), timeoutMs);
    }
  }

  /** Only a broken reply of the adapter, or a call counter wrapped to zero, makes an execution result inconsistent. */
  lemma ExecutionConsistent(c: Config, route: string, requested: Option<nat>, tape: Tape)
    requires route != ""
    ensures var e := Execute(c, route, requested, tape);
            ConsistentExecution(e.result) <==>
              !(e.result.adapterResult.Some? && !ConsistentAdapter(e.result.adapterResult.value))
              && !(Succeeded(e.result) && e.calls % TWO32 == 0)
  {
  }

  // ----- The same, read off the attempts alone -----

  /** A reply that is a response or an error with its code, and nothing besides. */
  predicate GoodReply(r: AdapterResult) {
    r.diagnosticsConsistent
    && match r.response
       case Some(_) => r.error.None? && r.code.None? && r.usage != Some(false)
       case None => r.error.Some? && r.code.Some? && r.usage.None?
  }

  /** After this attempt there is another, if the budget allows. */
  predicate GoesOn(a: Attempt, timeoutMs: nat) {
    a.route.Ready? && a.permitted && GoodReply(a.reply) && !a.blockedAfter
    && (a.elapsedMs > timeoutMs || (a.reply.error.Some? && a.reply.error.value.retryable == Some(true)))
  }

  /** Attempt `k` is the last: all before it went on, and it does not, or the budget ends with it. */
  ghost predicate IsLast(c: Config, requested: Option<nat>, tape: Tape, k: nat) {
    var timeoutMs := EffectiveTimeout(c.timeoutMs, requested);
    k <= c.retryBudget && (forall j :: 0 <= j < k ==> GoesOn(tape(j), timeoutMs))
    && (k < c.retryBudget ==> !GoesOn(tape(k), timeoutMs))
  }

  lemma GoesOnExactly(a: Attempt, timeoutMs: nat)
    ensures TryAgain(a, timeoutMs) <==> GoesOn(a, timeoutMs)
    ensures ConsistentAdapter(a.reply) <==> GoodReply(a.reply)
  {
  }

  /** There is exactly one last attempt. */
  lemma OneLast(c: Config, requested: Option<nat>, tape: Tape)
    ensures exists k :: IsLast(c, requested, tape, k)
    ensures forall k, l :: IsLast(c, requested, tape, k) && IsLast(c, requested, tape, l) ==> k == l
  {
    var timeoutMs := EffectiveTimeout(c.timeoutMs, requested);
    var last := LastAttempt(c, tape, timeoutMs, 0);
    forall j ensures TryAgain(tape(j), timeoutMs) <==> GoesOn(tape(j), timeoutMs) {
      GoesOnExactly(tape(j), timeoutMs);
    }
    assert IsLast(c, requested, tape, last);
    forall k, l | IsLast(c, requested, tape, k) && IsLast(c, requested, tape, l) ensures k == l {
      NoneAfter(c, requested, tape, k, l);
      NoneAfter(c, requested, tape, l, k);
    }
  }

  lemma NoneAfter(c: Config, requested: Option<nat>, tape: Tape, k: nat, l: nat)
    requires IsLast(c, requested, tape, k) && IsLast(c, requested, tape, l)
    ensures l <= k
  {
  }

  lemma EndsAtLast(c: Config, route: string, requested: Option<nat>, tape: Tape, k: nat)
    requires c.initialized && IsLast(c, requested, tape, k)
    ensures Execute(c, route, requested, tape) == Ending(route, tape(k), EffectiveTimeout(c.timeoutMs, requested), k)
  {
    var timeoutMs := EffectiveTimeout(c.timeoutMs, requested);
    forall j ensures TryAgain(tape(j), timeoutMs) <==> GoesOn(tape(j), timeoutMs) {
      GoesOnExactly(tape(j), timeoutMs);
    }
    Turn(c, route, requested, tape, k);
  }

  /** The reply comes back within the timeout. */
  predicate InTime(a: Attempt, timeoutMs: nat) {
    a.elapsedMs <= timeoutMs
  }

  /** The adapter was called and left nothing that can be passed on: a bad or late reply, or an error. */
  predicate CallFails(a: Attempt, timeoutMs: nat) {
    a.route.Ready? && a.permitted && (!GoodReply(a.reply) || !InTime(a, timeoutMs) || a.reply.response.None?)
  }

  /** Why an execution fails, cause by cause, on its last attempt; and that it answers in all other cases. */
  lemma ReasonsExactly(c: Config, route: string, requested: Option<nat>, tape: Tape, k: nat)
    requires IsLast(c, requested, tape, k)
    ensures var x, a := Execute(c, route, requested, tape).result, tape(k);
            var timeoutMs := EffectiveTimeout(c.timeoutMs, requested);
            (x.reason == Some(NotInitialized) <==> !c.initialized)
            && (x.reason == Some(RouteUnavailable) <==> c.initialized && a.route.Missing?)
            && (x.reason == Some(RouteBlocked) <==>
                  c.initialized && (a.route.Blocked? || (CallFails(a, timeoutMs) && a.blockedAfter)))
            && (x.reason == Some(ConcurrencyRejected) <==> c.initialized && a.route.Ready? && !a.permitted)
            && (x.reason == Some(Timeout) <==>
                  c.initialized && CallFails(a, timeoutMs) && !a.blockedAfter && GoodReply(a.reply)
                  && !InTime(a, timeoutMs))
            && (x.reason == Some(AdapterFailure) <==>
                  c.initialized && CallFails(a, timeoutMs) && !a.blockedAfter
                  && (!GoodReply(a.reply) || InTime(a, timeoutMs)))
            && (x.reason.None? <==> c.initialized && a.route.Ready? && a.permitted && !CallFails(a, timeoutMs))
  {
    if c.initialized {
      EndsAtLast(c, route, requested, tape, k);
      GoesOnExactly(tape(k), EffectiveTimeout(c.timeoutMs, requested));
    }
  }

  /** What a failure carries, in terms of its reason and of the last reply. */
  lemma FailureCarries(c: Config, route: string, requested: Option<nat>, tape: Tape, k: nat)
    requires IsLast(c, requested, tape, k) && Execute(c, route, requested, tape).result.reason.Some?
    ensures var x, a := Execute(c, route, requested, tape).result, tape(k);
            var theirs := x.reason == Some(AdapterFailure) && GoodReply(a.reply);
            x.error.Some? && x.code.Some? && x.error.value.failureType == Some(Classify(x.code.value))
            && x.error.value.safeToReplan == Some(false)
            && x.code.value == (if x.reason == Some(Timeout) then PROVIDER_TIMEOUT
                                else if theirs then a.reply.code.value else RUNTIME_RETRY_EXHAUSTED)
            && (x.error.value.retryable == Some(true) <==>
                  x.reason == Some(Timeout) || (theirs && a.reply.error.value.retryable == Some(true)))
            && (x.error.value.retryable == Some(false) || x.error.value.retryable == Some(true))
  {
    if c.initialized {
      EndsAtLast(c, route, requested, tape, k);
      GoesOnExactly(tape(k), EffectiveTimeout(c.timeoutMs, requested));
    }
  }

  /** An answer carries the last reply; and in all cases the adapter was called at each attempt but perhaps the last. */
  lemma CallsExactly(c: Config, route: string, requested: Option<nat>, tape: Tape, k: nat)
    requires c.initialized && IsLast(c, requested, tape, k)
    ensures var e, a := Execute(c, route, requested, tape), tape(k);
            e.calls == k + (if a.route.Ready? && a.permitted then 1 else 0)
            && e.result.attemptsStarted == e.calls % TWO32 && e.result.routeKey == route
            && (e.result.reason.None? ==>
                e.result.adapterResult == Some(a.reply) && e.result.error.None? && e.result.code.None?)
            && (e.result.adapterResult.Some? <==> a.route.Ready? && a.permitted)
            && (e.result.adapterResult.Some? ==>
                  e.result.adapterResult.value
                  == if GoodReply(a.reply) && !InTime(a, EffectiveTimeout(c.timeoutMs, requested)) then TIMEOUT_RESULT
                     else a.reply)
  {
    EndsAtLast(c, route, requested, tape, k);
    GoesOnExactly(tape(k), EffectiveTimeout(c.timeoutMs, requested));
  }

  /** The timeout is the configured one, within 1 and 2^32 - 1, unless the request asks for less. */
  lemma TimeoutExactly(configured: int, requested: Option<nat>)
    ensures var ms := EffectiveTimeout(configured, requested);
            (requested.Some? ==> ms <= requested.value) && ms <= TWO32 - 1 && (configured >= 1 ==> ms <= configured)
            && (configured < 1 ==> ms <= 1)
            && (ms == configured || ms == TWO32 - 1 || requested == Some(ms) || (configured < 1 && ms == 1))
  {
  }

  const BUSY := Attempt(Ready, true, TIMEOUT_RESULT, 0, false)
  const ANSWERED := Attempt(Ready, true, AdapterResult(Some("answer"), None, None, None, true), 0, false)
  const BROKEN_REPLY := Attempt(Ready, true, AdapterResult(None, None, None, None, true), 0, false)

  /** The first failing case: a reply of the adapter that is neither a response nor an error. */
  lemma BrokenReplyIsInconsistent(route: string, requested: Option<nat>)
    ensures !ConsistentExecution(Execute(Config(true, 0, 1), route, requested, n => BROKEN_REPLY).result)
  {
  }

  /** The second: with the largest budget, an answer of the last attempt is reported with no attempt started. */
  lemma WrappedCounterIsInconsistent(route: string, requested: Option<nat>)
    requires route != ""
    ensures var tape := (n: nat) => if n < TWO32 - 1 then BUSY else ANSWERED;
            var e := Execute(Config(true, TWO32 - 1, 1), route, requested, tape);
            Succeeded(e.result) && e.result.attemptsStarted == 0 && !ConsistentExecution(e.result)
  {
    var c := Config(true, TWO32 - 1, 1);
    var tape := (n: nat) => if n < TWO32 - 1 then BUSY else ANSWERED;
    assert forall j :: 0 <= j < TWO32 - 1 ==> tape(j) == BUSY;
    Turn(c, route, requested, tape, TWO32 - 1);
  }

  /** What the loop makes of a reply of the adapter: another turn, or a result. */
  method JudgeReply(route: string, a: Attempt, timeoutMs: nat, mayRetry: bool, attemptsStarted: nat, ghost k: nat)
    returns (again: bool, result: ExecutionResult)
    requires Reached(a) && attemptsStarted == (k + 1) % TWO32
    ensures again <==> mayRetry && TryAgain(a, timeoutMs)
    ensures !again ==> result == Ending(route, a, timeoutMs, k).result
  {
    again := false;
    if !ConsistentAdapter(a.reply) {
      if a.blockedAfter {
        return false, Failure(route, attemptsStarted, Some(a.reply), RUNTIME_RETRY_EXHAUSTED, false, RouteBlocked);
      }
      return false, Failure(route, attemptsStarted, Some(a.reply), RUNTIME_RETRY_EXHAUSTED, false, AdapterFailure);
    }
    if a.elapsedMs > timeoutMs {
      if a.blockedAfter {
        return false, Failure(route, attemptsStarted, Some(TIMEOUT_RESULT), RUNTIME_RETRY_EXHAUSTED, false,
                              RouteBlocked);
      }
      return mayRetry, Failure(route, attemptsStarted, Some(TIMEOUT_RESULT), PROVIDER_TIMEOUT, true, Timeout);
    }
    if a.reply.response.Some? {
      return false, Success(route, attemptsStarted, a.reply);
    }
    if a.blockedAfter {
      return false, Failure(route, attemptsStarted, Some(a.reply), RUNTIME_RETRY_EXHAUSTED, false, RouteBlocked);
    }
    return Retryable(a.reply) && mayRetry,
           Failure(route, attemptsStarted, Some(a.reply), a.reply.code.GetOr(RUNTIME_RETRY_EXHAUSTED),
                   Retryable(a.reply),
                   AdapterFailure);
  }

  /** The retry loop. The return after the loop is never reached. */
  method ExecuteUnary(c: Config, route: string, requested: Option<nat>, tape: Tape)
    returns (result: ExecutionResult, ghost calls: nat)
    requires c.retryBudget < TWO32
    ensures result == Execute(c, route, requested, tape).result
    ensures calls == Execute(c, route, requested, tape).calls
  {
    calls := 0;
    if !c.initialized {
      return Failure(route, 0, None, RUNTIME_RETRY_EXHAUSTED, false, NotInitialized), 0;
    }
    var attemptsStarted, attempt := 0, 0;
    var timeoutMs := EffectiveTimeout(c.timeoutMs, requested);
    while attempt <= c.retryBudget
      invariant attemptsStarted == calls == attempt <= c.retryBudget
      invariant forall j :: 0 <= j < attempt ==> TryAgain(tape(j), timeoutMs)
      decreases c.retryBudget - attempt
    {
      Turn(c, route, requested, tape, attempt);
      var a := tape(attempt);
      if a.route == Missing {
        return Failure(route, attemptsStarted, None, RUNTIME_RETRY_EXHAUSTED, false, RouteUnavailable), calls;
      }
      if a.route == Blocked {
        return Failure(route, attemptsStarted, None, RUNTIME_RETRY_EXHAUSTED, false, RouteBlocked), calls;
      }
      if !a.permitted {
        return Failure(route, attemptsStarted, None, RUNTIME_RETRY_EXHAUSTED, false, ConcurrencyRejected), calls;
      }
      calls := calls + 1;
      attemptsStarted := if attemptsStarted + 1 == TWO32 then 0 else attemptsStarted + 1;
      var again;
      again, result := JudgeReply(route, a, timeoutMs, attempt < c.retryBudget, attemptsStarted, attempt);
      if !again {
        return;
      }
      attempt := attempt + 1;
    }
    assert false;
  }
}
