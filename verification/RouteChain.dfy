/** `LLMManager::generate`: the checks before routing, and the fallback chain over the route candidates. */
module RouteChain {
  import opened Wrappers
  import opened LLMResults
  import opened UniqueLists
  import opened Widths
  import CallExecutor

  // ----- What the manager asks of parts it cannot see -----

  datatype Pipeline = Pipeline(
    disposition: Disposition,
    hasRelease: bool,
    hasComposed: bool,
    hasGovernedMessages: bool
  )

  datatype Normalization = Normalization(response: Option<Response>, error: Option<ErrorInfo>, code: Option<ResultCode>,
                                         usage: Option<bool>)

  predicate ConsistentNormalization(n: Normalization) {
    n.response.Some? != n.error.Some?
    && n.error.Some? == n.code.Some?
    && (n.usage.Some? ==> n.response.Some? && n.usage.value)
  }

  /** What is met at one candidate: the executor's history, the registry and catalog afterwards, the normalizer. */
  datatype Stop = Stop(tape: CallExecutor.Tape, routeKept: bool, modelKnown: bool, normalization: Normalization)

  datatype Request = Request(
    stage: string,
    requestId: Option<string>,
    callId: Option<string>,
    hasMessages: bool,
    modelRoute: Option<string>,
    timeoutMs: Option<nat>
  )

  datatype World = World(
    initialized: bool,
    stageConfigured: bool,
    composeValid: bool,
    pipeline: Pipeline,
    callValid: bool,
    catalogAvailable: bool,
    route: Option<Route>,
    config: CallExecutor.Config,
    stops: nat -> Stop
  )

  datatype Route = Route(primary: string, fallbacks: seq<string>)

  // ----- Route candidates -----

  function Candidates(r: Route): seq<string> {
    AppendAll(AppendUnique([], r.primary), r.fallbacks)
  }

  /** The candidates are the configured routes without blanks and repeats. */
  lemma CandidatesClean(r: Route)
    ensures Clean(Candidates(r))
    ensures forall v :: v in Candidates(r) <==> v != "" && (v == r.primary || v in r.fallbacks)
    ensures r.primary != "" ==> Candidates(r) != [] && Candidates(r)[0] == r.primary
  {
    AppendAllClean(AppendUnique([], r.primary), r.fallbacks);
    AppendAllPrefix(AppendUnique([], r.primary), r.fallbacks);
  }

  method BuildRouteCandidates(r: Route) returns (candidates: seq<string>)
    ensures candidates == Candidates(r)
  {
    candidates := AppendEach(AppendUnique([], r.primary), r.fallbacks);
  }

  // ----- Failures -----

  function LastOf(routes: seq<string>): string {
    if routes == [] then "" else routes[|routes| - 1]
  }

  function Failure(code: ResultCode, category: FailureCategory, attempted: seq<string>,
                   disposition: Option<Disposition>, safeToReplan: bool)
    : ManagerResult
  {
    ManagerResult(Some(code), None, Some(MakeError(code, false, safeToReplan)), LastOf(attempted), attempted,
                  Some(category), disposition, false)
  }

  function Plain(code: ResultCode, category: FailureCategory): ManagerResult {
    Failure(code, category, [], None, false)
  }

  /** Gaps of a passed-on error are filled; its domain is kept even when it contradicts the code. */
  function FilledError(error: ErrorInfo, code: ResultCode): ErrorInfo {
    ErrorInfo(Some(error.failureType.GetOr(Classify(code))), Some(error.retryable.GetOr(false)),
              Some(error.safeToReplan.GetOr(false)))
  }

  function FailureFromError(error: ErrorInfo, code: ResultCode, category: FailureCategory, attempted: seq<string>)
    : ManagerResult
  {
    ManagerResult(Some(code), None, Some(FilledError(error, code)), LastOf(attempted), attempted, Some(category), None,
                  false)
  }

  function Elevate(failure: ManagerResult): ManagerResult {
    if failure.code.None? || failure.error.None? || |failure.attemptedRoutes| < 2 then failure
    else failure.(category := Some(FallbackExhausted), resolvedRoute := LastOf(failure.attemptedRoutes))
  }

  // ----- Before routing -----

  function PipelineFailure(p: Pipeline): ManagerResult {
    if !p.hasRelease then Plain(VALIDATION_FIELD_MISSING, PromptAsset)
    else Failure(POLICY_DENIED, PromptGovernance, [], Some(p.disposition), ReplanDisposition(p.disposition))
  }

  predicate Present(s: Option<string>) {
    s.GetOr("") != ""
  }

  function RequestFault(w: World, r: Request): Option<ManagerResult> {
    if r.stage == "" then Some(Plain(VALIDATION_FIELD_MISSING, Routing))
    else if !Present(r.requestId) || !Present(r.callId) || !r.hasMessages then
      Some(Plain(VALIDATION_FIELD_MISSING, PromptAsset))
    else if !Present(r.modelRoute) then Some(Plain(VALIDATION_FIELD_MISSING, Routing))
    else if !w.stageConfigured then Some(Plain(RUNTIME_RETRY_EXHAUSTED, Routing))
    else None
  }

  predicate PipelineAllows(p: Pipeline) {
    p.disposition == Allow && p.hasComposed && p.hasGovernedMessages
  }

  /** The call request was composed and governed, and then failed its own validation. */
  predicate CallRejected(w: World, r: Request) {
    w.initialized && RequestFault(w, r).None? && w.composeValid && PipelineAllows(w.pipeline) && !w.callValid
  }

  function EarlyFailure(w: World, r: Request): (failure: Option<ManagerResult>)
    ensures failure.None? ==> w.route.Some?
  {
    if !w.initialized then Some(Plain(RUNTIME_RETRY_EXHAUSTED, AdapterTransport))
    else if RequestFault(w, r).Some? then RequestFault(w, r)
    else if !w.composeValid then Some(Plain(VALIDATION_FIELD_MISSING, PromptAsset))
    else if !PipelineAllows(w.pipeline) then Some(PipelineFailure(w.pipeline))
    else if !w.callValid then Some(Plain(VALIDATION_FIELD_MISSING, PromptGovernance))
    else if !w.catalogAvailable then Some(Plain(VALIDATION_FIELD_MISSING, Routing))
    else if w.route.None? then Some(Plain(RUNTIME_RETRY_EXHAUSTED, Routing))
    else if Candidates(w.route.value) == [] then Some(Plain(RUNTIME_RETRY_EXHAUSTED, Routing))
    else None
  }

  // ----- One candidate -----

  /** A candidate either answers or leaves a failure that names the routes attempted so far. */
  datatype Visit = Answer(response: Response) | Failed(failure: ManagerResult)

  function Visited(stop: Stop, execution: ExecutionResult, attempted: seq<string>): Visit {
    if !ConsistentExecution(execution) then
      Failed(Failure(RUNTIME_RETRY_EXHAUSTED, AdapterTransport, attempted, None, false))
    else if !Succeeded(execution) then
      var code := execution.code.GetOr(RUNTIME_RETRY_EXHAUSTED);
      Failed(FailureFromError(execution.error.GetOr(MakeError(code, false, false)), code, AdapterTransport, attempted))
    else if !stop.routeKept then Failed(Failure(RUNTIME_RETRY_EXHAUSTED, Routing, attempted, None, false))
    else if !stop.modelKnown then Failed(Failure(VALIDATION_FIELD_MISSING, Routing, attempted, None, false))
    else
      var n := stop.normalization;
      if !ConsistentNormalization(n) || n.response.None? then
        var code := n.code.GetOr(VALIDATION_FIELD_MISSING);
        Failed(FailureFromError(n.error.GetOr(MakeError(code, false, false)), code, ProviderProtocol, attempted))
      else Answer(n.response.value)
  }

  function ExecutionAt(w: World, r: Request, routes: seq<string>, i: nat): CallExecutor.Execution
    requires i < |routes|
  {
    CallExecutor.Execute(w.config, routes[i], r.timeoutMs, w.stops(i).tape)
  }

  function VisitAt(w: World, r: Request, routes: seq<string>, i: nat): Visit
    requires i < |routes|
  {
    Visited(w.stops(i), ExecutionAt(w, r, routes, i).result, routes[..i + 1])
  }

  function SuccessResult(response: Response, attempted: seq<string>): ManagerResult {
    ManagerResult(None, Some(response), None, LastOf(attempted), attempted, None, None, |attempted| > 1)
  }

  /** The failure of the last candidate, raised to an exhausted fallback when there were several, and checked. */
  function ChainFailure(last: ManagerResult, attempted: seq<string>): ManagerResult {
    var failure := if |attempted| >= 2 then Elevate(last) else last;
    if ConsistentResult(failure) then failure
    else Failure(RUNTIME_RETRY_EXHAUSTED, if |attempted| >= 2 then FallbackExhausted else AdapterTransport, attempted,
                 None, false)
  }

  /** What each candidate comes to. */
  type Visits = nat -> Visit

  function VisitsOf(w: World, r: Request, routes: seq<string>): Visits {
    (i: nat) => if i < |routes| then VisitAt(w, r, routes, i) else Answer("")
  }

  /** The first of `n` candidates, from `i` on, that answers, or the last one. */
  function StopsAt(visits: Visits, n: nat, i: nat): (k: nat)
    requires i < n
    ensures i <= k < n
    ensures forall j :: i <= j < k ==> visits(j).Failed?
    ensures k + 1 < n ==> visits(k).Answer?
    decreases n - i
  {
    if visits(i).Answer? || i + 1 == n then i else StopsAt(visits, n, i + 1)
  }

  function ChainResult(visits: Visits, routes: seq<string>, k: nat): ManagerResult
    requires k < |routes|
  {
    match visits(k)
    case Answer(response) => SuccessResult(response, routes[..k + 1])
    case Failed(failure) => ChainFailure(failure, routes[..k + 1])
  }

  function Generate(w: World, r: Request): ManagerResult {
    var early := EarlyFailure(w, r);
    if early.Some? then early.value
    else
      var routes := Candidates(w.route.value);
      var visits := VisitsOf(w, r, routes);
      ChainResult(visits, routes, StopsAt(visits, |routes|, 0))
  }

  // ----- What every result meets -----

  lemma EarlyConsistent(w: World, r: Request)
    requires EarlyFailure(w, r).Some?
    ensures ConsistentResult(EarlyFailure(w, r).value) <==> !CallRejected(w, r)
  {
  }

  lemma SuccessConsistent(response: Response, attempted: seq<string>)
    requires attempted != [] && Clean(attempted)
    ensures ConsistentResult(SuccessResult(response, attempted))
  {
  }

  lemma ChainFailureConsistent(last: ManagerResult, attempted: seq<string>)
    requires attempted != [] && Clean(attempted)
    ensures ConsistentResult(ChainFailure(last, attempted))
  {
    assert LastOf(attempted) != "";
  }

  lemma CleanPrefix(routes: seq<string>, n: nat)
    requires Clean(routes) && n <= |routes|
    ensures Clean(routes[..n])
  {
  }

  lemma ChainConsistent(visits: Visits, routes: seq<string>, k: nat)
    requires k < |routes| && Clean(routes)
    ensures ConsistentResult(ChainResult(visits, routes, k))
  {
    CleanPrefix(routes, k + 1);
    match visits(k)
    case Answer(response) => SuccessConsistent(response, routes[..k + 1]);
    case Failed(failure) => ChainFailureConsistent(failure, routes[..k + 1]);
  }

  /** Every result is consistent, except when the governed call request itself fails validation. */
  lemma GenerateConsistent(w: World, r: Request)
    ensures ConsistentResult(Generate(w, r)) <==> !CallRejected(w, r)
  {
    if EarlyFailure(w, r).Some? {
      EarlyConsistent(w, r);
    } else {
      var routes := Candidates(w.route.value);
      CandidatesClean(w.route.value);
      var visits := VisitsOf(w, r, routes);
      ChainConsistent(visits, routes, StopsAt(visits, |routes|, 0));
    }
  }

  const SILENT_STOP := Stop(k => CallExecutor.Attempt(CallExecutor.Missing, false,
                                                      AdapterResult(None, None, None, None, true), 0, false),
                            false, false, Normalization(None, None, None, None))

  const REJECTING_WORLD := World(true, true, true, Pipeline(Allow, true, true, true), false, true, None,
                                 CallExecutor.Config(true, 0, 1), n => SILENT_STOP)

  const PLAIN_REQUEST := Request("plan", Some("r"), Some("c"), true, Some("m"), None)

  /** The failing case: a request whose governed call is rejected ends in an inconsistent result. */
  lemma RejectedCallIsInconsistent()
    ensures CallRejected(REJECTING_WORLD, PLAIN_REQUEST)
            && !ConsistentResult(Generate(REJECTING_WORLD, PLAIN_REQUEST))
  {
    GenerateConsistent(REJECTING_WORLD, PLAIN_REQUEST);
  }

  // ----- The chain -----

  /** A failed candidate leaves a plain failure that names the routes attempted so far. */
  predicate PlainFailure(f: ManagerResult, attempted: seq<string>) {
    f.attemptedRoutes == attempted && f.response.None? && f.code.Some? && f.error.Some?
    && !f.fallbackUsed && f.category != Some(FallbackExhausted)
  }

  ghost predicate PlainVisits(visits: Visits, routes: seq<string>) {
    forall i :: 0 <= i < |routes| && visits(i).Failed? ==> PlainFailure(visits(i).failure, routes[..i + 1])
  }

  lemma VisitsArePlain(w: World, r: Request, routes: seq<string>)
    ensures PlainVisits(VisitsOf(w, r, routes), routes)
  {
  }

  lemma ChainFailureShape(last: ManagerResult, attempted: seq<string>)
    requires PlainFailure(last, attempted) && attempted != []
    ensures var f := ChainFailure(last, attempted);
            f.response.None? && f.attemptedRoutes == attempted
            && (f.category == Some(FallbackExhausted) <==> |attempted| >= 2)
  {
  }

  lemma ChainAttempts(visits: Visits, routes: seq<string>, k: nat)
    requires k < |routes| && PlainVisits(visits, routes)
    ensures ChainResult(visits, routes, k).attemptedRoutes == routes[..k + 1]
  {
    if visits(k).Failed? {
      ChainFailureShape(visits(k).failure, routes[..k + 1]);
    }
  }

  /** The routes attempted are a duplicate-free prefix of the candidates, whatever the result. */
  lemma AttemptedIsPrefix(w: World, r: Request)
    ensures var attempted := Generate(w, r).attemptedRoutes;
            Clean(attempted)
            && (attempted != [] ==> w.route.Some? && attempted <= Candidates(w.route.value))
  {
    if EarlyFailure(w, r).None? {
      var routes := Candidates(w.route.value);
      var visits := VisitsOf(w, r, routes);
      var k := StopsAt(visits, |routes|, 0);
      CandidatesClean(w.route.value);
      CleanPrefix(routes, k + 1);
      VisitsArePlain(w, r, routes);
      ChainAttempts(visits, routes, k);
    } else {
      EarlyAttemptsNothing(w, r);
    }
  }

  lemma EarlyAttemptsNothing(w: World, r: Request)
    requires EarlyFailure(w, r).Some?
    ensures EarlyFailure(w, r).value.attemptedRoutes == []
  {
  }

  /**
   A response comes exactly from the first candidate that answers: it is the resolved and
   last attempted route, all before it failed, and a fallback is reported when there were any.
   */
  lemma FirstAnswerWins(w: World, r: Request, k: nat)
    requires EarlyFailure(w, r).None? && k < |Candidates(w.route.value)|
    requires var visits := VisitsOf(w, r, Candidates(w.route.value));
             visits(k).Answer? && forall j :: 0 <= j < k ==> visits(j).Failed?
    ensures var routes, result := Candidates(w.route.value), Generate(w, r);
            result.response == Some(VisitsOf(w, r, routes)(k).response)
            && result.resolvedRoute == routes[k] && result.attemptedRoutes == routes[..k + 1]
            && (result.fallbackUsed <==> k > 0)
  {
    var routes := Candidates(w.route.value);
    StopsUnique(VisitsOf(w, r, routes), |routes|, 0, k);
  }

  lemma {:induction false} StopsUnique(visits: Visits, n: nat, i: nat, k: nat)
    requires i <= k < n && forall j :: i <= j < k ==> visits(j).Failed?
    requires visits(k).Answer? || k + 1 == n
    ensures StopsAt(visits, n, i) == k
    decreases k - i
  {
    if i < k {
      StopsUnique(visits, n, i + 1, k);
    }
  }

  lemma ChainKind(visits: Visits, routes: seq<string>, k: nat)
    requires k < |routes| && PlainVisits(visits, routes)
    ensures var result := ChainResult(visits, routes, k);
            (result.response.None? <==> visits(k).Failed?)
            && (result.response.None? ==> (result.category == Some(FallbackExhausted) <==> k > 0))
  {
    if visits(k).Failed? {
      ChainFailureShape(visits(k).failure, routes[..k + 1]);
    }
  }

  lemma AllFailed(visits: Visits, n: nat)
    requires n > 0
    ensures visits(StopsAt(visits, n, 0)).Failed? <==> forall j :: 0 <= j < n ==> visits(j).Failed?
    ensures visits(StopsAt(visits, n, 0)).Failed? ==> StopsAt(visits, n, 0) == n - 1
  {
  }

  /** A failure after routing means that every candidate was attempted and failed. */
  lemma FailureTriesAll(w: World, r: Request)
    requires EarlyFailure(w, r).None?
    ensures var routes, result := Candidates(w.route.value), Generate(w, r);
            (result.response.None? <==> forall j :: 0 <= j < |routes| ==> VisitsOf(w, r, routes)(j).Failed?)
            && (result.response.None? ==> result.attemptedRoutes == routes)
            && (result.response.None? ==> (result.category == Some(FallbackExhausted) <==> |routes| >= 2))
  {
    var routes := Candidates(w.route.value);
    var visits := VisitsOf(w, r, routes);
    var k := StopsAt(visits, |routes|, 0);
    VisitsArePlain(w, r, routes);
    ChainKind(visits, routes, k);
    ChainAttempts(visits, routes, k);
    AllFailed(visits, |routes|);
    assert routes[..|routes|] == routes;
  }

  // ----- The result, read off the world alone -----

  predicate NotEmpty(s: Option<string>) {
    s.Some? && s.value != ""
  }

  /** The request names its stage, ids, messages and route, and the stage is configured. */
  predicate WellAsked(w: World, r: Request) {
    w.initialized && r.stage != "" && NotEmpty(r.requestId) && NotEmpty(r.callId) && r.hasMessages
    && NotEmpty(r.modelRoute)
    && w.stageConfigured
  }

  /** The prompt was composed, governed and allowed. */
  predicate Allowed(p: Pipeline) {
    p.disposition.Allow? && p.hasComposed && p.hasGovernedMessages
  }

  /** Nothing stops the request before the first candidate, and there is one. */
  ghost predicate Admissible(w: World, r: Request) {
    WellAsked(w, r) && w.composeValid && Allowed(w.pipeline) && w.callValid && w.catalogAvailable
    && w.route.Some? && exists v :: v != "" && (v == w.route.value.primary || v in w.route.value.fallbacks)
  }

  lemma SomeCandidate(route: Route)
    ensures Candidates(route) != [] <==> exists v :: v != "" && (v == route.primary || v in route.fallbacks)
  {
    var routes := Candidates(route);
    CandidatesClean(route);
    if routes != [] {
      assert routes[0] in routes;
    }
    if v :| v != "" && (v == route.primary || v in route.fallbacks) {
      assert v in routes;
    }
  }

  lemma EarlyNone(w: World, r: Request)
    ensures EarlyFailure(w, r).None? <==>
              WellAsked(w, r) && w.composeValid && Allowed(w.pipeline) && w.callValid && w.catalogAvailable
              && w.route.Some? && Candidates(w.route.value) != []
  {
  }

  lemma AdmissibleExactly(w: World, r: Request)
    ensures EarlyFailure(w, r).None? <==> Admissible(w, r)
  {
    EarlyNone(w, r);
    if w.route.Some? {
      SomeCandidate(w.route.value);
    }
  }

  /** Why nothing was attempted, in terms of code and category. */
  lemma EarlyExactly(w: World, r: Request)
    requires !Admissible(w, r)
    ensures var x := Generate(w, r);
            var governed := WellAsked(w, r) && w.composeValid;
            var denied := governed && !Allowed(w.pipeline) && w.pipeline.hasRelease;
            var asked := w.initialized && r.stage != "" && NotEmpty(r.requestId) && NotEmpty(r.callId) && r.hasMessages;
            x.response.None? && x.attemptedRoutes == [] && x.resolvedRoute == "" && !x.fallbackUsed
            && x.code.Some? && x.error.Some? && x.error.value.failureType == Some(Classify(x.code.value))
            && x.error.value.retryable == Some(false)
            && (x.error.value.safeToReplan == Some(true) <==>
                  denied && (w.pipeline.disposition.OverBudget? || w.pipeline.disposition.RequireRecompose?))
            && x.disposition == (if denied then Some(w.pipeline.disposition) else None)
            && (x.code == Some(POLICY_DENIED) <==> denied)
            && (x.code == Some(RUNTIME_RETRY_EXHAUSTED) <==>
                  !w.initialized || (asked && NotEmpty(r.modelRoute) && !w.stageConfigured)
                  || (governed && Allowed(w.pipeline) && w.callValid && w.catalogAvailable))
            && (x.code == Some(VALIDATION_FIELD_MISSING) <==>
                  x.code != Some(POLICY_DENIED) && x.code != Some(RUNTIME_RETRY_EXHAUSTED))
            && (x.category == Some(AdapterTransport) <==> !w.initialized)
            && (x.category == Some(PromptGovernance) <==> denied || (governed && Allowed(w.pipeline) && !w.callValid))
            && (x.category == Some(PromptAsset) <==>
                  (w.initialized && r.stage != "" && !asked)
                  || (WellAsked(w, r) && (!w.composeValid || (!Allowed(w.pipeline) && !w.pipeline.hasRelease))))
            && (x.category == Some(Routing) <==>
                  x.category != Some(AdapterTransport) && x.category != Some(PromptGovernance)
                  && x.category != Some(PromptAsset))
  {
    AdmissibleExactly(w, r);
  }

  /** A call that came back with a response, and is reported as such. */
  predicate GoodExecution(e: ExecutionResult) {
    e.adapterResult.Some? && CallExecutor.GoodReply(e.adapterResult.value) && e.adapterResult.value.response.Some?
    && e.attemptsStarted > 0 && e.routeKey != "" && e.error.None? && e.code.None? && e.reason.None?
  }

  /** The last attempt answers in time, with a reply that is one, and the 32-bit call counter is not zero after it. */
  ghost predicate TapeAnswers(c: CallExecutor.Config, requested: Option<nat>, tape: CallExecutor.Tape) {
    c.initialized
    && exists k: nat :: CallExecutor.IsLast(c, requested, tape, k) && tape(k).route.Ready? && tape(k).permitted
                   && !CallExecutor.CallFails(tape(k), CallExecutor.EffectiveTimeout(c.timeoutMs, requested))
                   && (k + 1) % TWO32 != 0
  }

  /** A candidate's execution is good exactly when its attempts end in an answer. */
  lemma GoodExecutionExactly(c: CallExecutor.Config, route: string, requested: Option<nat>, tape: CallExecutor.Tape)
    ensures GoodExecution(CallExecutor.Execute(c, route, requested, tape).result) <==>
              route != "" && TapeAnswers(c, requested, tape)
  {
    CallExecutor.OneLast(c, requested, tape);
    var k: nat :| CallExecutor.IsLast(c, requested, tape, k);
    CallExecutor.ReasonsExactly(c, route, requested, tape, k);
    if c.initialized {
      CallExecutor.CallsExactly(c, route, requested, tape, k);
      forall l: nat | CallExecutor.IsLast(c, requested, tape, l) ensures l == k {
        CallExecutor.NoneAfter(c, requested, tape, k, l);
        CallExecutor.NoneAfter(c, requested, tape, l, k);
      }
    }
  }

  /** The normalizer returned the response, and nothing that contradicts it. */
  predicate Normalized(n: Normalization, x: Response) {
    n.response == Some(x) && n.error.None? && n.code.None? && n.usage != Some(false)
  }

  predicate Rejects(n: Normalization) {
    n.response.None? || n.error.Some? || n.code.Some? || n.usage == Some(false)
  }

  /** Candidate `k` delivers `x`: executed, still routed and known, and normalized. */
  predicate Delivers(w: World, r: Request, k: nat, x: Response) {
    w.route.Some? && k < |Candidates(w.route.value)|
    && GoodExecution(ExecutionAt(w, r, Candidates(w.route.value), k).result)
    && w.stops(k).routeKept && w.stops(k).modelKnown && Normalized(w.stops(k).normalization, x)
  }

  /** No candidate before `k` delivers anything. */
  ghost predicate NoneBefore(w: World, r: Request, k: nat) {
    forall j: nat, x :: j < k ==> !Delivers(w, r, j, x)
  }

  lemma GoodExecutionIs(e: ExecutionResult)
    ensures GoodExecution(e) <==> ConsistentExecution(e) && Succeeded(e)
  {
  }

  lemma VisitDelivers(w: World, r: Request, k: nat)
    requires w.route.Some? && k < |Candidates(w.route.value)|
    ensures var visit := VisitsOf(w, r, Candidates(w.route.value))(k);
            (visit.Answer? <==> exists x :: Delivers(w, r, k, x))
            && (visit.Answer? ==> Delivers(w, r, k, visit.response))
            && forall x :: Delivers(w, r, k, x) ==> visit == Answer(x)
  {
    var e := ExecutionAt(w, r, Candidates(w.route.value), k).result;
    GoodExecutionIs(e);
    var visit := VisitsOf(w, r, Candidates(w.route.value))(k);
    if visit.Answer? {
      assert Delivers(w, r, k, visit.response);
    }
    forall x | Delivers(w, r, k, x) ensures visit == Answer(x) {
      assert w.stops(k).normalization.response == Some(x);
    }
  }

  lemma NoneBeforeFails(w: World, r: Request, k: nat)
    requires w.route.Some? && k <= |Candidates(w.route.value)|
    ensures NoneBefore(w, r, k) <==> forall j :: 0 <= j < k ==> VisitsOf(w, r, Candidates(w.route.value))(j).Failed?
  {
    var visits := VisitsOf(w, r, Candidates(w.route.value));
    forall j: nat, x | j < k && Delivers(w, r, j, x) ensures visits(j).Answer? {
      VisitDelivers(w, r, j);
    }
    forall j | 0 <= j < k ensures visits(j).Answer? ==> Delivers(w, r, j, visits(j).response) {
      VisitDelivers(w, r, j);
    }
    if j :| 0 <= j < k && visits(j).Answer? {
      assert Delivers(w, r, j, visits(j).response);
    }
  }

  /** What the first candidate that delivers anything delivers is the response, from its route. */
  lemma DeliveredFrom(w: World, r: Request, k: nat, x: Response)
    requires Admissible(w, r) && Delivers(w, r, k, x) && NoneBefore(w, r, k)
    ensures var routes, result := Candidates(w.route.value), Generate(w, r);
            result == ManagerResult(None, Some(x), None, routes[k], routes[..k + 1], None, None, k > 0)
  {
    AdmissibleExactly(w, r);
    VisitDelivers(w, r, k);
    NoneBeforeFails(w, r, k);
    var routes := Candidates(w.route.value);
    StopsUnique(VisitsOf(w, r, routes), |routes|, 0, k);
  }

  /**
   A response is returned exactly when nothing stops the request and it is what the first
   delivering candidate delivers.
   */
  lemma ResponseExactly(w: World, r: Request, x: Response)
    ensures Generate(w, r).response == Some(x) <==>
              Admissible(w, r) && exists k: nat :: Delivers(w, r, k, x) && NoneBefore(w, r, k)
  {
    AdmissibleExactly(w, r);
    if Admissible(w, r) {
      if k: nat :| Delivers(w, r, k, x) && NoneBefore(w, r, k) {
        DeliveredFrom(w, r, k, x);
      }
      if Generate(w, r).response == Some(x) {
        var routes := Candidates(w.route.value);
        var visits := VisitsOf(w, r, routes);
        var k := StopsAt(visits, |routes|, 0);
        VisitsArePlain(w, r, routes);
        ChainKind(visits, routes, k);
        VisitDelivers(w, r, k);
        NoneBeforeFails(w, r, k);
        assert Delivers(w, r, k, x) && NoneBefore(w, r, k);
      }
    } else {
      EarlyExactly(w, r);
    }
  }

  /** The error of a normalizer that rejects contradicts its code; such a failure is replaced. */
  predicate Contradicts(n: Normalization) {
    n.error.Some? && n.error.value.failureType.Some?
    && n.error.value.failureType.value != Classify(n.code.GetOr(VALIDATION_FIELD_MISSING))
  }

  /** The error of the executor or of the normalizer, when it is passed on. */
  function PassedOn(stop: Stop, e: ExecutionResult): Option<ErrorInfo> {
    if GoodExecution(e) then
      if stop.routeKept && stop.modelKnown && !Contradicts(stop.normalization) then stop.normalization.error else None
    else if e.reason.Some? && (e.adapterResult.None? || CallExecutor.GoodReply(e.adapterResult.value)) then e.error
    else None
  }

  /** A passed-on error keeps what it says; what it leaves open is no, and the domain of the code. */
  predicate Explains(x: ManagerResult, theirs: Option<ErrorInfo>) {
    x.error.Some? && x.code.Some?
    && x.error.value.retryable == Some(theirs.Some? && theirs.value.retryable == Some(true))
    && x.error.value.safeToReplan == Some(theirs.Some? && theirs.value.safeToReplan == Some(true))
    && x.error.value.failureType == Some(Classify(x.code.value))
  }

  /** The failure that the last candidate leaves, cause by cause. */
  ghost predicate FailsAs(stop: Stop, e: ExecutionResult, routes: seq<string>, x: ManagerResult) {
    var good, n := GoodExecution(e), stop.normalization;
    var rejected := good && stop.routeKept && stop.modelKnown;
    x.response.None? && x.attemptedRoutes == routes && !x.fallbackUsed && x.disposition.None?
    && (rejected ==> Rejects(n))
    && x.code == (if good && !stop.routeKept then Some(RUNTIME_RETRY_EXHAUSTED)
                  else if good && !stop.modelKnown then Some(VALIDATION_FIELD_MISSING)
                  else if rejected && !Contradicts(n) then Some(n.code.GetOr(VALIDATION_FIELD_MISSING))
                  else if !good && e.adapterResult.Some? && !CallExecutor.GoodReply(e.adapterResult.value) then
                    Some(RUNTIME_RETRY_EXHAUSTED)
                  else if !good && e.reason.Some? then e.code
                  else Some(RUNTIME_RETRY_EXHAUSTED))
    && (x.category == Some(FallbackExhausted) <==> |routes| >= 2)
    && (|routes| == 1 ==>
          (x.category == Some(AdapterTransport) <==> !good || (rejected && Contradicts(n)))
          && (x.category == Some(Routing) <==> good && !(stop.routeKept && stop.modelKnown))
          && (x.category == Some(ProviderProtocol) <==> rejected && !Contradicts(n)))
  }

  /** What an execution of the retry loop looks like when it is no good one. */
  predicate FailedExecution(e: ExecutionResult) {
    !GoodExecution(e) && (e.reason.Some? ==> e.code.Some? && e.error.Some? && Matches(e.error.value, e.code.value))
    && (e.reason.Some? && Succeeded(e) ==> !CallExecutor.GoodReply(e.adapterResult.value))
  }

  lemma VisitedCauses(stop: Stop, e: ExecutionResult, routes: seq<string>)
    requires routes != [] && Clean(routes) && Visited(stop, e, routes).Failed?
    requires GoodExecution(e) || FailedExecution(e)
    ensures FailsAs(stop, e, routes, ChainFailure(Visited(stop, e, routes).failure, routes))
  {
    GoodExecutionIs(e);
    assert LastOf(routes) != "";
  }

  lemma SaysYes(o: Option<bool>)
    ensures o.GetOr(false) <==> o == Some(true)
  {
  }

  lemma VisitedExplains(stop: Stop, e: ExecutionResult, routes: seq<string>)
    requires routes != [] && Clean(routes) && Visited(stop, e, routes).Failed?
    requires GoodExecution(e) || FailedExecution(e)
    ensures Explains(ChainFailure(Visited(stop, e, routes).failure, routes), PassedOn(stop, e))
  {
    GoodExecutionIs(e);
    assert LastOf(routes) != "";
    var f, theirs := Visited(stop, e, routes).failure, PassedOn(stop, e);
    if theirs.Some? {
      SaysYes(theirs.value.retryable);
      SaysYes(theirs.value.safeToReplan);
    }
    if GoodExecution(e) && stop.routeKept && stop.modelKnown {
      assert Matches(f.error.value, f.code.value) <==> !Contradicts(stop.normalization);
    } else {
      assert Matches(f.error.value, f.code.value);
    }
  }

  lemma ExecutionKinds(c: CallExecutor.Config, route: string, requested: Option<nat>, tape: CallExecutor.Tape)
    ensures var e := CallExecutor.Execute(c, route, requested, tape).result; GoodExecution(e) || FailedExecution(e)
  {
    CallExecutor.OneLast(c, requested, tape);
    var k: nat :| CallExecutor.IsLast(c, requested, tape, k);
    var e := CallExecutor.Execute(c, route, requested, tape).result;
    CallExecutor.ReasonsExactly(c, route, requested, tape, k);
    if e.reason.Some? {
      CallExecutor.FailureCarries(c, route, requested, tape, k);
    }
    if c.initialized {
      CallExecutor.CallsExactly(c, route, requested, tape, k);
    }
  }

  /** When no candidate delivers anything, all are attempted and the failure is the one the last of them leaves. */
  lemma FailureExactly(w: World, r: Request)
    requires Admissible(w, r) && NoneBefore(w, r, |Candidates(w.route.value)|)
    ensures var routes := Candidates(w.route.value);
            var k := |routes| - 1;
            var x := Generate(w, r);
            k >= 0 && FailsAs(w.stops(k), ExecutionAt(w, r, routes, k).result, routes, x)
            && Explains(x, PassedOn(w.stops(k), ExecutionAt(w, r, routes, k).result))
  {
    AdmissibleExactly(w, r);
    var routes := Candidates(w.route.value);
    var k := |routes| - 1;
    CandidatesClean(w.route.value);
    NoneBeforeFails(w, r, |routes|);
    var visits, e := VisitsOf(w, r, routes), ExecutionAt(w, r, routes, k).result;
    StopsUnique(visits, |routes|, 0, k);
    ExecutionKinds(w.config, routes[k], r.timeoutMs, w.stops(k).tape);
    assert routes[..k + 1] == routes;
    assert visits(k) == Visited(w.stops(k), e, routes) && visits(k).Failed?;
    VisitedCauses(w.stops(k), e, routes);
    VisitedExplains(w.stops(k), e, routes);
    assert Generate(w, r) == ChainFailure(Visited(w.stops(k), e, routes).failure, routes);
  }

  // ----- Adapter calls -----

  /** The adapter calls made at the first `n` candidates. */
  function CallsMade(w: World, r: Request, routes: seq<string>, n: nat): nat
    requires n <= |routes|
  {
    if n == 0 then 0 else CallsMade(w, r, routes, n - 1) + ExecutionAt(w, r, routes, n - 1).calls
  }

  lemma {:induction false} CallsWithinBudget(w: World, r: Request, routes: seq<string>, n: nat)
    requires n <= |routes|
    ensures CallsMade(w, r, routes, n) <= n * (w.config.retryBudget + 1)
  {
    if n > 0 {
      CallsWithinBudget(w, r, routes, n - 1);
      CallExecutor.CallsBounded(w.config, routes[n - 1], r.timeoutMs, w.stops(n - 1).tape);
      OneMore(n, w.config.retryBudget + 1);
    }
  }

  lemma OneMore(n: nat, each: nat)
    requires n > 0
    ensures n * each == (n - 1) * each + each
  {
  }

  // ----- The loop -----

  /** One candidate, by way of the executor's loop. */
  method VisitRoute(w: World, r: Request, routes: seq<string>, i: nat, attempted: seq<string>)
    returns (visit: Visit, ghost calls: nat)
    requires i < |routes| && attempted == routes[..i + 1] && w.config.retryBudget < TWO32
    ensures visit == VisitsOf(w, r, routes)(i) && calls == ExecutionAt(w, r, routes, i).calls
  {
    var execution: ExecutionResult;
    execution, calls := CallExecutor.ExecuteUnary(w.config, routes[i], r.timeoutMs, w.stops(i).tape);
    assert CallExecutor.Execution(execution, calls) == ExecutionAt(w, r, routes, i);
    visit := Visited(w.stops(i), execution, attempted);
  }

  /** What the caller gets from the first answer; the check that it is consistent never fails. */
  method Conclude(response: Response, attempted: seq<string>) returns (result: ManagerResult)
    requires attempted != [] && Clean(attempted)
    ensures ConsistentResult(result) && result == SuccessResult(response, attempted)
  {
    result := SuccessResult(response, attempted);
    SuccessConsistent(response, attempted);
    if !ConsistentResult(result) {
      assert false;
    }
  }

  /** Of `n` candidates the first `i` were visited, `last` was the latest, and none before it answered. */
  ghost predicate Walking(visits: Visits, n: nat, i: nat, last: Option<Visit>) {
    i <= n
    && (i == 0 ==> last.None?)
    && (i > 0 ==> last == Some(visits(i - 1)) && StopsAt(visits, n, 0) == StopsAt(visits, n, i - 1))
  }

  predicate Answered(last: Option<Visit>) {
    last.Some? && last.value.Answer?
  }

  lemma WalkOn(visits: Visits, n: nat, i: nat, last: Option<Visit>, next: nat, visit: Visit)
    requires i < n && next == i + 1 && visit == visits(i) && Walking(visits, n, i, last) && !Answered(last)
    ensures Walking(visits, n, next, Some(visit))
  {
  }

  lemma WalkEnds(visits: Visits, n: nat, i: nat, last: Option<Visit>)
    requires Walking(visits, n, i, last) && (i == n || Answered(last))
    ensures n > 0 ==> i == StopsAt(visits, n, 0) + 1 && last == Some(visits(i - 1))
  {
  }

  /** The route is attempted and counted, with its adapter calls. */
  method AttemptRoute(w: World, r: Request, routes: seq<string>, i: nat, ghost next: nat, attempted: seq<string>,
                      ghost calls: nat)
    returns (visit: Visit, attempted': seq<string>, ghost calls': nat)
    requires next == i + 1 <= |routes| && attempted == routes[..i] && w.config.retryBudget < TWO32
    requires calls == CallsMade(w, r, routes, i)
    ensures visit == VisitsOf(w, r, routes)(i)
    ensures attempted' == routes[..next] && calls' == CallsMade(w, r, routes, next)
  {
    attempted' := attempted + [routes[i]];
    assert attempted' == routes[..i + 1];
    ghost var made: nat;
    visit, made := VisitRoute(w, r, routes, i, attempted');
    calls' := calls + made;
  }

  /**
   Candidate after candidate, up to the first answer; without one there is a last failure.
   `calls` counts the adapter calls.
   */
  method WalkRoutes(w: World, r: Request, routes: seq<string>, ghost visits: Visits)
    returns (last: Option<Visit>, attempted: seq<string>, ghost calls: nat)
    requires w.config.retryBudget < TWO32 && visits == VisitsOf(w, r, routes)
    ensures attempted <= routes
    ensures routes != [] ==> |attempted| == StopsAt(visits, |routes|, 0) + 1 && last == Some(visits(|attempted| - 1))
    ensures |attempted| <= |routes| && calls == CallsMade(w, r, routes, |attempted|)
  {
    attempted, last, calls := [], None, 0;
    ghost var n := 0;
    while |attempted| < |routes| && !Answered(last)
      invariant n == |attempted| <= |routes| && attempted == routes[..n] && calls == CallsMade(w, r, routes, n)
      invariant Walking(visits, |routes|, n, last)
      decreases |routes| - |attempted|
    {
      ghost var next := n + 1;
      var visit;
      visit, attempted, calls := AttemptRoute(w, r, routes, |attempted|, next, attempted, calls);
      WalkOn(visits, |routes|, n, last, next, visit);
      last, n := Some(visit), next;
    }
    WalkEnds(visits, |routes|, n, last);
  }

  method RunChain(w: World, r: Request, routes: seq<string>, ghost visits: Visits)
    returns (result: ManagerResult, ghost calls: nat)
    requires routes != [] && Clean(routes) && w.config.retryBudget < TWO32
    requires visits == VisitsOf(w, r, routes)
    ensures var k := StopsAt(visits, |routes|, 0);
            result == ChainResult(visits, routes, k) && calls == CallsMade(w, r, routes, k + 1)
  {
    var last: Option<Visit>, attempted: seq<string>;
    last, attempted, calls := WalkRoutes(w, r, routes, visits);
    CleanPrefix(routes, |attempted|);
    assert attempted == routes[..|attempted|];
    match last.value
    case Answer(response) => result := Conclude(response, attempted);
    case Failed(failure) => result := ChainFailure(failure, attempted);
  }

  /** At most one adapter call more than the budget for every route attempted. */
  method GenerateUnary(w: World, r: Request) returns (result: ManagerResult, ghost calls: nat)
    requires w.config.retryBudget < TWO32
    ensures result == Generate(w, r)
    ensures calls <= |result.attemptedRoutes| * (w.config.retryBudget + 1)
  {
    calls := 0;
    var early := EarlyFailure(w, r);
    if early.Some? {
      return early.value, 0;
    }
    var routes := BuildRouteCandidates(w.route.value);
    CandidatesClean(w.route.value);
    ghost var visits := VisitsOf(w, r, routes);
    result, calls := RunChain(w, r, routes, visits);
    ghost var k := StopsAt(visits, |routes|, 0);
    VisitsArePlain(w, r, routes);
    ChainAttempts(visits, routes, k);
    CallsWithinBudget(w, r, routes, k + 1);
  }
}
