/** Results and errors of the LLM layer, and the consistency predicates they should meet. */
module LLMResults {
  import opened Wrappers

  datatype Category = Validation | Policy | Tool | Provider | Runtime | Unknown

  /** Result codes are numbers; the thousands name the failure domain. */
  type ResultCode = int

  const VALIDATION_FIELD_MISSING: ResultCode := 1001
  const POLICY_DENIED: ResultCode := 2001
  const PROVIDER_TIMEOUT: ResultCode := 4001
  const RUNTIME_RETRY_EXHAUSTED: ResultCode := 5001

  function Classify(code: ResultCode): Category {
    if 1000 <= code <= 1999 then Validation
    else if 2000 <= code <= 2999 then Policy
    else if 3000 <= code <= 3999 then Tool
    else if 4000 <= code <= 4999 then Provider
    else if 5000 <= code <= 5999 then Runtime
    else Unknown
  }

  datatype ErrorInfo = ErrorInfo(failureType: Option<Category>, retryable: Option<bool>, safeToReplan: Option<bool>)

  function MakeError(code: ResultCode, retryable: bool, safeToReplan: bool): ErrorInfo {
    ErrorInfo(Some(Classify(code)), Some(retryable), Some(safeToReplan))
  }

  /** The error names the domain of the code, or none. */
  predicate Matches(error: ErrorInfo, code: ResultCode) {
    error.failureType.Some? ==> error.failureType.value == Classify(code)
  }

  type Response = string

  /** `usage` says whether the usage fragment, when there is one, adds up. */
  datatype AdapterResult = AdapterResult(
    response: Option<Response>,
    error: Option<ErrorInfo>,
    code: Option<ResultCode>,
    usage: Option<bool>,
    diagnosticsConsistent: bool
  )

  predicate ConsistentAdapter(r: AdapterResult) {
    r.response.Some? != r.error.Some?
    && r.error.Some? == r.code.Some?
    && (r.usage.Some? ==> r.response.Some? && r.usage.value)
    && r.diagnosticsConsistent
  }

  datatype FailureReason =
    NotInitialized | RouteUnavailable | RouteBlocked | ConcurrencyRejected | Timeout | AdapterFailure

  datatype ExecutionResult = ExecutionResult(
    routeKey: string,
    attemptsStarted: nat,
    adapterResult: Option<AdapterResult>,
    error: Option<ErrorInfo>,
    code: Option<ResultCode>,
    reason: Option<FailureReason>
  )

  predicate Succeeded(r: ExecutionResult) {
    r.adapterResult.Some? && r.adapterResult.value.response.Some?
  }

  predicate ConsistentExecution(r: ExecutionResult) {
    if r.adapterResult.Some? && !ConsistentAdapter(r.adapterResult.value) then false
    else if Succeeded(r) then
      r.attemptsStarted > 0 && r.error.None? && r.code.None? && r.reason.None? && r.routeKey != ""
    else r.reason.Some? && r.error.Some? && r.code.Some? && Matches(r.error.value, r.code.value)
  }

  datatype FailureCategory =
    PromptAsset | PromptGovernance | Routing | AdapterTransport | ProviderProtocol | FallbackExhausted

  datatype Disposition = Allow | Deny | OverBudget | RequireRecompose

  datatype ManagerResult = ManagerResult(
    code: Option<ResultCode>,
    response: Option<Response>,
    error: Option<ErrorInfo>,
    resolvedRoute: string,
    attemptedRoutes: seq<string>,
    category: Option<FailureCategory>,
    disposition: Option<Disposition>,
    fallbackUsed: bool
  )

  predicate ReplanDisposition(d: Disposition) {
    d == OverBudget || d == RequireRecompose
  }

  /** Either a response or a complete failure; the routes, the category and the disposition fit together. */
  predicate ConsistentResult(r: ManagerResult) {
    var n := |r.attemptedRoutes|;
    r.response.Some? != r.error.Some?
    && r.error.Some? == r.code.Some? == r.category.Some?
    && (r.disposition.Some? ==> r.category == Some(PromptGovernance))
    && (r.category == Some(PromptGovernance) ==> r.disposition.Some?)
    && (r.response.Some? ==> r.resolvedRoute != "")
    && (n > 0 ==> r.resolvedRoute != "" && r.attemptedRoutes[n - 1] == r.resolvedRoute)
    && (r.fallbackUsed ==> n >= 2)
    && (r.category == Some(FallbackExhausted) ==> n >= 2)
    && (r.error.Some? && r.code.Some? ==> Matches(r.error.value, r.code.value))
    && (r.disposition.Some? && r.error.Some? && ReplanDisposition(r.disposition.value) ==>
        r.error.value.safeToReplan == Some(true))
  }
}
