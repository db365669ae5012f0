/**
 The decision pipeline over the outcomes of its stages: what it should decide, stated
 without the diagnostics and projection flags the code writes along the way.
 */
module DecisionSpec {
  import opened Wrappers
  import opened LLMResults

  // ----- Stages the pipeline cannot see into -----

  datatype Timed<T> = TimedOut | Returned(value: T)

  type Diagnostics = seq<string>

  /** An error of an unseen part, or one the pipeline makes itself. */
  datatype Fault =
    | Theirs(text: string)
    | NoPlanFromPolicy
    | HintsMissing
    | NoPerception
    | StageTimeout(stage: Stage)
    | NoBridge(stage: Stage)
    | Unparsed(stage: Stage)
    | Unprojected(stage: Stage)

  datatype Stage = Perceiving | Planning | Executing

  datatype Check = Valid(diagnostics: Diagnostics) | Invalid(fault: Fault, diagnostics: Diagnostics)

  datatype Perception = Perception(id: nat, requiresClarification: bool, diagnostics: Diagnostics)
  datatype Plan = Plan(id: nat)
  datatype Action = Action(id: nat)

  datatype BridgeCall = BridgeCall(fault: Option<Fault>, code: Option<ResultCode>, diagnostics: Diagnostics)

  datatype Projection<T> = Projection(ok: bool, value: Option<T>, fault: Option<Fault>, diagnostics: Diagnostics)

  /** What a structured stage makes of a reply of the bridge: schema, parse, projection, invariants. */
  datatype Reading<!T> = Reading(
    schema: Check,
    parsed: bool,
    projection: Projection<T>,
    invariants: T -> Check,
    count: T -> string
  )

  datatype Limits = Limits(maxNodes: nat, maxDepth: nat)

  datatype StagePlan = StagePlan(
    perceptionLlm: bool,
    perceptionHint: bool,
    planningHint: bool,
    executionHint: bool,
    limits: Limits,
    ruleFallback: bool
  )

  /** `policy` is absent without a policy snapshot, and holds nothing when the snapshot yields no stage plan. */
  datatype World = World(
    policy: Option<Option<StagePlan>>,
    configPerceptionLlm: bool,
    configLimits: Limits,
    degradedPathAllowed: bool,
    perceive: Timed<Option<Perception>>,
    bridgePresent: bool,
    call: Stage -> Timed<BridgeCall>,
    readPerception: Reading<Perception>,
    disagree: (Perception, Perception) -> bool,
    readPlan: Reading<Plan>,
    buildPlan: Perception -> Timed<Plan>,
    checkPlan: (Plan, Limits) -> Check,
    projectAction: Projection<Action>,
    actionSchema: Check,
    actionParsed: bool,
    decide: (Perception, Plan) -> Timed<Action>,
    checkAction: (Action, Plan) -> Check,
    candidateCount: Action -> string
  )

  /** Plans and actions are judged by the same checks whether they come from the bridge or from local rules. */
  function PlanReading(w: World, s: Setup): Reading<Plan> {
    w.readPlan.(invariants := (p: Plan) => w.checkPlan(p, s.limits))
  }

  function ActionReading(w: World, plan: Plan): Reading<Action> {
    Reading(w.actionSchema, w.actionParsed, w.projectAction, (a: Action) => w.checkAction(a, plan), w.candidateCount)
  }

  // ----- What the pipeline decides -----

  datatype Clarification = PerceptionMissing | PerceptionAsks | PerceptionConflict | PlanRejected

  datatype End =
    | Failed(code: ResultCode, fault: Fault)
    | Clarified(why: Clarification)
    | Converged
    | Decided(action: Action, plan: Plan, perception: Perception)

  /** `degraded` says whether a fallback was taken anywhere on the way. */
  datatype Verdict = Verdict(end: End, degraded: bool)

  datatype Setup = Setup(perceptionLlm: bool, limits: Limits, fallback: bool)

  function SetupOf(w: World): Option<Setup> {
    match w.policy
    case None => Some(Setup(w.configPerceptionLlm, w.configLimits, w.degradedPathAllowed))
    case Some(None) => None
    case Some(Some(p)) => Some(Setup(p.perceptionLlm, p.limits, p.ruleFallback))
  }

  /** A policy must hint at a model for every stage that is to run on one. */
  predicate HintsMissingFor(w: World) {
    w.policy.Some? && w.policy.value.Some?
    && var p := w.policy.value.value;
       (p.perceptionLlm && !p.perceptionHint) || !p.planningHint || !p.executionHint
  }

  datatype Trouble = Trouble(code: ResultCode, fault: Fault)

  function BridgeTrouble(w: World, stage: Stage): (t: Option<Trouble>)
    ensures t.None? ==> w.call(stage).Returned?
  {
    if !w.bridgePresent then Some(Trouble(RUNTIME_RETRY_EXHAUSTED, NoBridge(stage)))
    else if w.call(stage).TimedOut? then Some(Trouble(RUNTIME_RETRY_EXHAUSTED, StageTimeout(stage)))
    else
      var call := w.call(stage).value;
      if call.fault.Some? then Some(Trouble(call.code.GetOr(RUNTIME_RETRY_EXHAUSTED), call.fault.value)) else None
  }

  function ReadingTrouble<T>(stage: Stage, r: Reading<T>): (t: Option<Trouble>)
    ensures t.None? ==> r.projection.value.Some?
  {
    if r.schema.Invalid? then Some(Trouble(VALIDATION_FIELD_MISSING, r.schema.fault))
    else if !r.parsed then Some(Trouble(VALIDATION_FIELD_MISSING, Unparsed(stage)))
    else if !r.projection.ok || r.projection.value.None? then
      Some(Trouble(VALIDATION_FIELD_MISSING, r.projection.fault.GetOr(Unprojected(stage))))
    else
      match (r.invariants)(r.projection.value.value)
      case Valid(_) => None
      case Invalid(fault, _) => Some(Trouble(VALIDATION_FIELD_MISSING, fault))
  }

  /** The first thing that goes wrong on the way from the bridge to a value, if anything does. */
  function TroubleOf<T>(w: World, stage: Stage, r: Reading<T>): (t: Option<Trouble>)
    ensures t.None? ==> r.projection.value.Some?
  {
    var bridge := BridgeTrouble(w, stage);
    if bridge.Some? then bridge else ReadingTrouble(stage, r)
  }

  datatype Outcome<T> = Projected(value: T) | FellBack | Broken(trouble: Trouble)

  /** A structured stage projects a value, or falls back when it may, or ends the pipeline. */
  function OutcomeOf<T>(w: World, stage: Stage, r: Reading<T>, allowed: bool): Outcome<T> {
    match TroubleOf(w, stage, r)
    case None => Projected(r.projection.value.value)
    case Some(trouble) => if allowed then FellBack else Broken(trouble)
  }

  datatype Step<T> = Stop(verdict: Verdict) | Go(value: T, degraded: bool)

  function Fail<T>(code: ResultCode, fault: Fault, degraded: bool): Step<T> {
    Stop(Verdict(Failed(code, fault), degraded))
  }

  /** Rule perception may stand in for the model's only when there is one. */
  function PerceptionStep(w: World, s: Setup): Step<Perception> {
    if w.perceive.TimedOut? then Fail(RUNTIME_RETRY_EXHAUSTED, StageTimeout(Perceiving), false)
    else
      var rule := w.perceive.value;
      if !s.perceptionLlm then
        if rule.Some? then Go(rule.value, false)
        else if s.fallback then Stop(Verdict(Clarified(PerceptionMissing), true))
        else Fail(RUNTIME_RETRY_EXHAUSTED, NoPerception, false)
      else
        match OutcomeOf(w, Perceiving, w.readPerception, s.fallback && rule.Some?)
        case Broken(t) => Fail(t.code, t.fault, false)
        case FellBack => if rule.Some? then Go(rule.value, true) else Fail(RUNTIME_RETRY_EXHAUSTED, NoPerception, true)
        case Projected(p) =>
          if p.requiresClarification then Stop(Verdict(Clarified(PerceptionAsks), false))
          else if rule.Some? && w.disagree(p, rule.value) then Stop(Verdict(Clarified(PerceptionConflict), false))
          else Go(p, false)
  }

  /** Local planning happens only after a fallback, so a rejected local plan ends in a clarification. */
  function PlanStep(w: World, s: Setup, p: Perception, degraded: bool): Step<Plan> {
    match OutcomeOf(w, Planning, PlanReading(w, s), s.fallback)
    case Broken(t) => Fail(t.code, t.fault, degraded)
    case Projected(plan) => Go(plan, degraded)
    case FellBack =>
      match w.buildPlan(p)
      case TimedOut => Fail(RUNTIME_RETRY_EXHAUSTED, StageTimeout(Planning), true)
      case Returned(plan) =>
        if w.checkPlan(plan, s.limits).Valid? then Go(plan, true) else Stop(Verdict(Clarified(PlanRejected), true))
  }

  function ActionStep(w: World, s: Setup, p: Perception, plan: Plan, degraded: bool): Verdict {
    match OutcomeOf(w, Executing, ActionReading(w, plan), s.fallback)
    case Broken(t) => Verdict(Failed(t.code, t.fault), degraded)
    case Projected(action) => Verdict(Decided(action, plan, p), degraded)
    case FellBack =>
      match w.decide(p, plan)
      case TimedOut => Verdict(Failed(RUNTIME_RETRY_EXHAUSTED, StageTimeout(Executing)), true)
      case Returned(action) =>
        Verdict(if w.checkAction(action, plan).Valid? then Decided(action, plan, p) else Converged, true)
  }

  function Decision(w: World): Verdict {
    match SetupOf(w)
    case None => Verdict(Failed(POLICY_DENIED, NoPlanFromPolicy), false)
    case Some(s) =>
      if HintsMissingFor(w) then Verdict(Failed(POLICY_DENIED, HintsMissing), false)
      else
        match PerceptionStep(w, s)
        case Stop(v) => v
        case Go(p, degraded) =>
          match PlanStep(w, s, p, degraded)
          case Stop(v) => v
          case Go(plan, degraded') => ActionStep(w, s, p, plan, degraded')
  }

  // ----- What every decision meets -----

  lemma ProjectedMeans<T>(w: World, stage: Stage, r: Reading<T>, allowed: bool)
    ensures var o := OutcomeOf(w, stage, r, allowed);
            (o.FellBack? ==> allowed)
            && (o.Projected? ==> (r.invariants)(o.value).Valid? && r.schema.Valid? && w.bridgePresent)
  {
  }

  /** A decision that is no fallback was validated against a plan that was itself validated within the limits. */
  lemma DecidedIsVetted(w: World)
    requires Decision(w).end.Decided?
    ensures var d := Decision(w).end;
            SetupOf(w).Some? && w.checkPlan(d.plan, SetupOf(w).value.limits).Valid?
            && w.checkAction(d.action, d.plan).Valid?
  {
    var s := SetupOf(w).value;
    var p := PerceptionStep(w, s);
    var plan := PlanStep(w, s, p.value, p.degraded);
    ProjectedMeans(w, Planning, PlanReading(w, s), s.fallback);
    ProjectedMeans(w, Executing, ActionReading(w, plan.value), s.fallback);
  }

  lemma PerceptionWithoutFallback(w: World, s: Setup)
    requires !s.fallback
    ensures var step := PerceptionStep(w, s); !(if step.Stop? then step.verdict.degraded else step.degraded)
    ensures var step := PerceptionStep(w, s); step.Stop? ==> !step.verdict.end.Converged?
  {
  }

  /**
   With fallback disabled nothing is degraded, nothing converges, and every decision is the
   action the bridge projected, on the plan the bridge projected.
   */
  lemma NoFallbackNoDegrading(w: World)
    requires SetupOf(w).Some? && !SetupOf(w).value.fallback
    ensures var v := Decision(w);
            !v.degraded && !v.end.Converged?
            && (v.end.Clarified? ==> v.end.why == PerceptionAsks || v.end.why == PerceptionConflict)
            && (v.end.Decided? ==>
                  w.projectAction.value == Some(v.end.action) && w.readPlan.projection.value == Some(v.end.plan))
  {
    PerceptionWithoutFallback(w, SetupOf(w).value);
  }

  /**
   With fallback enabled, no trouble of the planning or execution bridge ends the pipeline with
   an error: only local timeouts do.
   */
  lemma FallbackFailures(w: World)
    requires SetupOf(w).Some? && SetupOf(w).value.fallback && Decision(w).end.Failed?
    requires !HintsMissingFor(w) && w.perceive.Returned? && w.perceive.value.Some?
    ensures Decision(w).end.code == RUNTIME_RETRY_EXHAUSTED
            && (Decision(w).end.fault == StageTimeout(Planning) || Decision(w).end.fault == StageTimeout(Executing))
  {
  }
}
