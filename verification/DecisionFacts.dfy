/** When the decision pipeline ends how, read off the outcomes of its stages alone. */
module DecisionFacts {
  import opened Wrappers
  import opened LLMResults
  import opened DecisionSpec

  // ----- Setup -----

  /** There is a stage plan when there is a policy, with a hint for every stage that runs on a model. */
  predicate InOrder(w: World) {
    match w.policy
    case None => true
    case Some(None) => false
    case Some(Some(p)) => p.planningHint && p.executionHint && (p.perceptionLlm ==> p.perceptionHint)
  }

  predicate ModelPerceives(w: World) {
    match w.policy
    case None => w.configPerceptionLlm
    case Some(None) => false
    case Some(Some(p)) => p.perceptionLlm
  }

  predicate MayFallBack(w: World) {
    match w.policy
    case None => w.degradedPathAllowed
    case Some(None) => false
    case Some(Some(p)) => p.ruleFallback
  }

  function LimitsOf(w: World): Limits {
    match w.policy
    case Some(Some(p)) => p.limits
    case _ => w.configLimits
  }

  lemma SetupExactly(w: World)
    ensures InOrder(w) <==> SetupOf(w).Some? && !HintsMissingFor(w)
    ensures SetupOf(w).Some? ==> SetupOf(w).value == Setup(ModelPerceives(w), LimitsOf(w), MayFallBack(w))
  {
  }

  // ----- Stages -----

  /** The bridge is there and answers the stage in time and without a fault. */
  predicate BridgeAnswers(w: World, stage: Stage) {
    w.bridgePresent && w.call(stage).Returned? && w.call(stage).value.fault.None?
  }

  /** The model's perception passes its schema, parse, projection and invariants as `p`. */
  predicate Perceives(w: World, p: Perception) {
    var r := w.readPerception;
    BridgeAnswers(w, Perceiving) && r.schema.Valid? && r.parsed && r.projection.ok && r.projection.value == Some(p)
    && (r.invariants)(p).Valid?
  }

  predicate Plans(w: World, plan: Plan) {
    var r := w.readPlan;
    BridgeAnswers(w, Planning) && r.schema.Valid? && r.parsed && r.projection.ok && r.projection.value == Some(plan)
    && w.checkPlan(plan, LimitsOf(w)).Valid?
  }

  predicate Acts(w: World, plan: Plan, action: Action) {
    BridgeAnswers(w, Executing) && w.actionSchema.Valid? && w.actionParsed && w.projectAction.ok
    && w.projectAction.value == Some(action) && w.checkAction(action, plan).Valid?
  }

  ghost predicate NonePerceived(w: World) {
    forall p :: !Perceives(w, p)
  }

  ghost predicate NonePlanned(w: World) {
    forall plan :: !Plans(w, plan)
  }

  ghost predicate NoneActed(w: World, plan: Plan) {
    forall action :: !Acts(w, plan, action)
  }

  // ----- What the pipeline goes on with -----

  /** A perception by rules, if there is one. */
  function Rule(w: World): Option<Perception> {
    if w.perceive.Returned? then w.perceive.value else None
  }

  predicate Conflicts(w: World, p: Perception) {
    Rule(w).Some? && w.disagree(p, Rule(w).value)
  }

  /** The pipeline goes on with perception `p`. */
  ghost predicate GoesOnWith(w: World, p: Perception) {
    InOrder(w) && w.perceive.Returned?
    && if ModelPerceives(w) then
         (Perceives(w, p) && !p.requiresClarification && !Conflicts(w, p))
         || (NonePerceived(w) && MayFallBack(w) && Rule(w) == Some(p))
       else Rule(w) == Some(p)
  }

  /** A plan made by local rules, because the bridge has none to offer. */
  ghost predicate PlansLocally(w: World, p: Perception, plan: Plan) {
    NonePlanned(w) && MayFallBack(w) && w.buildPlan(p) == Returned(plan)
  }

  ghost predicate GoesOnToAct(w: World, p: Perception, plan: Plan) {
    GoesOnWith(w, p)
    && (Plans(w, plan) || (PlansLocally(w, p, plan) && w.checkPlan(plan, LimitsOf(w)).Valid?))
  }

  ghost predicate ActsLocally(w: World, p: Perception, plan: Plan, action: Action) {
    NoneActed(w, plan) && MayFallBack(w) && w.decide(p, plan) == Returned(action)
  }

  // ----- Outcomes of the stages -----

  /** What a structured stage comes to, on the fields of its reading. */
  lemma OutcomeExactly<T>(w: World, stage: Stage, r: Reading<T>, allowed: bool)
    ensures var good := BridgeAnswers(w, stage) && r.schema.Valid? && r.parsed && r.projection.ok
                        && r.projection.value.Some? && (r.invariants)(r.projection.value.value).Valid?;
            var o := OutcomeOf(w, stage, r, allowed);
            (o.Projected? <==> good) && (o.Projected? ==> Some(o.value) == r.projection.value)
            && (o.FellBack? <==> !good && allowed) && (o.Broken? <==> !good && !allowed)
  {
  }

  lemma PerceptionOutcome(w: World, allowed: bool)
    ensures var o := OutcomeOf(w, Perceiving, w.readPerception, allowed);
            (forall p :: o == Projected(p) <==> Perceives(w, p))
            && (o.FellBack? <==> NonePerceived(w) && allowed) && (o.Broken? <==> NonePerceived(w) && !allowed)
  {
    OutcomeExactly(w, Perceiving, w.readPerception, allowed);
    var o := OutcomeOf(w, Perceiving, w.readPerception, allowed);
    if o.Projected? {
      assert Perceives(w, o.value);
    }
  }

  lemma PlanOutcome(w: World, s: Setup, allowed: bool)
    requires s.limits == LimitsOf(w)
    ensures var o := OutcomeOf(w, Planning, PlanReading(w, s), allowed);
            (forall plan :: o == Projected(plan) <==> Plans(w, plan))
            && (o.FellBack? <==> NonePlanned(w) && allowed) && (o.Broken? <==> NonePlanned(w) && !allowed)
  {
    OutcomeExactly(w, Planning, PlanReading(w, s), allowed);
    var o := OutcomeOf(w, Planning, PlanReading(w, s), allowed);
    if o.Projected? {
      assert Plans(w, o.value);
    }
  }

  lemma ActionOutcome(w: World, plan: Plan, allowed: bool)
    ensures var o := OutcomeOf(w, Executing, ActionReading(w, plan), allowed);
            (forall action :: o == Projected(action) <==> Acts(w, plan, action))
            && (o.FellBack? <==> NoneActed(w, plan) && allowed) && (o.Broken? <==> NoneActed(w, plan) && !allowed)
  {
    OutcomeExactly(w, Executing, ActionReading(w, plan), allowed);
    var o := OutcomeOf(w, Executing, ActionReading(w, plan), allowed);
    if o.Projected? {
      assert Acts(w, plan, o.value);
    }
  }

  // ----- Perception -----

  /** What perception comes to; the end it stops with, if it stops. */
  lemma PerceptionExactly(w: World)
    requires InOrder(w)
    ensures var step := PerceptionStep(w, SetupOf(w).value);
            (forall p :: step.Go? && step.value == p <==> GoesOnWith(w, p))
            && (step.Stop? && step.verdict.end == Clarified(PerceptionConflict) <==>
                  ModelPerceives(w) && exists p :: Perceives(w, p) && !p.requiresClarification && Conflicts(w, p))
            && (step.Stop? && step.verdict.end == Clarified(PerceptionAsks) <==>
                  w.perceive.Returned? && ModelPerceives(w) && exists p :: Perceives(w, p) && p.requiresClarification)
            && (step.Stop? && step.verdict.end == Clarified(PerceptionMissing) <==>
                  w.perceive.Returned? && !ModelPerceives(w) && w.perceive.value.None? && MayFallBack(w))
            && (step.Stop? ==> step.verdict.end.Failed? || step.verdict.end.Clarified?)
            && (step.Stop? ==> step.verdict.end != Clarified(PlanRejected))
  {
    SetupExactly(w);
    var s := SetupOf(w).value;
    if w.perceive.Returned? {
      PerceptionOutcome(w, s.fallback && w.perceive.value.Some?);
    }
  }

  // ----- Ends -----

  /** The pipeline asks about a conflict exactly when model and rules both perceive, and disagree. */
  lemma ConflictExactly(w: World)
    ensures Decision(w).end == Clarified(PerceptionConflict) <==>
              InOrder(w) && ModelPerceives(w)
              && exists p :: Perceives(w, p) && !p.requiresClarification && Conflicts(w, p)
  {
    SetupExactly(w);
    if InOrder(w) {
      PerceptionExactly(w);
    }
  }

  /** It asks on behalf of the model exactly when the model's perception says so. */
  lemma AsksExactly(w: World)
    ensures Decision(w).end == Clarified(PerceptionAsks) <==>
              InOrder(w) && w.perceive.Returned? && ModelPerceives(w)
              && exists p :: Perceives(w, p) && p.requiresClarification
  {
    SetupExactly(w);
    if InOrder(w) {
      PerceptionExactly(w);
    }
  }

  /** It asks for lack of a perception exactly when there are only rules, they have none, and a fallback is allowed. */
  lemma MissingExactly(w: World)
    ensures Decision(w).end == Clarified(PerceptionMissing) <==>
              InOrder(w) && w.perceive.Returned? && !ModelPerceives(w) && w.perceive.value.None? && MayFallBack(w)
  {
    SetupExactly(w);
    if InOrder(w) {
      PerceptionExactly(w);
    }
  }

  /** It asks for lack of a plan exactly when the bridge has none and the local one is rejected. */
  lemma PlanRejectedExactly(w: World)
    ensures Decision(w).end == Clarified(PlanRejected) <==>
              exists p, plan :: GoesOnWith(w, p) && PlansLocally(w, p, plan) && w.checkPlan(plan, LimitsOf(w)).Invalid?
  {
    SetupExactly(w);
    if InOrder(w) {
      PerceptionExactly(w);
      var s := SetupOf(w).value;
      PlanOutcome(w, s, s.fallback);
      var step := PerceptionStep(w, s);
      if step.Go? && Decision(w).end == Clarified(PlanRejected) {
        assert GoesOnWith(w, step.value) && PlansLocally(w, step.value, w.buildPlan(step.value).value);
      }
    }
  }

  /** The plan stage goes on with exactly the plans described. */
  lemma PlanExactly(w: World, p: Perception, degraded: bool)
    requires GoesOnWith(w, p)
    ensures var step := PlanStep(w, SetupOf(w).value, p, degraded);
            forall plan :: step.Go? && step.value == plan <==> GoesOnToAct(w, p, plan)
  {
    SetupExactly(w);
    var s := SetupOf(w).value;
    PlanOutcome(w, s, s.fallback);
  }

  lemma ActionExactly(w: World, p: Perception, plan: Plan, degraded: bool)
    requires InOrder(w)
    ensures var v := ActionStep(w, SetupOf(w).value, p, plan, degraded);
            (forall action :: v.end == Decided(action, plan, p) <==>
               Acts(w, plan, action) || (ActsLocally(w, p, plan, action) && w.checkAction(action, plan).Valid?))
            && (v.end.Decided? ==> v.end.plan == plan && v.end.perception == p)
            && (v.end == Converged <==>
                  exists action :: ActsLocally(w, p, plan, action) && w.checkAction(action, plan).Invalid?)
  {
    SetupExactly(w);
    var s := SetupOf(w).value;
    ActionOutcome(w, plan, s.fallback);
    var v := ActionStep(w, s, p, plan, degraded);
    if v.end == Converged {
      assert ActsLocally(w, p, plan, w.decide(p, plan).value);
    }
  }

  /**
   A decision carries exactly the action, plan and perception the pipeline got to: each from
   the bridge when that delivers it, from the local rules otherwise.
   */
  lemma DecidedExactly(w: World, action: Action, plan: Plan, p: Perception)
    ensures Decision(w).end == Decided(action, plan, p) <==>
              GoesOnToAct(w, p, plan)
              && (Acts(w, plan, action) || (ActsLocally(w, p, plan, action) && w.checkAction(action, plan).Valid?))
  {
    SetupExactly(w);
    if InOrder(w) {
      PerceptionExactly(w);
      var s := SetupOf(w).value;
      var step := PerceptionStep(w, s);
      if step.Go? {
        PlanExactly(w, step.value, step.degraded);
        var step' := PlanStep(w, s, step.value, step.degraded);
        if step'.Go? {
          ActionExactly(w, step.value, step'.value, step'.degraded);
        }
      }
    }
  }

  /** It converges exactly when the bridge has no action to offer and the local one is rejected. */
  lemma ConvergedExactly(w: World)
    ensures Decision(w).end == Converged <==>
              exists p, plan, action ::
                GoesOnToAct(w, p, plan) && ActsLocally(w, p, plan, action) && w.checkAction(action, plan).Invalid?
  {
    SetupExactly(w);
    if InOrder(w) {
      PerceptionExactly(w);
      var s := SetupOf(w).value;
      var step := PerceptionStep(w, s);
      if step.Go? {
        PlanExactly(w, step.value, step.degraded);
        var step' := PlanStep(w, s, step.value, step.degraded);
        if step'.Go? {
          ActionExactly(w, step.value, step'.value, step'.degraded);
        }
      }
    }
  }

  // ----- Fallbacks -----

  ghost predicate FellBackPerceiving(w: World) {
    InOrder(w) && w.perceive.Returned? && MayFallBack(w)
    && if ModelPerceives(w) then NonePerceived(w) && Rule(w).Some? else Rule(w).None?
  }

  ghost predicate FellBackPlanning(w: World) {
    NonePlanned(w) && MayFallBack(w) && exists p :: GoesOnWith(w, p)
  }

  ghost predicate FellBackActing(w: World) {
    MayFallBack(w) && exists p, plan :: GoesOnToAct(w, p, plan) && NoneActed(w, plan)
  }

  lemma PerceptionDegrades(w: World)
    requires InOrder(w)
    ensures var step := PerceptionStep(w, SetupOf(w).value);
            (if step.Stop? then step.verdict.degraded else step.degraded) <==> FellBackPerceiving(w)
  {
    SetupExactly(w);
    if w.perceive.Returned? {
      PerceptionOutcome(w, MayFallBack(w) && w.perceive.value.Some?);
    }
  }

  lemma PlanDegrades(w: World, p: Perception, degraded: bool)
    requires GoesOnWith(w, p)
    ensures var step := PlanStep(w, SetupOf(w).value, p, degraded);
            (if step.Stop? then step.verdict.degraded else step.degraded) <==>
              degraded || (NonePlanned(w) && MayFallBack(w))
  {
    SetupExactly(w);
    PlanOutcome(w, SetupOf(w).value, MayFallBack(w));
  }

  lemma ActionDegrades(w: World, p: Perception, plan: Plan, degraded: bool)
    requires InOrder(w)
    ensures ActionStep(w, SetupOf(w).value, p, plan, degraded).degraded <==>
              degraded || (NoneActed(w, plan) && MayFallBack(w))
  {
    SetupExactly(w);
    ActionOutcome(w, plan, MayFallBack(w));
  }

  /** The decision is degraded exactly when one of the three stages fell back. */
  lemma DegradedExactly(w: World)
    ensures Decision(w).degraded <==> FellBackPerceiving(w) || FellBackPlanning(w) || FellBackActing(w)
  {
    SetupExactly(w);
    if InOrder(w) {
      PerceptionExactly(w);
      PerceptionDegrades(w);
      var s := SetupOf(w).value;
      var step := PerceptionStep(w, s);
      if step.Go? {
        PlanExactly(w, step.value, step.degraded);
        assert GoesOnWith(w, step.value);
        PlanDegrades(w, step.value, step.degraded);
        var step' := PlanStep(w, s, step.value, step.degraded);
        if step'.Go? {
          assert GoesOnToAct(w, step.value, step'.value);
          ActionDegrades(w, step.value, step'.value, step'.degraded);
        }
      }
    }
  }

  // ----- Failures -----

  /** What is wrong with a structured stage that delivers nothing: the first of its checks that fails. */
  ghost predicate Wrong<T>(w: World, stage: Stage, r: Reading<T>, code: ResultCode, fault: Fault) {
    if !w.bridgePresent then code == RUNTIME_RETRY_EXHAUSTED && fault == NoBridge(stage)
    else if w.call(stage).TimedOut? then code == RUNTIME_RETRY_EXHAUSTED && fault == StageTimeout(stage)
    else if w.call(stage).value.fault.Some? then
      Some(fault) == w.call(stage).value.fault
      && code == w.call(stage).value.code.GetOr(RUNTIME_RETRY_EXHAUSTED)
    else
      code == VALIDATION_FIELD_MISSING
      && if r.schema.Invalid? then fault == r.schema.fault
         else if !r.parsed then fault == Unparsed(stage)
         else if !r.projection.ok || r.projection.value.None? then
           (if r.projection.fault.Some? then Some(fault) == r.projection.fault else fault == Unprojected(stage))
         else
           var check := (r.invariants)(r.projection.value.value);
           check == Invalid(fault, check.diagnostics)
  }

  lemma BrokenIsWrong<T>(w: World, stage: Stage, r: Reading<T>, code: ResultCode, fault: Fault)
    requires OutcomeOf(w, stage, r, false).Broken?
    ensures OutcomeOf(w, stage, r, false) == Broken(Trouble(code, fault)) <==> Wrong(w, stage, r, code, fault)
  {
  }

  /** The plan reading of the world, with the check of plans. */
  function PlanReadingOf(w: World): Reading<Plan> {
    w.readPlan.(invariants := (p: Plan) => w.checkPlan(p, LimitsOf(w)))
  }

  ghost predicate PerceivingFails(w: World, code: ResultCode, fault: Fault) {
    if w.perceive.TimedOut? then code == RUNTIME_RETRY_EXHAUSTED && fault == StageTimeout(Perceiving)
    else if !ModelPerceives(w) then
      Rule(w).None? && !MayFallBack(w) && code == RUNTIME_RETRY_EXHAUSTED && fault == NoPerception
    else
      NonePerceived(w) && !(MayFallBack(w) && Rule(w).Some?) && Wrong(w, Perceiving, w.readPerception, code, fault)
  }

  ghost predicate PlanningFails(w: World, p: Perception, code: ResultCode, fault: Fault) {
    NonePlanned(w)
    && if MayFallBack(w) then
         w.buildPlan(p).TimedOut? && code == RUNTIME_RETRY_EXHAUSTED && fault == StageTimeout(Planning)
       else Wrong(w, Planning, PlanReadingOf(w), code, fault)
  }

  ghost predicate ActingFails(w: World, p: Perception, plan: Plan, code: ResultCode, fault: Fault) {
    NoneActed(w, plan)
    && if MayFallBack(w) then
         w.decide(p, plan).TimedOut? && code == RUNTIME_RETRY_EXHAUSTED && fault == StageTimeout(Executing)
       else Wrong(w, Executing, ActionReading(w, plan), code, fault)
  }

  /** How the pipeline fails, cause by cause. */
  ghost predicate FailsWith(w: World, code: ResultCode, fault: Fault) {
    if !InOrder(w) then
      code == POLICY_DENIED && fault == (if w.policy == Some(None) then NoPlanFromPolicy else HintsMissing)
    else
      PerceivingFails(w, code, fault)
      || (exists p :: GoesOnWith(w, p) && PlanningFails(w, p, code, fault))
      || exists p, plan :: GoesOnToAct(w, p, plan) && ActingFails(w, p, plan, code, fault)
  }

  lemma PerceptionFails(w: World, code: ResultCode, fault: Fault)
    requires InOrder(w)
    ensures var step := PerceptionStep(w, SetupOf(w).value);
            step.Stop? && step.verdict.end == Failed(code, fault) <==> PerceivingFails(w, code, fault)
  {
    SetupExactly(w);
    if w.perceive.Returned? {
      var allowed := MayFallBack(w) && w.perceive.value.Some?;
      PerceptionOutcome(w, allowed);
      if OutcomeOf(w, Perceiving, w.readPerception, allowed).Broken? {
        BrokenIsWrong(w, Perceiving, w.readPerception, code, fault);
      }
    }
  }

  lemma PlanFails(w: World, p: Perception, degraded: bool, code: ResultCode, fault: Fault)
    requires GoesOnWith(w, p)
    ensures var step := PlanStep(w, SetupOf(w).value, p, degraded);
            step.Stop? && step.verdict.end == Failed(code, fault) <==> PlanningFails(w, p, code, fault)
  {
    SetupExactly(w);
    var s := SetupOf(w).value;
    PlanOutcome(w, s, s.fallback);
    assert PlanReading(w, s) == PlanReadingOf(w);
    if OutcomeOf(w, Planning, PlanReading(w, s), s.fallback).Broken? {
      BrokenIsWrong(w, Planning, PlanReading(w, s), code, fault);
    }
  }

  lemma ActionFails(w: World, p: Perception, plan: Plan, degraded: bool, code: ResultCode, fault: Fault)
    requires InOrder(w)
    ensures ActionStep(w, SetupOf(w).value, p, plan, degraded).end == Failed(code, fault) <==>
              ActingFails(w, p, plan, code, fault)
  {
    SetupExactly(w);
    var s := SetupOf(w).value;
    ActionOutcome(w, plan, s.fallback);
    if OutcomeOf(w, Executing, ActionReading(w, plan), s.fallback).Broken? {
      BrokenIsWrong(w, Executing, ActionReading(w, plan), code, fault);
    }
  }

  /** The pipeline fails with this code and fault exactly when they are those of a cause. */
  lemma FailedExactly(w: World, code: ResultCode, fault: Fault)
    ensures Decision(w).end == Failed(code, fault) <==> FailsWith(w, code, fault)
  {
    SetupExactly(w);
    if InOrder(w) {
      PerceptionExactly(w);
      PerceptionFails(w, code, fault);
      var s := SetupOf(w).value;
      var step := PerceptionStep(w, s);
      if step.Go? {
        var p := step.value;
        assert GoesOnWith(w, p);
        PlanExactly(w, p, step.degraded);
        PlanFails(w, p, step.degraded, code, fault);
        var step' := PlanStep(w, s, p, step.degraded);
        if step'.Go? {
          assert GoesOnToAct(w, p, step'.value);
          ActionFails(w, p, step'.value, step'.degraded, code, fault);
        }
      }
    }
  }
}
