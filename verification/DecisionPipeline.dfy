/**
 The decision pipeline as the facade runs it: stage after stage, filling one result and
 its diagnostics, proved to reach the verdict of `DecisionSpec`.
 */
module DecisionPipeline {
  import opened Wrappers
  import opened LLMResults
  import opened UniqueLists
  import opened DecisionSpec

  // ----- Diagnostics -----

  datatype Label =
    | PolicyProjectionFailed
    | PolicyHintsMissing
    | Degraded
    | PerceptionUnavailable
    | PerceptionShadowUnavailable
    | ClarificationRequired
    | ConflictFound
    | PlanValidationFailed
    | ActionValidationFailed
    | Completed
    | ProjectedPerception
    | ProjectedPlan
    | ProjectedAction
    | Staged(kind: StagedKind, stage: Stage)
    | Valued(field: ValueField, valueStage: Stage, value: string)

  datatype StagedKind =
    | TimedOutAt | BridgeDegraded | BridgeFailed
    | BridgeUnavailable | BridgeInvoked | BridgeCallFailed | BridgeCompleted
    | EnabledFlag | RequiredFlag | PayloadValid
    | LocalFallback | SchemaViolation | ProjectionFailed | InvariantFailed

  datatype ValueField = SchemaVersion | FailureCode | SourceOf | ProjectedCount

  function StageName(s: Stage): string {
    match s
    case Perceiving => "perception"
    case Planning => "planning"
    case Executing => "execution"
  }

  function StagedPrefix(k: StagedKind): string {
    match k
    case TimedOutAt => "decision_pipeline.stage_timeout"
    case BridgeDegraded => "decision_pipeline.llm_bridge_degraded"
    case BridgeFailed => "decision_pipeline.llm_bridge_failed"
    case BridgeUnavailable => "llm_bridge.unavailable"
    case BridgeInvoked => "llm_bridge.invoked"
    case BridgeCallFailed => "llm_bridge.failed"
    case BridgeCompleted => "llm_bridge.completed"
    case EnabledFlag => "structured_projection.enabled"
    case RequiredFlag => "structured_projection.required"
    case PayloadValid => "structured_projection.bridge_payload_valid"
    case LocalFallback => "structured_projection.local_fallback"
    case SchemaViolation => "structured_projection.schema_violation"
    case ProjectionFailed => "structured_projection.projection_failed"
    case InvariantFailed => "structured_projection.invariant_failed"
  }

  function FieldName(f: ValueField, s: Stage): string {
    match f
    case SchemaVersion => "schema_version"
    case FailureCode => "failure_code"
    case SourceOf => "source"
    case ProjectedCount =>
      match s
      case Perceiving => "projected_entity_count"
      case Planning => "projected_node_count"
      case Executing => "projected_candidate_count"
  }

  const DEGRADED := "decision_pipeline.degraded"

  /** The text of a diagnostic. */
  function Render(l: Label): string {
    match l
    case PolicyProjectionFailed => "decision_pipeline.policy_projection_failed"
    case PolicyHintsMissing => "decision_pipeline.policy_hints_missing"
    case Degraded => DEGRADED
    case PerceptionUnavailable => "decision_pipeline.perception_unavailable"
    case PerceptionShadowUnavailable => "decision_pipeline.perception_shadow_unavailable"
    case ClarificationRequired => "decision_pipeline.perception_clarification_required"
    case ConflictFound => "decision_pipeline.perception_conflict"
    case PlanValidationFailed => "decision_pipeline.plan_validation_failed"
    case ActionValidationFailed => "decision_pipeline.action_validation_failed"
    case Completed => "decision_pipeline.completed"
    case ProjectedPerception => "structured_projection.projected_perception_result"
    case ProjectedPlan => "structured_projection.projected_plan_graph"
    case ProjectedAction => "structured_projection.projected_action_decision"
    case Staged(k, s) => StagedPrefix(k) + ":" + StageName(s)
    case Valued(f, s, v) => "structured_projection." + FieldName(f, s) + ":" + StageName(s) + ":" + v
  }

  /** The pipeline writes through any naming of its diagnostics; `Render` is the one it has. */
  type Text = Label -> string

  /** Only the degraded mark reads as the degraded mark. */
  ghost predicate DistinctMark(text: Text) {
    text(Degraded) != "" && forall l :: text(l) == text(Degraded) ==> l == Degraded
  }

  lemma ColonInside(prefix: string, suffix: string)
    ensures prefix + ":" + suffix != DEGRADED
  {
    assert (prefix + ":" + suffix)[|prefix|] == ':';
  }

  lemma RenderDiffers(l: Label)
    requires l != Degraded
    ensures Render(l) != DEGRADED
  {
    match l
    case Staged(k, s) => ColonInside(StagedPrefix(k), StageName(s));
    case Valued(f, s, v) =>
      var head := "structured_projection." + FieldName(f, s);
      ColonInside(head, StageName(s) + ":" + v);
      assert Render(l) == head + ":" + (StageName(s) + ":" + v);
    case _ =>
  }

  lemma RenderIsDistinct()
    ensures DistinctMark(Render)
  {
    forall l | Render(l) == Render(Degraded) ensures l == Degraded {
      if l != Degraded {
        RenderDiffers(l);
      }
    }
  }

  // ----- The result -----

  datatype Choice = Clarify(why: Clarification) | ConvergeSafe | Act(action: Action)

  datatype Result = Result(action: Option<Choice>, fault: Option<Fault>, code: Option<ResultCode>,
                           diagnostics: seq<string>)

  const EMPTY := Result(None, None, None, [])

  predicate Blank(r: Result) {
    r.action.None? && r.fault.None? && r.code.None?
  }

  predicate FailedWith(r: Result, code: ResultCode, fault: Fault) {
    r.action.None? && r.fault == Some(fault) && r.code == Some(code)
  }

  predicate Chose(r: Result, c: Choice) {
    r.action == Some(c) && r.fault.None? && r.code.None?
  }

  /** The result says what the verdict says: exactly one of an action and an error. */
  predicate Reports(r: Result, v: Verdict) {
    match v.end
    case Failed(code, fault) => FailedWith(r, code, fault)
    case Clarified(why) => Chose(r, Clarify(why))
    case Converged => Chose(r, ConvergeSafe)
    case Decided(action, _, _) => Chose(r, Act(action))
  }

  predicate Marked(text: Text, notes: Diagnostics) {
    text(Degraded) in notes
  }

  /**
   Diagnostics never repeat, and the degraded mark stands when a fallback was taken or a stage
   wrote it, and only then.
   */
  ghost predicate Tidy(text: Text, r: Result, degraded: bool, heard: bool) {
    Clean(r.diagnostics) && (DistinctMark(text) ==> (Marked(text, r.diagnostics) <==> degraded || heard))
  }

  // ----- What the stages write of their own accord, as far as the pipeline listens -----

  function BridgeNotes(w: World, stage: Stage): Diagnostics {
    if w.bridgePresent && w.call(stage).Returned? then w.call(stage).value.diagnostics else []
  }

  function ProjectionNotes<T>(r: Reading<T>, keepNotes: bool): Diagnostics {
    (if keepNotes then r.projection.diagnostics else [])
    + if r.projection.ok && r.projection.value.Some? then (r.invariants)(r.projection.value.value).diagnostics else []
  }

  function ReadingNotes<T>(r: Reading<T>, keepNotes: bool): Diagnostics {
    r.schema.diagnostics + if r.schema.Valid? && r.parsed then ProjectionNotes(r, keepNotes) else []
  }

  function StageNotes<T>(w: World, stage: Stage, r: Reading<T>, keepNotes: bool): Diagnostics {
    BridgeNotes(w, stage) + if BridgeTrouble(w, stage).None? then ReadingNotes(r, keepNotes) else []
  }

  function RuleNotes(w: World): Diagnostics {
    if w.perceive.Returned? && w.perceive.value.Some? then w.perceive.value.value.diagnostics else []
  }

  function PerceptionNotes(w: World, s: Setup): Diagnostics {
    if w.perceive.TimedOut? then []
    else if !s.perceptionLlm then RuleNotes(w)
    else
      StageNotes(w, Perceiving, w.readPerception, false)
      + match OutcomeOf(w, Perceiving, w.readPerception, s.fallback && w.perceive.value.Some?)
        case Broken(_) => []
        case FellBack => RuleNotes(w)
        case Projected(p) => p.diagnostics
  }

  /** All the pipeline hears from its stages on the way to its decision. */
  function Heard(w: World): Diagnostics {
    match SetupOf(w)
    case None => []
    case Some(s) =>
      if HintsMissingFor(w) then []
      else
        PerceptionNotes(w, s)
        + match PerceptionStep(w, s)
          case Stop(_) => []
          case Go(p, degraded) =>
            StageNotes(w, Planning, PlanReading(w, s), true)
            + match PlanStep(w, s, p, degraded)
              case Stop(_) => []
              case Go(plan, _) => StageNotes(w, Executing, ActionReading(w, plan), true)
  }

  // ----- Writing into the result -----

  method Note(text: Text, r: Result, l: Label, ghost degraded: bool, ghost heard: bool) returns (r': Result)
    requires Tidy(text, r, degraded, heard)
    ensures Tidy(text, r', degraded || l == Degraded, heard) && r' == r.(diagnostics := r'.diagnostics)
  {
    AppendUniqueClean(r.diagnostics, text(l));
    r' := r.(diagnostics := AppendUnique(r.diagnostics, text(l)));
  }

  method NoteEach(text: Text, r: Result, notes: Diagnostics, ghost degraded: bool, ghost heard: bool)
    returns (r': Result)
    requires Tidy(text, r, degraded, heard)
    ensures Tidy(text, r', degraded, heard || Marked(text, notes)) && r' == r.(diagnostics := r'.diagnostics)
  {
    AppendAllClean(r.diagnostics, notes);
    var all := AppendEach(r.diagnostics, notes);
    r' := r.(diagnostics := all);
  }

  /** `apply_decision_failure` */
  method ApplyFailure(text: Text, r: Result, code: ResultCode, fault: Fault, l: Label, ghost degraded: bool,
                      ghost heard: bool)
    returns (r': Result)
    requires Tidy(text, r, degraded, heard) && r.action.None? && l != Degraded
    ensures Tidy(text, r', degraded, heard) && FailedWith(r', code, fault)
  {
    r' := Note(text, r.(code := Some(code), fault := Some(fault)), l, degraded, heard);
  }

  /** `fallback_or_fail_structured_stage` */
  method FallbackOrFail(text: Text, r: Result, allowed: bool, t: Trouble, stage: Stage, l: Label, why: string,
                        ghost degraded: bool, ghost heard: bool)
    returns (r': Result)
    requires Tidy(text, r, degraded, heard) && Blank(r) && l != Degraded
    ensures Tidy(text, r', degraded || allowed, heard)
    ensures if allowed then Blank(r') else FailedWith(r', t.code, t.fault)
  {
    r' := Note(text, r, Valued(FailureCode, stage, why), degraded, heard);
    if allowed {
      r' := Note(text, r', l, degraded, heard);
      r' := Note(text, r', Degraded, degraded, heard);
      r' := Note(text, r', Staged(LocalFallback, stage), true, heard);
      r' := Note(text, r', Valued(SourceOf, stage, "local_fallback"), true, heard);
    } else {
      r' := ApplyFailure(text, r', t.code, t.fault, l, degraded, heard);
    }
  }

  method BridgeFallback(text: Text, r: Result, stage: Stage, ghost degraded: bool, ghost heard: bool)
    returns (r': Result)
    requires Tidy(text, r, degraded, heard) && Blank(r)
    ensures Tidy(text, r', true, heard) && Blank(r')
  {
    r' := Note(text, r, Staged(BridgeDegraded, stage), degraded, heard);
    r' := Note(text, r', Degraded, degraded, heard);
    r' := Note(text, r', Staged(LocalFallback, stage), true, heard);
    r' := Note(text, r', Valued(SourceOf, stage, "local_fallback"), true, heard);
  }

  /** `consume_decision_bridge_stage`: a call without an error, or a fallback, or a failure. */
  method ConsumeBridge(text: Text, w: World, r: Result, stage: Stage, allowed: bool, ghost degraded: bool,
                       ghost heard: bool)
    returns (r': Result, call: Option<BridgeCall>)
    requires Tidy(text, r, degraded, heard) && Blank(r)
    ensures call.Some? <==> BridgeTrouble(w, stage).None?
    ensures Tidy(text, r', degraded || (call.None? && allowed), heard || Marked(text, BridgeNotes(w, stage)))
    ensures if call.Some? || allowed then Blank(r')
            else FailedWith(r', BridgeTrouble(w, stage).value.code, BridgeTrouble(w, stage).value.fault)
  {
    if !w.bridgePresent {
      r' := Note(text, r, Staged(BridgeUnavailable, stage), degraded, heard);
      r' := Note(text, r', Valued(FailureCode, stage, "provider"), degraded, heard);
      if allowed {
        r' := BridgeFallback(text, r', stage, degraded, heard);
      } else {
        r' := ApplyFailure(text, r', RUNTIME_RETRY_EXHAUSTED, NoBridge(stage), Staged(BridgeFailed, stage), degraded,
                           heard);
      }
      return r', None;
    }
    var reply := w.call(stage);
    if reply.TimedOut? {
      r' := Note(text, r, Valued(FailureCode, stage, "timeout"), degraded, heard);
      if allowed {
        r' := BridgeFallback(text, r', stage, degraded, heard);
      } else {
        r' := ApplyFailure(text, r', RUNTIME_RETRY_EXHAUSTED, StageTimeout(stage), Staged(TimedOutAt, stage), degraded,
                           heard);
      }
      return r', None;
    }
    r' := Note(text, r, Staged(BridgeInvoked, stage), degraded, heard);
    r' := Note(text, r', Staged(if reply.value.fault.Some? then BridgeCallFailed else BridgeCompleted, stage), degraded,
               heard);
    r' := NoteEach(text, r', reply.value.diagnostics, degraded, heard);
    ghost var heard' := heard || Marked(text, BridgeNotes(w, stage));
    if reply.value.fault.None? {
      return r', Some(reply.value);
    }
    r' := Note(text, r', Valued(FailureCode, stage, "provider"), degraded, heard');
    if allowed {
      r' := BridgeFallback(text, r', stage, degraded, heard');
    } else {
      r' := ApplyFailure(text, r', reply.value.code.GetOr(RUNTIME_RETRY_EXHAUSTED), reply.value.fault.value,
                         Staged(BridgeFailed, stage), degraded, heard');
    }
    call := None;
  }

  /**
   What a reply of the bridge is made into. Perception drops the projector's diagnostics, the
   other stages keep them.
   */
  method ReadReply<T(!new)>(text: Text, r: Result, stage: Stage, reading: Reading<T>, keepNotes: bool,
                            allowed: bool, done: Label,
                      ghost degraded: bool, ghost heard: bool)
    returns (r': Result, value: Option<T>)
    requires Tidy(text, r, degraded, heard) && Blank(r) && done != Degraded
    ensures value == if ReadingTrouble(stage, reading).None? then reading.projection.value else None
    ensures Tidy(text, r', degraded || (value.None? && allowed),
                 heard || Marked(text, ReadingNotes(reading, keepNotes)))
    ensures if value.Some? || allowed then Blank(r')
            else FailedWith(r', ReadingTrouble(stage, reading).value.code, ReadingTrouble(stage, reading).value.fault)
  {
    value := None;
    r' := NoteEach(text, r, reading.schema.diagnostics, degraded, heard);
    ghost var heard' := heard || Marked(text, reading.schema.diagnostics);
    if reading.schema.Invalid? {
      r' := FallbackOrFail(text, r', allowed, Trouble(VALIDATION_FIELD_MISSING, reading.schema.fault), stage,
                           Staged(SchemaViolation, stage), "schema", degraded, heard');
      return;
    }
    r' := Note(text, r', Staged(PayloadValid, stage), degraded, heard');
    if !reading.parsed {
      r' := FallbackOrFail(text, r', allowed, Trouble(VALIDATION_FIELD_MISSING, Unparsed(stage)), stage,
                           Staged(ProjectionFailed, stage), "projection", degraded, heard');
      return;
    }
    var projection := reading.projection;
    if keepNotes {
      r' := NoteEach(text, r', projection.diagnostics, degraded, heard');
      heard' := heard' || Marked(text, projection.diagnostics);
    }
    if !projection.ok || projection.value.None? {
      r' := FallbackOrFail(text, r', allowed,
                           Trouble(VALIDATION_FIELD_MISSING, projection.fault.GetOr(Unprojected(stage))), stage,
                           Staged(ProjectionFailed, stage), "projection", degraded, heard');
      return;
    }
    r', value := JudgeProjected(text, r', stage, reading, projection.value.value, allowed, done, degraded, heard');
  }

  method JudgeProjected<T(!new)>(text: Text, r: Result, stage: Stage, reading: Reading<T>, projected: T,
                                 allowed: bool, done: Label,
                           ghost degraded: bool, ghost heard: bool)
    returns (r': Result, value: Option<T>)
    requires Tidy(text, r, degraded, heard) && Blank(r) && done != Degraded
    ensures value == if (reading.invariants)(projected).Valid? then Some(projected) else None
    ensures Tidy(text, r', degraded || (value.None? && allowed),
                 heard || Marked(text, (reading.invariants)(projected).diagnostics))
    ensures if value.Some? || allowed then Blank(r')
            else FailedWith(r', VALIDATION_FIELD_MISSING, (reading.invariants)(projected).fault)
  {
    var check := (reading.invariants)(projected);
    r' := NoteEach(text, r, check.diagnostics, degraded, heard);
    ghost var heard' := heard || Marked(text, check.diagnostics);
    if check.Invalid? {
      r' := FallbackOrFail(text, r', allowed, Trouble(VALIDATION_FIELD_MISSING, check.fault), stage,
                           Staged(InvariantFailed, stage), "invariant", degraded, heard');
      return r', None;
    }
    r' := Note(text, r', done, degraded, heard');
    r' := Note(text, r', Valued(SourceOf, stage, "llm_bridge"), degraded, heard');
    r' := Note(text, r', Valued(ProjectedCount, stage, (reading.count)(projected)), degraded, heard');
    value := Some(projected);
  }

  /** A structured stage from its flags to its outcome. */
  method StructuredStage<T(!new)>(text: Text, w: World, r: Result, stage: Stage, reading: Reading<T>, keepNotes: bool,
                                  allowed: bool,
                            version: string, done: Label, ghost degraded: bool, ghost heard: bool)
    returns (r': Result, value: Option<T>)
    requires Tidy(text, r, degraded, heard) && Blank(r) && done != Degraded
    ensures var heard' := heard || Marked(text, StageNotes(w, stage, reading, keepNotes));
            match OutcomeOf(w, stage, reading, allowed)
            case Projected(v) => value == Some(v) && Blank(r') && Tidy(text, r', degraded, heard')
            case FellBack => value.None? && Blank(r') && Tidy(text, r', true, heard')
            case Broken(t) => value.None? && FailedWith(r', t.code, t.fault) && Tidy(text, r', degraded, heard')
  {
    r' := Note(text, r, Staged(EnabledFlag, stage), degraded, heard);
    r' := Note(text, r', Staged(RequiredFlag, stage), degraded, heard);
    r' := Note(text, r', Valued(SchemaVersion, stage, version), degraded, heard);
    var call: Option<BridgeCall>;
    r', call := ConsumeBridge(text, w, r', stage, allowed, degraded, heard);
    if call.None? {
      return r', None;
    }
    r', value := ReadReply(text, r', stage, reading, keepNotes, allowed, done, degraded,
                            heard || Marked(text, BridgeNotes(w, stage)));
  }

  // ----- The pipeline -----

  /** Perception: the rules run first; the model's reading, when enabled, is the one that counts. */
  method RunPerception(text: Text, w: World, s: Setup) returns (r: Result, perception: Option<Perception>)
    ensures var heard := Marked(text, PerceptionNotes(w, s));
            match PerceptionStep(w, s)
            case Stop(v) => perception.None? && Reports(r, v) && Tidy(text, r, v.degraded, heard)
            case Go(p, degraded) => perception == Some(p) && Blank(r) && Tidy(text, r, degraded, heard)
  {
    r, perception := EMPTY, None;
    if w.perceive.TimedOut? {
      r := ApplyFailure(text, r, RUNTIME_RETRY_EXHAUSTED, StageTimeout(Perceiving), Staged(TimedOutAt, Perceiving),
                        false, false);
      return;
    }
    var rule := w.perceive.value;
    if rule.None? {
      if !s.perceptionLlm && s.fallback {
        r := Note(text, r.(action := Some(Clarify(PerceptionMissing))), Degraded, false, false);
        r := Note(text, r, PerceptionUnavailable, true, false);
        return;
      }
      if s.perceptionLlm {
        r := Note(text, r, PerceptionShadowUnavailable, false, false);
      }
      if !s.perceptionLlm {
        r := ApplyFailure(text, r, RUNTIME_RETRY_EXHAUSTED, NoPerception, PerceptionUnavailable, false, false);
        return;
      }
    }
    if !s.perceptionLlm {
      r := NoteEach(text, r, rule.value.diagnostics, false, false);
      return r, rule;
    }
    r, perception := PerceiveByModel(text, w, s, r, rule);
  }

  method PerceiveByModel(text: Text, w: World, s: Setup, r: Result, rule: Option<Perception>)
    returns (r': Result, perception: Option<Perception>)
    requires s.perceptionLlm && w.perceive.Returned? && rule == w.perceive.value
    requires Tidy(text, r, false, false) && Blank(r)
    ensures var heard := Marked(text, PerceptionNotes(w, s));
            match PerceptionStep(w, s)
            case Stop(v) => perception.None? && Reports(r', v) && Tidy(text, r', v.degraded, heard)
            case Go(p, degraded) => perception == Some(p) && Blank(r') && Tidy(text, r', degraded, heard)
  {
    ghost var heard := Marked(text, StageNotes(w, Perceiving, w.readPerception, false));
    ghost var heard' := Marked(text, PerceptionNotes(w, s));
    var projected: Option<Perception>;
    r', projected := StructuredStage(text, w, r, Perceiving, w.readPerception, false, s.fallback && rule.Some?,
                                     "cognition.perception.v1", ProjectedPerception, false, false);
    if r'.fault.Some? {
      return r', None;
    }
    if projected.None? {
      if rule.None? {
        assert false;
      }
      r' := NoteEach(text, r', rule.value.diagnostics, true, heard);
      return r', rule;
    }
    var p := projected.value;
    r' := NoteEach(text, r', p.diagnostics, false, heard);
    if p.requiresClarification {
      r' := Note(text, r'.(action := Some(Clarify(PerceptionAsks))), ClarificationRequired, false, heard');
      return r', None;
    }
    if rule.Some? && w.disagree(p, rule.value) {
      r' := Note(text, r'.(action := Some(Clarify(PerceptionConflict))), ConflictFound, false, heard');
      return r', None;
    }
    perception := Some(p);
  }

  /** Planning. The local planner is reached only with fallback enabled, so its failure branch is dead. */
  method RunPlanning(text: Text, w: World, s: Setup, r: Result, p: Perception, ghost degraded: bool, ghost heard: bool)
    returns (r': Result, plan: Option<Plan>)
    requires Tidy(text, r, degraded, heard) && Blank(r)
    ensures var heard' := heard || Marked(text, StageNotes(w, Planning, PlanReading(w, s), true));
            match PlanStep(w, s, p, degraded)
            case Stop(v) => plan.None? && Reports(r', v) && Tidy(text, r', v.degraded, heard')
            case Go(found, degraded') => plan == Some(found) && Blank(r') && Tidy(text, r', degraded', heard')
  {
    ghost var heard' := heard || Marked(text, StageNotes(w, Planning, PlanReading(w, s), true));
    r', plan := StructuredStage(text, w, r, Planning, PlanReading(w, s), true, s.fallback,
                                "cognition.plan.v1", ProjectedPlan, degraded, heard);
    if r'.fault.Some? || plan.Some? {
      return;
    }
    var local := w.buildPlan(p);
    if local.TimedOut? {
      r' := ApplyFailure(text, r', RUNTIME_RETRY_EXHAUSTED, StageTimeout(Planning), Staged(TimedOutAt, Planning), true,
                         heard');
      return;
    }
    var check := w.checkPlan(local.value, s.limits);
    if check.Invalid? {
      if s.fallback {
        r' := Note(text, r'.(action := Some(Clarify(PlanRejected))), Degraded, true, heard');
        r' := Note(text, r', PlanValidationFailed, true, heard');
        return;
      }
      assert false;
    }
    plan := Some(local.value);
  }

  /** Execution. The local reasoner, too, is reached only with fallback enabled. */
  method RunExecution(text: Text, w: World, s: Setup, r: Result, p: Perception, plan: Plan, ghost degraded: bool,
                      ghost heard: bool)
    returns (r': Result)
    requires Tidy(text, r, degraded, heard) && Blank(r)
    ensures var v := ActionStep(w, s, p, plan, degraded);
            Reports(r', v) && Tidy(text, r', v.degraded,
                                   heard || Marked(text, StageNotes(w, Executing, ActionReading(w, plan), true)))
  {
    ghost var heard' := heard || Marked(text, StageNotes(w, Executing, ActionReading(w, plan), true));
    var action: Option<Action>;
    r', action := StructuredStage(text, w, r, Executing, ActionReading(w, plan), true, s.fallback,
                                  "cognition.reasoning.v1", ProjectedAction, degraded, heard);
    if r'.fault.Some? {
      return;
    }
    ghost var degraded' := degraded || action.None?;
    var choice: Choice;
    if action.Some? {
      choice := Act(action.value);
    } else {
      var local := w.decide(p, plan);
      if local.TimedOut? {
        r' := ApplyFailure(text, r', RUNTIME_RETRY_EXHAUSTED, StageTimeout(Executing), Staged(TimedOutAt, Executing),
                           true, heard');
        return;
      }
      if w.checkAction(local.value, plan).Valid? {
        choice := Act(local.value);
      } else {
        if !s.fallback {
          assert false;
        }
        choice := ConvergeSafe;
        r' := Note(text, r', Degraded, true, heard');
        r' := Note(text, r', ActionValidationFailed, true, heard');
      }
    }
    r' := Note(text, r'.(action := Some(choice)), Completed, degraded', heard');
  }

  /**
   The whole pipeline: exactly one of an action and an error, the one `Decision` names;
   no diagnostic twice; the degraded mark exactly when a fallback was taken, or some stage on
   the way wrote it of its own accord.
   */
  method RunDecisionPipeline(text: Text, w: World) returns (r: Result)
    ensures Reports(r, Decision(w))
    ensures r.action.Some? <==> r.fault.None?
    ensures Clean(r.diagnostics)
    ensures DistinctMark(text) ==> (Marked(text, r.diagnostics) <==> Decision(w).degraded || Marked(text, Heard(w)))
  {
    r := EMPTY;
    var setup := SetupOf(w);
    if setup.None? {
      r := ApplyFailure(text, r, POLICY_DENIED, NoPlanFromPolicy, PolicyProjectionFailed, false, false);
      return;
    }
    if HintsMissingFor(w) {
      r := ApplyFailure(text, r, POLICY_DENIED, HintsMissing, PolicyHintsMissing, false, false);
      return;
    }
    var s := setup.value;
    var perception: Option<Perception>;
    r, perception := RunPerception(text, w, s);
    ghost var heard := Marked(text, PerceptionNotes(w, s));
    if r.fault.Some? || r.action.Some? {
      return;
    }
    if perception.None? {
      assert false;
    }
    ghost var step := PerceptionStep(w, s);
    var plan: Option<Plan>;
    r, plan := RunPlanning(text, w, s, r, perception.value, step.degraded, heard);
    if r.fault.Some? || r.action.Some? {
      return;
    }
    ghost var step' := PlanStep(w, s, perception.value, step.degraded);
    r := RunExecution(text, w, s, r, perception.value, plan.value, step'.degraded,
                      heard || Marked(text, StageNotes(w, Planning, PlanReading(w, s), true)));
  }
}
