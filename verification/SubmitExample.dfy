/** Two submissions of one packet whose callers are told different things. */
module SubmitExample {
  import opened AccessTypes
  import opened ByteText
  import opened Wrappers
  import opened RequestChecks
  import opened SubmitSpec
  import AdmissionSpec
  import Admission
  import AsyncRegistrySpec

  const LETTER: Bytes := [0x61]

  const PACKET := Packet(LETTER, LETTER, LETTER, [], map[], None, None, None)

  const EMPTY_REF := DispatchResult(AcceptedAsync, Some([]), None, map[])

  const BACKEND: DispatchRequest -> DispatchResult := r => EMPTY_REF

  /** A call with the given policy decision. */
  function CallWith(decision: Bytes): Call {
    Call(PACKET, Passed(LETTER, decision), 0, AsyncRegistrySpec.Clock(0, 0, 1), (n, r) => LETTER,
         Runtime(r => true, Some(BACKEND)))
  }

  lemma WordCharRange(c: char)
    requires 'a' <= c <= 'z' || c == '_'
    ensures c as int % 256 == 0x5f || 0x61 <= c as int % 256 <= 0x7a
  {
    assert c as int < 256;
  }

  lemma WordByteRange(s: string, i: nat)
    requires IsWord(s) && i < |s|
    ensures Ascii(s)[i] as int == 0x5f || 0x61 <= Ascii(s)[i] as int <= 0x7a
  {
    var c := s[i];
    WordCharRange(c);
    AsciiAt(s, i);
  }

  lemma KeyByte(b: Byte)
    requires b as int == 0x5f || 0x61 <= b as int <= 0x7a
    ensures IsKeyChar(b) && !IsNewline(b)
  {
    if b as int == 0x5f {
      SameByte(b, 0x5f);
    }
    DifferentBytes(b, 0x0a);
    DifferentBytes(b, 0x0d);
  }

  lemma WordIsGoodKey(s: string)
    requires IsWord(s) && 0 < |s| <= 128
    ensures GoodEntry(Ascii(s), LETTER)
  {
    forall i | 0 <= i < |s| ensures IsKeyChar(Ascii(s)[i]) && !IsNewline(Ascii(s)[i]) {
      WordByteRange(s, i);
      KeyByte(Ascii(s)[i]);
    }
    assert !IsNewline(LETTER[0]);
  }

  lemma ContextIsGood()
    ensures GoodContext(PacketContext(PACKET))
  {
    WordIsGoodKey("request_id");
    WordIsGoodKey("idempotency_key");
    assert Headers(PACKET) == map[];
    forall k | k in PacketContext(PACKET) ensures GoodEntry(k, PacketContext(PACKET)[k]) {
      assert k == REQUEST_ID || k == IDEMPOTENCY_KEY;
    }
  }

  /** No limit is set, there is room for a request, and its window does not end before it begins. */
  predicate Permissive(cfg: Settings) {
    cfg.limits == Limits(0, 0, []) && cfg.admission.maxInflight > 0 && cfg.admission.windowMs >= 0
  }

  lemma CallAsks(cfg: Settings, decision: Bytes)
    requires Permissive(cfg)
    ensures Asks(cfg, CallWith(decision), Admission.Signature(Request(CallWith(decision))))
  {
    ContextIsGood();
    assert Acceptable(cfg.limits, Request(CallWith(decision)));
  }

  lemma FirstIsAdmitted(c: AdmissionSpec.Config, signature: Bytes, now: int)
    requires c.maxInflight > 0 && signature != []
    ensures AdmissionSpec.Admit(c, AdmissionSpec.INITIAL, signature, now).1.Admitted?
  {
    assert AdmissionSpec.Prune(AdmissionSpec.INITIAL.records, now) == map[];
  }

  lemma FirstIsDispatched(cfg: Settings, registry: Registry, decision: Bytes)
    requires Permissive(cfg)
    ensures var s, call := Sys(AdmissionSpec.INITIAL, registry), CallWith(decision);
            var outcome := Submit(cfg, s, call).2;
            outcome.Dispatched? && outcome.signature == Admission.Signature(Request(call))
            && Identified(Request(call))
  {
    var call := CallWith(decision);
    var signature := Admission.Signature(Request(call));
    CallAsks(cfg, decision);
    SubmitAsked(cfg, Sys(AdmissionSpec.INITIAL, registry), call, signature);
    FirstIsAdmitted(cfg.admission, signature, call.now);
  }

  function TwoCalls(cfg: Settings, registry: Registry, call: Call): Log {
    var s0 := Sys(AdmissionSpec.INITIAL, registry);
    var (s1, result1, outcome1) := Submit(cfg, s0, call);
    var (s2, result2, outcome2) := Submit(cfg, s1, call);
    Log([call, call], [s0, s1, s2], [result1, result2], [outcome1, outcome2])
  }

  lemma TwoCallsRun(cfg: Settings, registry: Registry, call: Call)
    ensures IsRun(cfg, TwoCalls(cfg, registry, call)) && Clocked(TwoCalls(cfg, registry, call))
  {
  }

  lemma CallsAgree(cfg: Settings, registry: Registry, decision: Bytes)
    requires Permissive(cfg)
    ensures var r := TwoCalls(cfg, registry, CallWith(decision));
            r.outcomes[0].Dispatched?
            && (r.results[1].receiptRef == r.results[0].receiptRef <==> AgreeingReply(registry, r.outcomes[0].reply))
            && (r.results[1].disposition == r.results[0].disposition <==>
                  r.outcomes[0].reply.disposition == AcceptedAsync && AsyncRegistrySpec.ValidKey(registry.current))
  {
    var call := CallWith(decision);
    TwoCallsRun(cfg, registry, call);
    FirstIsDispatched(cfg, registry, decision);
    CallAsks(cfg, decision);
    AgreementExactly(cfg, TwoCalls(cfg, registry, call), 0, 1);
  }

  /** The failing case of the agreement of ids: accepted, with an empty receipt reference. */
  lemma EmptyReceiptDisagrees(cfg: Settings, registry: Registry)
    requires Permissive(cfg) && AsyncRegistrySpec.ValidKey(registry.current)
    ensures var r := TwoCalls(cfg, registry, CallWith(ALLOW));
            IsRun(cfg, r) && AcceptedWithReceipt(cfg, r.systems[0], r.calls[0])
            && r.results[1].receiptRef != r.results[0].receiptRef
  {
    var call := CallWith(ALLOW);
    TwoCallsRun(cfg, registry, call);
    CallsAgree(cfg, registry, ALLOW);
    FirstAnswer(cfg, Sys(AdmissionSpec.INITIAL, registry), call);
    NormalIsReady(Request(call), call.newId, call.runtime);
  }

  /** The failing case of the agreement of dispositions: a dispatch the bridge rejects is replayed as accepted. */
  lemma RejectedIsReplayedAccepted(cfg: Settings, registry: Registry, decision: Bytes)
    requires Permissive(cfg) && decision != ALLOW
    ensures var r := TwoCalls(cfg, registry, CallWith(decision));
            IsRun(cfg, r) && r.outcomes[0].Dispatched? && r.results[0] == Rejection(AuthorizationDenied)
            && r.results[1] == ReplayResult(Some(cfg.admission.receiptName(r.outcomes[0].ticketRef)))
  {
    var call := CallWith(decision);
    var r := TwoCalls(cfg, registry, call);
    TwoCallsRun(cfg, registry, call);
    FirstIsDispatched(cfg, registry, decision);
    FirstAnswer(cfg, Sys(AdmissionSpec.INITIAL, registry), call);
    NormalIsReady(Request(call), call.newId, call.runtime);
    CallAsks(cfg, decision);
    RepeatIsReplayed(cfg, r, 0, 1);
  }

  /** Without a valid key, too: the first caller gets an internal error, a repeat an accepted receipt. */
  lemma KeylessIsReplayedAccepted(cfg: Settings, registry: Registry)
    requires Permissive(cfg) && !AsyncRegistrySpec.ValidKey(registry.current)
    ensures var r := TwoCalls(cfg, registry, CallWith(ALLOW));
            IsRun(cfg, r) && r.outcomes[0].Dispatched? && r.results[0] == Rejection(InternalError)
            && r.results[1] == ReplayResult(Some([]))
  {
    var call := CallWith(ALLOW);
    var r := TwoCalls(cfg, registry, call);
    TwoCallsRun(cfg, registry, call);
    FirstIsDispatched(cfg, registry, ALLOW);
    FirstAnswer(cfg, Sys(AdmissionSpec.INITIAL, registry), call);
    NormalIsReady(Request(call), call.newId, call.runtime);
    CallAsks(cfg, ALLOW);
    RepeatIsReplayed(cfg, r, 0, 1);
  }
}
