/** The admission controller: the class that steps the admission state machine in place. */
module Admission {
  import opened AccessTypes
  import opened AdmissionSpec
  import opened ByteText
  import opened Signatures
  import opened Widths
  import opened Wrappers

  const BAR: Bytes := [0x7c]

  /** An explicit idempotency key wins over the packet id; without a key, both packet id and actor are needed. */
  function Signature(r: DispatchRequest): Bytes {
    var prefix := r.packet.entryType + BAR + r.packet.protocolKind + BAR + r.actorRef + BAR;
    var key := ContextValue(r.context, IDEMPOTENCY_KEY);
    if key.Some? then prefix + key.value
    else if r.packet.packetId == [] || r.actorRef == [] then []
    else prefix + r.packet.packetId
  }

  lemma SignatureEmpty(r: DispatchRequest)
    ensures Signature(r) == [] <==>
              ContextValue(r.context, IDEMPOTENCY_KEY).None? && (r.packet.packetId == [] || r.actorRef == [])
  {
    assert |BAR| == 1;
  }

  // ----- Which requests share a signature -----

  /** The key that tells one actor's requests apart: the explicit one of the context, if any, or the packet id. */
  function EffectiveKey(r: DispatchRequest): Bytes {
    if IDEMPOTENCY_KEY in r.context && r.context[IDEMPOTENCY_KEY] != [] then r.context[IDEMPOTENCY_KEY]
    else r.packet.packetId
  }

  /** What a submission is known by: entry type, protocol, actor and key. */
  function PartsOf(r: DispatchRequest): Parts {
    Parts(r.packet.entryType, r.packet.protocolKind, r.actorRef, EffectiveKey(r))
  }

  lemma SignatureJoins(r: DispatchRequest)
    requires Signature(r) != []
    ensures Signature(r) == Joined(PartsOf(r), 0x7c) && EffectiveKey(r) != []
  {
    var p, q, a, k := r.packet.entryType, r.packet.protocolKind, r.actorRef, EffectiveKey(r);
    assert p + BAR + q + BAR + a + BAR + k == p + [0x7c] + (q + [0x7c] + (a + [0x7c] + k));
  }

  /**
   Two requests with signatures share one exactly when entry type, protocol, actor and key are
   all the same, as long as no bar stands before the key.
   */
  lemma SignatureExactly(a: DispatchRequest, b: DispatchRequest)
    requires Signature(a) != [] && Signature(b) != [] && Plain(PartsOf(a), 0x7c) && Plain(PartsOf(b), 0x7c)
    ensures Signature(a) == Signature(b) <==> PartsOf(a) == PartsOf(b)
  {
    SignatureJoins(a);
    SignatureJoins(b);
    if Signature(a) == Signature(b) {
      JoinedPlain(PartsOf(a), PartsOf(b), 0x7c);
    }
  }

  /** The failing case: with a bar in it, the end of one actor's name reads as the start of another's key. */
  lemma BarCollides(a: DispatchRequest, b: DispatchRequest, y: Bytes)
    requires Signature(a) != [] && Signature(b) != []
    requires a.packet.entryType == b.packet.entryType && a.packet.protocolKind == b.packet.protocolKind
    requires a.actorRef == b.actorRef + [0x7c] + y && EffectiveKey(b) == y + [0x7c] + EffectiveKey(a)
    ensures Signature(a) == Signature(b) && a.actorRef != b.actorRef
  {
    SignatureJoins(a);
    SignatureJoins(b);
    Associate(b.actorRef, y, EffectiveKey(a), 0x7c);
    assert |a.actorRef| > |b.actorRef|;
  }

  /** The request with other parts, and an explicit key. */
  function WithParts(r: DispatchRequest, p: Parts): DispatchRequest {
    r.(packet := r.packet.(entryType := p.entryType, protocolKind := p.protocolKind), actorRef := p.actorRef,
       context := map[IDEMPOTENCY_KEY := p.key])
  }

  lemma WithPartsSigns(r: DispatchRequest, p: Parts)
    requires p.key != []
    ensures PartsOf(WithParts(r, p)) == p && Signature(WithParts(r, p)) != []
  {
    SignatureEmpty(WithParts(r, p));
  }

  /**
   Of all requests there are, only those with the same four parts share the signature of `a`,
   exactly when no bar stands in its parts but perhaps as the last byte of the key.
   */
  lemma UnsharedExactly(a: DispatchRequest)
    requires Signature(a) != []
    ensures (forall b :: Signature(b) == Signature(a) ==> PartsOf(b) == PartsOf(a)) <==> Unmistakable(PartsOf(a), 0x7c)
  {
    SignatureJoins(a);
    if Unmistakable(PartsOf(a), 0x7c) {
      forall b | Signature(b) == Signature(a) ensures PartsOf(b) == PartsOf(a) {
        SignatureJoins(b);
        Unmistaken(PartsOf(a), PartsOf(b), 0x7c);
      }
    } else {
      var p := Mistaken(PartsOf(a), 0x7c);
      var b := WithParts(a, p);
      WithPartsSigns(a, p);
      SignatureJoins(b);
      assert Signature(b) == Signature(a);
    }
  }

  function TicketName(n: nat): Bytes {
    Ascii("ticket-") + Digits(n)
  }

  function ReceiptName(ticketRef: Bytes): Bytes {
    Ascii("receipt-for-") + ticketRef
  }

  function Settings(windowMs: int, maxInflight: int): Config {
    Config(windowMs, maxInflight, TicketName, ReceiptName)
  }

  /** Ticket names are distinct for distinct numbers, as the run theorems of `AdmissionSpec` ask. */
  lemma TicketNamesDistinct(windowMs: int, maxInflight: int)
    ensures DistinctNames(Settings(windowMs, maxInflight))
  {
    forall a: nat, b: nat | TicketName(a) == TicketName(b) ensures a == b {
      assert TicketName(a)[7..] == Digits(a) && TicketName(b)[7..] == Digits(b);
      DigitsInjective(a, b);
    }
    var c := Settings(windowMs, maxInflight);
    forall a: nat, b: nat | c.ticketName(a) == c.ticketName(b) ensures a == b {
      assert TicketName(a) == TicketName(b);
    }
  }

  class AdmissionController {
    const config: Config
    var ticketCounter: nat
    var inflightTickets: map<Bytes, Ticket>
    var idempotencyRecords: map<Bytes, Record>

    function View(): State
      reads this
    {
      State(ticketCounter, inflightTickets, idempotencyRecords)
    }

    constructor (windowMs: int, maxInflight: int)
      ensures View() == INITIAL && config == Settings(windowMs, maxInflight)
    {
      config := Settings(windowMs, maxInflight);
      ticketCounter, inflightTickets, idempotencyRecords := 0, map[], map[];
    }

    /** The loop erases stale records one by one, in any order. */
    method PruneExpiredRecords(now: int)
      modifies this`idempotencyRecords
      ensures idempotencyRecords == Prune(old(idempotencyRecords), now)
    {
      ghost var before := idempotencyRecords;
      var pending := idempotencyRecords.Keys;
      while pending != {}
        invariant pending <= idempotencyRecords.Keys <= before.Keys
        invariant forall k :: k in idempotencyRecords ==> idempotencyRecords[k] == before[k]
        invariant forall k :: k in before && k !in pending ==>
                                (k in idempotencyRecords <==> !Stale(before[k], now))
        decreases |pending|
      {
        var k :| k in pending;
        if Stale(idempotencyRecords[k], now) {
          idempotencyRecords := idempotencyRecords - {k};
        }
        pending := pending - {k};
      }
    }

    method AcquireInflightTicket(signature: Bytes, now: int) returns (ticket: Ticket)
      modifies this`ticketCounter, this`inflightTickets
      ensures ticketCounter == NextNumber(old(View()))
      ensures ticket == Ticket(config.ticketName(ticketCounter), signature, now)
      ensures inflightTickets == old(inflightTickets)[ticket.ref := ticket]
    {
      ticketCounter := if ticketCounter + 1 == TWO64 then 0 else ticketCounter + 1;
      ticket := Ticket(config.ticketName(ticketCounter), signature, now);
      inflightTickets := inflightTickets[ticket.ref := ticket];
    }

    method AdmitRequest(r: DispatchRequest, now: int) returns (answer: Answer)
      modifies this
      ensures (View(), answer) == Admit(config, old(View()), Signature(r), now)
    {
      PruneExpiredRecords(now);
      if config.maxInflight <= 0 || |inflightTickets| >= config.maxInflight {
        return LIMIT;
      }
      var signature := Signature(r);
      if signature == [] {
        return Refused(NoSignature, None, None);
      }
      var existing := CheckIdempotency(idempotencyRecords, signature, now);
      if existing.Some? {
        return existing.value;
      }
      var ticket := AcquireInflightTicket(signature, now);
      idempotencyRecords := idempotencyRecords[
        signature := Record(signature, Some(ticket.ref), false, None, now + config.windowMs)];
      answer := Admitted(ticket.ref);
    }

    method ReleaseTicket(ref: Bytes)
      modifies this`inflightTickets, this`idempotencyRecords
      ensures View() == Release(old(View()), ref)
    {
      if ref !in inflightTickets {
        return;
      }
      var signature := inflightTickets[ref].signature;
      inflightTickets := inflightTickets - {ref};
      if signature in idempotencyRecords && !idempotencyRecords[signature].completed {
        idempotencyRecords := idempotencyRecords - {signature};
      }
    }

    method RecordCompletion(ref: Bytes, result: DispatchResult)
      modifies this`inflightTickets, this`idempotencyRecords
      ensures View() == Complete(config, old(View()), ref, result.receiptRef)
    {
      if ref !in inflightTickets {
        return;
      }
      var signature := inflightTickets[ref].signature;
      if signature in idempotencyRecords {
        var record := idempotencyRecords[signature];
        idempotencyRecords := idempotencyRecords[
          signature := record.(completed := true, inflightRef := None,
                               replayRef := Some(result.receiptRef.GetOr(config.receiptName(ref))))];
      }
      inflightTickets := inflightTickets - {ref};
    }
  }
}
