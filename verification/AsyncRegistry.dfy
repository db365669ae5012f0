/** The asynchronous task registry: the class that steps the receipt state machine in place. */
module AsyncRegistry {
  import opened AccessTypes
  import opened AsyncRegistrySpec
  import opened ByteText
  import opened OwnershipToken
  import opened Wrappers
  import Hmac
  import HmacSpec

  const SIGN: Signer := (key, message) => HmacSpec.Signature(key, message)

  /** HMAC in base64url meets what the registry theorems ask of signatures. */
  lemma HmacIsGood()
    ensures GoodSigner(SIGN)
  {
    forall k, m ensures Avoids(SIGN(k, m), DOT) && Avoids(SIGN(k, m), 0) {
      HmacSpec.SignatureShape(k, m);
    }
  }

  method Sign(key: Bytes, message: Bytes) returns (signature: Bytes)
    ensures signature == SIGN(key, message)
  {
    signature := Hmac.Sign(key, message);
  }

  function RequestId(r: DispatchRequest): Bytes {
    ContextValue(r.context, REQUEST_ID).GetOr(r.packet.packetId)
  }

  /** A receipt reference of the backend names the receipt, unless it is absent or empty. */
  function ReceiptId(r: DispatchRequest, result: DispatchResult): Bytes {
    if result.receiptRef.Some? && result.receiptRef.value != [] then result.receiptRef.value
    else RECEIPT_PREFIX + RequestId(r)
  }

  function AcceptOf(r: DispatchRequest, result: DispatchResult): Accept {
    var requestId := RequestId(r);
    Accept(ReceiptId(r, result), requestId,
           ContextValue(r.context, SESSION_ID).GetOr(Ascii("session:") + requestId),
           r.actorRef, result.receiptRef.GetOr(Ascii("task:") + requestId))
  }

  /** What the receipt of an accepted result says: ids of the context where it has them, and made-up ones elsewhere. */
  lemma AcceptExactly(r: DispatchRequest, result: DispatchResult)
    ensures var a, named := AcceptOf(r, result), REQUEST_ID in r.context && r.context[REQUEST_ID] != [];
            var inSession := SESSION_ID in r.context && r.context[SESSION_ID] != [];
            a.actorRef == r.actorRef && a.requestId == (if named then r.context[REQUEST_ID] else r.packet.packetId)
            && a.sessionId == (if inSession then r.context[SESSION_ID] else Ascii("session:") + a.requestId)
            && (result.receiptRef.Some? ==> a.taskRef == result.receiptRef.value)
            && (result.receiptRef.None? ==> a.taskRef == Ascii("task:") + a.requestId)
            && (result.receiptRef.GetOr([]) != [] ==> a.receiptId == result.receiptRef.value)
            && (result.receiptRef.GetOr([]) == [] ==> a.receiptId == RECEIPT_PREFIX + a.requestId)
  {
  }

  lemma XorZero(x: Byte, y: Byte)
    ensures x ^ y == 0 <==> x == y
  {
  }

  lemma OrZero(x: Byte, y: Byte)
    ensures x | y == 0 <==> x == 0 && y == 0
  {
  }

  /** One bit pattern gathers every difference; the lengths enter it only by their low 8 bits. */
  method ConstantTimeEquals(lhs: Bytes, rhs: Bytes) returns (equal: bool)
    ensures equal <==> Same(lhs, rhs)
  {
    var maxSize := Longer(lhs, rhs);
    var diff := ToByte(|lhs|) ^ ToByte(|rhs|);
    XorZero(ToByte(|lhs|), ToByte(|rhs|));
    SameLowByte(|lhs|, |rhs|);
    for index := 0 to maxSize
      invariant diff == 0 <==> |lhs| % 256 == |rhs| % 256
                               && forall i :: 0 <= i < index ==> ByteOrZero(lhs, i) == ByteOrZero(rhs, i)
    {
      diff := Gather(diff, ByteOrZero(lhs, index), ByteOrZero(rhs, index));
    }
    equal := diff == 0;
  }

  method Gather(diff: Byte, left: Byte, right: Byte) returns (gathered: Byte)
    ensures gathered == 0 <==> diff == 0 && left == right
  {
    gathered := diff | (left ^ right);
    XorZero(left, right);
    OrZero(diff, left ^ right);
  }

  lemma SameLowByte(m: nat, n: nat)
    ensures ToByte(m) == ToByte(n) <==> m % 256 == n % 256
  {
  }

  class AsyncTaskRegistry {
    var receiptTtl: int
    var currentKey: Key
    var previousKey: Option<Key>
    var receipts: map<Bytes, StoredReceipt>

    function View(): State
      reads this
    {
      State(receiptTtl, currentKey, previousKey, receipts)
    }

    constructor (current: Key, previous: Option<Key>, ttl: int)
      ensures View() == Create(current, previous, ttl) && Honest(SIGN, View())
    {
      receiptTtl, receipts := if ttl <= 0 then DEFAULT_TTL else ttl, map[];
      currentKey := if ValidKey(current) then current else NO_KEY;
      previousKey := if previous.Some? && ValidKey(previous.value) then previous else None;
    }

    method RotateOwnershipKeys(current: Key, previous: Option<Key>)
      modifies this`currentKey, this`previousKey
      ensures View() == Rotate(old(View()), current, previous)
    {
      currentKey := if ValidKey(current) then current else NO_KEY;
      previousKey := if previous.Some? && ValidKey(previous.value) then previous else None;
    }

    method BuildOwnershipToken(f: Fields) returns (token: Bytes)
      requires ValidKey(currentKey)
      ensures token == IssueToken(SIGN, currentKey, f)
    {
      var payload := BuildPayload(f);
      var signature := Sign(currentKey.secret, payload);
      token := payload + [DOT] + signature;
    }

    method BuildReceipt(a: Accept, clock: Clock) returns (receipt: Receipt)
      requires ValidKey(currentKey)
      ensures receipt == NewReceipt(SIGN, View(), a, clock)
    {
      var token := BuildOwnershipToken(IssueFields(View(), a, clock.unix));
      receipt := Receipt(a.receiptId, a.requestId, a.sessionId, a.actorRef, a.taskRef,
                         clock.check + receiptTtl, token, PENDING);
    }

    method StoreReceipt(a: Accept, clock: Clock) returns (receipt: Option<Receipt>)
      modifies this`receipts
      ensures (View(), receipt) == Register(SIGN, old(View()), a, clock)
    {
      if !ValidKey(currentKey) {
        return None;
      }
      var stored := BuildReceipt(a, clock);
      receipts := receipts[a.receiptId := StoredReceipt(stored, PENDING)];
      receipt := Some(stored);
    }

    method RegisterAsyncAccept(r: DispatchRequest, result: DispatchResult, clock: Clock)
      returns (receipt: Option<Receipt>)
      modifies this`receipts
      ensures result.disposition != AcceptedAsync ==> View() == old(View()) && receipt == None
      ensures result.disposition == AcceptedAsync ==>
                (View(), receipt) == Register(SIGN, old(View()), AcceptOf(r, result), clock)
    {
      if result.disposition != AcceptedAsync {
        return None;
      }
      receipt := StoreReceipt(AcceptOf(r, result), clock);
    }

    /** Expired receipts are erased one by one, in any order. */
    method PruneExpiredLocked(now: int) returns (removed: nat)
      modifies this`receipts
      ensures View() == Prune(old(View()), now)
      ensures removed == |old(receipts)| - |receipts|
    {
      removed := 0;
      ghost var before := receipts;
      var pending := receipts.Keys;
      while pending != {}
        invariant pending <= receipts.Keys <= before.Keys
        invariant forall id :: id in receipts ==> receipts[id] == before[id]
        invariant forall id :: id in before && id !in pending ==> (id in receipts <==> !Expired(before[id], now))
        invariant removed == |before| - |receipts|
        decreases |pending|
      {
        var id :| id in pending;
        if Expired(receipts[id], now) {
          receipts := receipts - {id};
          removed := removed + 1;
        }
        pending := pending - {id};
      }
    }

    method QueryReceipt(id: Bytes, now: int) returns (status: QueryStatus, receipt: Option<Receipt>)
      modifies this`receipts
      ensures (View(), status, receipt) == Query(old(View()), id, now)
    {
      if id !in receipts {
        return NotFound, None;
      }
      if Expired(receipts[id], now) {
        receipts := receipts - {id};
        return ReceiptExpired, None;
      }
      return Found, Some(receipts[id].receipt);
    }

    method MarkCompleted(id: Bytes, taskStatus: Bytes, clock: Clock) returns (marked: bool)
      modifies this`receipts
      ensures (View(), marked) == AsyncRegistrySpec.MarkCompleted(old(View()), id, taskStatus, clock)
    {
      var _ := PruneExpiredLocked(clock.prune);
      if id !in receipts {
        return false;
      }
      if Expired(receipts[id], clock.check) {
        receipts := receipts - {id};
        return false;
      }
      var r := receipts[id].receipt;
      receipts := receipts[id := StoredReceipt(r.(initialStatus := taskStatus), taskStatus)];
      return true;
    }

    /** The checks of a token against a live receipt. */
    method CheckToken(r: Receipt, actorRef: Bytes, token: Bytes, unix: int) returns (valid: bool)
      ensures valid <==> TokenHolds(SIGN, View(), r, actorRef, token, unix)
    {
      if r.actorRef != actorRef {
        return false;
      }
      var parsed := ParseToken(token);
      if parsed.None? || !TokenMatches(parsed.value, r, unix) {
        return false;
      }
      var p := parsed.value;
      var signingKey := LookupKey(View(), p.fields.keyId);
      if signingKey.None? || !ValidKey(signingKey.value) {
        return false;
      }
      var expected := Sign(signingKey.value.secret, p.signedPayload);
      var signatureEqual := ConstantTimeEquals(expected, p.signature);
      var tokenEqual := ConstantTimeEquals(r.ownershipToken, token);
      return signatureEqual && tokenEqual;
    }

    method ValidateOwnership(id: Bytes, actorRef: Bytes, token: Bytes, clock: Clock) returns (valid: bool)
      modifies this`receipts
      ensures (View(), valid) == Validate(SIGN, old(View()), id, actorRef, token, clock)
    {
      if !ValidKey(currentKey) {
        return false;
      }
      var _ := PruneExpiredLocked(clock.prune);
      if id !in receipts {
        return false;
      }
      if Expired(receipts[id], clock.check) {
        receipts := receipts - {id};
        return false;
      }
      valid := CheckToken(receipts[id].receipt, actorRef, token, clock.unix);
    }

    method Size(now: int) returns (size: nat)
      modifies this`receipts
      ensures View() == Prune(old(View()), now) && size == |receipts|
    {
      var _ := PruneExpiredLocked(now);
      size := |receipts|;
    }

    predicate Enabled()
      reads this
    {
      ValidKey(currentKey)
    }
  }
}
