/**
 Asynchronous receipts and their ownership tokens, under expiry, overwriting and key rotation.

 The signature function is a parameter; all the theorems ask of it is that signatures
 hold no dot and no zero byte.
 */
module AsyncRegistrySpec {
  import opened ByteText
  import opened Wrappers
  import opened OwnershipToken
  import opened Splitting
  import Base64Url

  type Signer = (Bytes, Bytes) -> Bytes

  ghost predicate GoodSigner(sign: Signer) {
    forall k, m {:trigger sign(k, m)} :: Avoids(sign(k, m), DOT) && Avoids(sign(k, m), 0)
  }

  datatype Key = Key(keyId: Bytes, secret: Bytes)

  const NO_KEY := Key([], [])

  predicate ValidKey(k: Key) {
    k.keyId != [] && k.secret != []
  }

  datatype Receipt = Receipt(
    receiptId: Bytes,
    requestId: Bytes,
    sessionId: Bytes,
    actorRef: Bytes,
    taskRef: Bytes,
    expiresAt: int,
    ownershipToken: Bytes,
    initialStatus: Bytes
  )

  datatype StoredReceipt = StoredReceipt(receipt: Receipt, taskStatus: Bytes)

  datatype State = State(ttl: int, current: Key, previous: Option<Key>, receipts: map<Bytes, StoredReceipt>)

  /** What a request and its accepted result say about the receipt to register. */
  datatype Accept = Accept(receiptId: Bytes, requestId: Bytes, sessionId: Bytes, actorRef: Bytes, taskRef: Bytes)

  /** A reading of both clocks: the steady one at two moments of a call, and the wall clock. */
  datatype Clock = Clock(prune: int, check: int, unix: int)

  const PENDING: Bytes := [0x70, 0x65, 0x6e, 0x64, 0x69, 0x6e, 0x67]

  const DEFAULT_TTL := 600000

  function Create(current: Key, previous: Option<Key>, ttl: int): State {
    Rotate(State(if ttl <= 0 then DEFAULT_TTL else ttl, NO_KEY, None, map[]), current, previous)
  }

  function Rotate(s: State, current: Key, previous: Option<Key>): State {
    s.(current := if ValidKey(current) then current else NO_KEY,
       previous := if previous.Some? && ValidKey(previous.value) then previous else None)
  }

  function IssueToken(sign: Signer, k: Key, f: Fields): Bytes {
    BuildPayload(f) + [DOT] + sign(k.secret, BuildPayload(f))
  }

  function IssueFields(s: State, a: Accept, unix: int): Fields {
    Fields(s.current.keyId, unix, unix + s.ttl, a.receiptId, a.actorRef, a.requestId)
  }

  function NewReceipt(sign: Signer, s: State, a: Accept, c: Clock): Receipt {
    Receipt(a.receiptId, a.requestId, a.sessionId, a.actorRef, a.taskRef, c.check + s.ttl,
            IssueToken(sign, s.current, IssueFields(s, a, c.unix)), PENDING)
  }

  function Register(sign: Signer, s: State, a: Accept, c: Clock): (State, Option<Receipt>) {
    if !ValidKey(s.current) then (s, None)
    else
      var receipt := NewReceipt(sign, s, a, c);
      (s.(receipts := s.receipts[a.receiptId := StoredReceipt(receipt, PENDING)]), Some(receipt))
  }

  predicate Expired(r: StoredReceipt, now: int) {
    now >= r.receipt.expiresAt
  }

  function Prune(s: State, now: int): State {
    s.(receipts := map id | id in s.receipts && !Expired(s.receipts[id], now) :: s.receipts[id])
  }

  datatype QueryStatus = Found | NotFound | ReceiptExpired

  function Query(s: State, id: Bytes, now: int): (State, QueryStatus, Option<Receipt>) {
    if id !in s.receipts then (s, NotFound, None)
    else if Expired(s.receipts[id], now) then (s.(receipts := s.receipts - {id}), ReceiptExpired, None)
    else (s, Found, Some(s.receipts[id].receipt))
  }

  function MarkCompleted(s0: State, id: Bytes, status: Bytes, c: Clock): (State, bool) {
    var s := Prune(s0, c.prune);
    if id !in s.receipts then (s, false)
    else if Expired(s.receipts[id], c.check) then (s.(receipts := s.receipts - {id}), false)
    else
      var r := s.receipts[id].receipt;
      (s.(receipts := s.receipts[id := StoredReceipt(r.(initialStatus := status), status)]), true)
  }

  // ----- Comparing in constant time -----

  function ByteOrZero(s: Bytes, i: nat): Byte {
    if i < |s| then s[i] else 0
  }

  function Longer(a: Bytes, b: Bytes): nat {
    if |a| > |b| then |a| else |b|
  }

  /** What the comparison really decides: equal up to trailing zeros, with lengths equal modulo 256. */
  predicate Same(a: Bytes, b: Bytes) {
    |a| % 256 == |b| % 256
    && forall i :: 0 <= i < Longer(a, b) ==> ByteOrZero(a, i) == ByteOrZero(b, i)
  }

  /** Whole blocks of 256 zero bytes. */
  function Padding(k: nat): (z: Bytes)
    ensures |z| == 256 * k && forall i :: 0 <= i < |z| ==> z[i] == 0
  {
    Zeros(256 * k)
  }

  /** `b` is `a` followed by such blocks, perhaps none. */
  ghost predicate Padded(a: Bytes, b: Bytes) {
    exists k: nat :: b == a + Padding(k)
  }

  lemma PaddedIsSame(a: Bytes, k: nat)
    ensures Same(a, a + Padding(k))
  {
    var b := a + Padding(k);
    assert |b| == |a| + 256 * k;
    forall i | 0 <= i < Longer(a, b) ensures ByteOrZero(a, i) == ByteOrZero(b, i) {
    }
  }

  lemma EndsEarly(a: Bytes, b: Bytes)
    requires |a| < |b| && Avoids(b, 0)
    ensures !Same(a, b) && !Same(b, a)
  {
    assert ByteOrZero(a, |a|) == 0 && ByteOrZero(b, |a|) == b[|a|];
  }

  /** How many blocks the longer string adds. */
  lemma SameIsPadded(a: Bytes, b: Bytes) returns (k: nat)
    requires Same(a, b) && |a| <= |b|
    ensures b == a + Padding(k)
  {
    k := (|b| - |a|) / 256;
    assert |b| == |a| + 256 * k;
    var padded := a + Padding(k);
    forall i | 0 <= i < |b| ensures b[i] == padded[i] {
      assert ByteOrZero(a, i) == ByteOrZero(b, i);
    }
  }

  /** Against a string without zero bytes the comparison accepts exactly that string and its paddings. */
  lemma SameExactly(a: Bytes, b: Bytes)
    requires Avoids(a, 0)
    ensures Same(a, b) <==> Padded(a, b)
  {
    if Padded(a, b) {
      var k: nat :| b == a + Padding(k);
      PaddedIsSame(a, k);
    }
    if Same(a, b) {
      if |b| < |a| {
        EndsEarly(b, a);
      } else {
        var k := SameIsPadded(a, b);
      }
    }
  }

  lemma CutInPadding(a: Bytes, j: nat, m: nat)
    requires |a| < m <= |a + Padding(j)|
    ensures !Avoids((a + Padding(j))[..m], 0)
  {
    assert (a + Padding(j))[..m][|a|] == 0;
  }

  lemma PaddedAlike(a: Bytes, b: Bytes, j: nat, k: nat)
    requires Avoids(a, 0) && Avoids(b, 0) && a + Padding(j) == b + Padding(k)
    ensures a == b
  {
    var whole := a + Padding(j);
    assert a == whole[..|a|] && b == (b + Padding(k))[..|b|];
    if |a| < |b| {
      CutInPadding(a, j, |b|);
    } else if |b| < |a| {
      CutInPadding(b, k, |a|);
    }
  }

  lemma PaddedSame(a: Bytes, b: Bytes, k: nat)
    requires Avoids(a, 0) && Avoids(b, 0)
    ensures Same(a, b + Padding(k)) <==> a == b
  {
    SameExactly(a, b + Padding(k));
    if Padded(a, b + Padding(k)) {
      var j: nat :| b + Padding(k) == a + Padding(j);
      PaddedAlike(a, b, j, k);
    }
    if a == b {
      PaddedIsSame(a, k);
    }
  }

  /** On two strings without zero bytes, and on strings shorter than 256 bytes, that is equality. */
  lemma SameIsEqual(a: Bytes, b: Bytes)
    requires (Avoids(a, 0) && Avoids(b, 0)) || (|a| < 256 && |b| < 256)
    ensures Same(a, b) <==> a == b
  {
    if Same(a, b) {
      SameLength(a, b);
      forall i | 0 <= i < |a| ensures a[i] == b[i] {
        assert ByteOrZero(a, i) == ByteOrZero(b, i);
      }
    }
  }

  lemma SameLength(a: Bytes, b: Bytes)
    requires Same(a, b)
    requires (Avoids(a, 0) && Avoids(b, 0)) || (|a| < 256 && |b| < 256)
    ensures |a| == |b|
  {
    if Avoids(a, 0) && Avoids(b, 0) {
      if |a| < |b| {
        EndsEarly(a, b);
      } else if |b| < |a| {
        EndsEarly(b, a);
      }
    }
  }

  // ----- Validation -----

  /** The key named by a token: the current one first, then the previous one. */
  function LookupKey(s: State, keyId: Bytes): Option<Key> {
    if keyId == s.current.keyId then Some(s.current)
    else if s.previous.Some? && keyId == s.previous.value.keyId then s.previous
    else None
  }

  predicate TokenMatches(p: Parsed, r: Receipt, unix: int) {
    p.version == VERSION
    && p.fields.receiptId == r.receiptId && p.fields.actorRef == r.actorRef && p.fields.requestId == r.requestId
    && p.fields.issuedAt > 0 && p.fields.expiresAt >= p.fields.issuedAt && unix <= p.fields.expiresAt
  }

  predicate SignatureHolds(sign: Signer, s: State, p: Parsed) {
    var k := LookupKey(s, p.fields.keyId);
    k.Some? && ValidKey(k.value) && Same(sign(k.value.secret, p.signedPayload), p.signature)
  }

  predicate TokenHolds(sign: Signer, s: State, r: Receipt, actorRef: Bytes, token: Bytes, unix: int) {
    r.actorRef == actorRef
    && Parse(token).Some? && TokenMatches(Parse(token).value, r, unix)
    && SignatureHolds(sign, s, Parse(token).value)
    && Same(r.ownershipToken, token)
  }

  function Validate(sign: Signer, s0: State, id: Bytes, actorRef: Bytes, token: Bytes, c: Clock): (State, bool) {
    if !ValidKey(s0.current) then (s0, false)
    else
      var s := Prune(s0, c.prune);
      if id !in s.receipts then (s, false)
      else if Expired(s.receipts[id], c.check) then (s.(receipts := s.receipts - {id}), false)
      else (s, TokenHolds(sign, s, s.receipts[id].receipt, actorRef, token, c.unix))
  }

  // ----- What every state keeps -----

  /** The receipt carries the token that key `k` signed over the fields `f`. */
  ghost predicate IssuedAs(sign: Signer, r: Receipt, k: Key, f: Fields) {
    ValidKey(k) && f.keyId == k.keyId && InRange(f) && f.issuedAt <= f.expiresAt
    && f.receiptId == r.receiptId && f.actorRef == r.actorRef && f.requestId == r.requestId
    && r.ownershipToken == IssueToken(sign, k, f)
  }

  ghost predicate HonestReceipt(sign: Signer, r: Receipt) {
    exists k, f :: IssuedAs(sign, r, k, f)
  }

  ghost predicate Honest(sign: Signer, s: State) {
    s.ttl > 0
    && (s.previous.Some? ==> ValidKey(s.previous.value))
    && forall id :: id in s.receipts ==>
         s.receipts[id].receipt.receiptId == id && HonestReceipt(sign, s.receipts[id].receipt)
  }

  datatype Op =
    | RegisterOp(accept: Accept, clock: Clock)
    | QueryOp(id: Bytes, clock: Clock)
    | ValidateOp(id: Bytes, actorRef: Bytes, token: Bytes, clock: Clock)
    | MarkOp(id: Bytes, status: Bytes, clock: Clock)
    | PruneOp(clock: Clock)
    | RotateOp(current: Key, previous: Option<Key>, clock: Clock)

  function Step(sign: Signer, s: State, op: Op): State {
    match op
    case RegisterOp(a, c) => Register(sign, s, a, c).0
    case QueryOp(id, c) => Query(s, id, c.check).0
    case ValidateOp(id, actorRef, token, c) => Validate(sign, s, id, actorRef, token, c).0
    case MarkOp(id, status, c) => MarkCompleted(s, id, status, c).0
    case PruneOp(c) => Prune(s, c.prune)
    case RotateOp(current, previous, _) => Rotate(s, current, previous)
  }

  function Run(sign: Signer, s: State, ops: seq<Op>): State
    decreases |ops|
  {
    if ops == [] then s else Run(sign, Step(sign, s, ops[0]), ops[1..])
  }

  /** The expiry time of a receipt issued now is a 64-bit number. */
  predicate Fits(ttl: int, op: Op) {
    op.RegisterOp? ==> IsInt64(op.clock.unix) && IsInt64(op.clock.unix + ttl)
  }

  lemma PutHonest(sign: Signer, s: State, stored: StoredReceipt)
    requires Honest(sign, s) && HonestReceipt(sign, stored.receipt)
    ensures Honest(sign, s.(receipts := s.receipts[stored.receipt.receiptId := stored]))
  {
  }

  lemma RegisterHonest(sign: Signer, s: State, a: Accept, c: Clock)
    requires Honest(sign, s) && IsInt64(c.unix) && IsInt64(c.unix + s.ttl)
    ensures Honest(sign, Register(sign, s, a, c).0)
  {
    if ValidKey(s.current) {
      var r := NewReceipt(sign, s, a, c);
      assert IssuedAs(sign, r, s.current, IssueFields(s, a, c.unix));
      PutHonest(sign, s, StoredReceipt(r, PENDING));
    }
  }

  predicate Fewer(s: State, fewer: State) {
    fewer == s.(receipts := fewer.receipts)
    && forall id :: id in fewer.receipts ==> id in s.receipts && fewer.receipts[id] == s.receipts[id]
  }

  lemma FewerHonest(sign: Signer, s: State, fewer: State)
    requires Honest(sign, s) && Fewer(s, fewer)
    ensures Honest(sign, fewer)
  {
  }

  /** Queries, validations and pruning never add or change a receipt. */
  lemma OnlyRemoves(sign: Signer, s: State, op: Op)
    requires op.QueryOp? || op.ValidateOp? || op.PruneOp?
    ensures Fewer(s, Step(sign, s, op))
  {
  }

  lemma StatusHonest(sign: Signer, r: Receipt, status: Bytes)
    requires HonestReceipt(sign, r)
    ensures HonestReceipt(sign, r.(initialStatus := status))
  {
    var k, f :| IssuedAs(sign, r, k, f);
    assert IssuedAs(sign, r.(initialStatus := status), k, f);
  }

  lemma MarkHonest(sign: Signer, s: State, id: Bytes, status: Bytes, c: Clock)
    requires Honest(sign, s)
    ensures Honest(sign, MarkCompleted(s, id, status, c).0)
  {
    var p := Prune(s, c.prune);
    assert Fewer(s, p);
    FewerHonest(sign, s, p);
    if id in p.receipts && !Expired(p.receipts[id], c.check) {
      var r := p.receipts[id].receipt;
      StatusHonest(sign, r, status);
      PutHonest(sign, p, StoredReceipt(r.(initialStatus := status), status));
    } else {
      FewerHonest(sign, p, MarkCompleted(s, id, status, c).0);
    }
  }

  lemma RotateHonest(sign: Signer, s: State, current: Key, previous: Option<Key>)
    requires Honest(sign, s)
    ensures Honest(sign, Rotate(s, current, previous))
  {
  }

  lemma StepHonest(sign: Signer, s: State, op: Op)
    requires Honest(sign, s) && Fits(s.ttl, op)
    ensures Honest(sign, Step(sign, s, op))
  {
    if op.QueryOp? || op.ValidateOp? || op.PruneOp? {
      OnlyRemoves(sign, s, op);
      FewerHonest(sign, s, Step(sign, s, op));
    } else {
      match op
      case RegisterOp(a, c) => RegisterHonest(sign, s, a, c);
      case MarkOp(id, status, c) => MarkHonest(sign, s, id, status, c);
      case RotateOp(current, previous, _) => RotateHonest(sign, s, current, previous);
    }
  }

  lemma StepLifetime(sign: Signer, s: State, op: Op)
    ensures Step(sign, s, op).ttl == s.ttl
  {
  }

  /** Every receipt that any run stores carries a token some valid key signed for that very receipt. */
  lemma {:induction false} RunHonest(sign: Signer, s: State, ops: seq<Op>)
    requires Honest(sign, s) && forall i :: 0 <= i < |ops| ==> Fits(s.ttl, ops[i])
    ensures Honest(sign, Run(sign, s, ops)) && Run(sign, s, ops).ttl == s.ttl
    decreases |ops|
  {
    if ops != [] {
      StepHonest(sign, s, ops[0]);
      StepLifetime(sign, s, ops[0]);
      RunHonest(sign, Step(sign, s, ops[0]), ops[1..]);
    }
  }

  // ----- Tokens hold exactly as long as they should -----

  lemma {:induction false} JoinAvoidsZero(parts: seq<Bytes>)
    requires parts != [] && forall i :: 0 <= i < |parts| ==> Avoids(parts[i], 0)
    ensures Avoids(Join(parts, DOT), 0)
  {
    if |parts| > 1 {
      JoinAvoidsZero(parts[1..]);
    }
  }

  lemma PayloadAvoidsZero(f: Fields)
    ensures Avoids(BuildPayload(f), 0)
  {
    Base64Url.EncodeInAlphabet(f.keyId);
    Base64Url.EncodeInAlphabet(f.receiptId);
    Base64Url.EncodeInAlphabet(f.actorRef);
    Base64Url.EncodeInAlphabet(f.requestId);
    SignedAvoids(f.issuedAt, 0);
    SignedAvoids(f.expiresAt, 0);
    JoinAvoidsZero(PayloadParts(f));
  }

  lemma TokenAvoidsZero(sign: Signer, k: Key, f: Fields)
    requires GoodSigner(sign)
    ensures Avoids(IssueToken(sign, k, f), 0)
  {
    PayloadAvoidsZero(f);
    assert Avoids(sign(k.secret, BuildPayload(f)), 0);
  }

  lemma PaddedSignature(signature: Bytes, n: nat)
    requires Avoids(signature, DOT)
    ensures Avoids(signature + Padding(n), DOT)
  {
    assert DOT != 0;
  }

  /** A padded token reads like the token itself, but for its signature. */
  lemma PaddedTokenParses(sign: Signer, k: Key, f: Fields, n: nat)
    requires GoodSigner(sign) && InRange(f)
    ensures var payload := BuildPayload(f);
            Parse(IssueToken(sign, k, f) + Padding(n))
            == Some(Parsed(VERSION, f, sign(k.secret, payload) + Padding(n), payload))
  {
    var payload := BuildPayload(f);
    var signature := sign(k.secret, payload);
    PaddedSignature(signature, n);
    TokenRoundTrip(f, signature + Padding(n));
    assert IssueToken(sign, k, f) + Padding(n) == payload + [DOT] + (signature + Padding(n));
  }

  /** The key now found under the token's key id signs the payload as the issuing key did. */
  predicate Resigns(sign: Signer, s: State, k: Key, f: Fields) {
    var now := LookupKey(s, f.keyId);
    now.Some? && ValidKey(now.value) && sign(now.value.secret, BuildPayload(f)) == sign(k.secret, BuildPayload(f))
  }

  lemma SignatureExactly(sign: Signer, s: State, k: Key, f: Fields, n: nat)
    requires GoodSigner(sign)
    ensures var payload := BuildPayload(f);
            SignatureHolds(sign, s, Parsed(VERSION, f, sign(k.secret, payload) + Padding(n), payload)) <==>
              Resigns(sign, s, k, f)
  {
    var payload, now := BuildPayload(f), LookupKey(s, f.keyId);
    if now.Some? {
      assert Avoids(sign(now.value.secret, payload), 0) && Avoids(sign(k.secret, payload), 0);
      PaddedSame(sign(now.value.secret, payload), sign(k.secret, payload), n);
    }
  }

  /**
   Only the stored token holds, and its paddings: they hold until a clock or a rotation ends
   them, and no other string ever does.
   */
  lemma HoldsExactly(sign: Signer, s: State, r: Receipt, k: Key, f: Fields, actorRef: Bytes, token: Bytes, unix: int)
    requires GoodSigner(sign) && IssuedAs(sign, r, k, f)
    ensures TokenHolds(sign, s, r, actorRef, token, unix) <==>
              r.actorRef == actorRef && Padded(r.ownershipToken, token)
              && f.issuedAt > 0 && unix <= f.expiresAt && Resigns(sign, s, k, f)
  {
    TokenAvoidsZero(sign, k, f);
    SameExactly(r.ownershipToken, token);
    if Padded(r.ownershipToken, token) {
      var n: nat :| token == r.ownershipToken + Padding(n);
      PaddedTokenParses(sign, k, f, n);
      SignatureExactly(sign, s, k, f, n);
    }
  }

  /**
   What the comparison lets through beside the issued token: the same token with whole blocks
   of zero bytes after it.
   */
  lemma PaddedTokenHolds(sign: Signer, s: State, r: Receipt, actorRef: Bytes, unix: int, n: nat)
    requires GoodSigner(sign) && HonestReceipt(sign, r)
    ensures TokenHolds(sign, s, r, actorRef, r.ownershipToken + Padding(n), unix)
            <==> TokenHolds(sign, s, r, actorRef, r.ownershipToken, unix)
  {
    var k, f :| IssuedAs(sign, r, k, f);
    HoldsExactly(sign, s, r, k, f, actorRef, r.ownershipToken + Padding(n), unix);
    HoldsExactly(sign, s, r, k, f, actorRef, r.ownershipToken, unix);
    assert r.ownershipToken == r.ownershipToken + Padding(0);
  }

  // ----- Over whole runs -----

  predicate Overwrites(op: Op, id: Bytes) {
    op.RegisterOp? && op.accept.receiptId == id
  }

  /** The same receipt, whatever its status. */
  predicate SameReceipt(a: Receipt, b: Receipt) {
    a.(initialStatus := b.initialStatus) == b
  }

  predicate Keeps(s: State, r: Receipt) {
    r.receiptId in s.receipts && SameReceipt(s.receipts[r.receiptId].receipt, r)
  }

  /** The receipt is as it was registered, or it is gone. */
  predicate KeepsOrGone(s: State, r: Receipt) {
    r.receiptId in s.receipts ==> Keeps(s, r)
  }

  lemma StepKeeps(sign: Signer, s: State, r: Receipt, op: Op)
    requires !Overwrites(op, r.receiptId)
    ensures KeepsOrGone(s, r) ==> KeepsOrGone(Step(sign, s, op), r)
    ensures Keeps(s, r) && op.clock.prune < r.expiresAt && op.clock.check < r.expiresAt ==> Keeps(Step(sign, s, op), r)
  {
  }

  ghost predicate NotAfter(ops: seq<Op>, now: int) {
    forall i :: 0 <= i < |ops| ==> ops[i].clock.prune <= now && ops[i].clock.check <= now
  }

  ghost predicate NeverOverwritten(ops: seq<Op>, id: Bytes) {
    forall i :: 0 <= i < |ops| ==> !Overwrites(ops[i], id)
  }

  /** A receipt that no registration overwrites lives through any run that ends before its expiry. */
  lemma {:induction false} RunKeeps(sign: Signer, s: State, r: Receipt, ops: seq<Op>, now: int)
    requires NeverOverwritten(ops, r.receiptId) && NotAfter(ops, now)
    ensures KeepsOrGone(s, r) ==> KeepsOrGone(Run(sign, s, ops), r)
    ensures Keeps(s, r) && now < r.expiresAt ==> Keeps(Run(sign, s, ops), r)
    decreases |ops|
  {
    if ops != [] {
      StepKeeps(sign, s, r, ops[0]);
      RunKeeps(sign, Step(sign, s, ops[0]), r, ops[1..], now);
    }
  }

  lemma ValidateStored(sign: Signer, s: State, r: Receipt, k: Key, f: Fields, actorRef: Bytes, token: Bytes, c: Clock)
    requires GoodSigner(sign) && IssuedAs(sign, r, k, f) && c.prune <= c.check
    requires KeepsOrGone(s, r) && (c.check < r.expiresAt ==> Keeps(s, r))
    ensures Validate(sign, s, r.receiptId, actorRef, token, c).1 <==>
              ValidKey(s.current) && c.check < r.expiresAt
              && r.actorRef == actorRef && Padded(r.ownershipToken, token)
              && f.issuedAt > 0 && c.unix <= f.expiresAt && Resigns(sign, s, k, f)
  {
    if ValidKey(s.current) && c.check < r.expiresAt {
      var p := Prune(s, c.prune);
      var stored := s.receipts[r.receiptId].receipt;
      assert IssuedAs(sign, stored, k, f);
      HoldsExactly(sign, p, stored, k, f, actorRef, token, c.unix);
      assert LookupKey(p, f.keyId) == LookupKey(s, f.keyId);
    }
  }

  /**
   The token issued by a registration validates after a run exactly for its actor, until the
   steady clock passes its lifetime or the wall clock its printed expiry, and while a key is
   found under its key id that signs as the issuing key did. So do its paddings, and no other
   string.
   */
  lemma TokenLives(sign: Signer, s: State, a: Accept, c: Clock, ops: seq<Op>, actorRef: Bytes, token: Bytes,
                   last: Clock)
    requires GoodSigner(sign) && s.ttl > 0 && ValidKey(s.current) && IsInt64(c.unix) && IsInt64(c.unix + s.ttl)
    requires NeverOverwritten(ops, a.receiptId) && NotAfter(ops, last.check) && last.prune <= last.check
    ensures var (s1, receipt) := Register(sign, s, a, c);
            var end := Run(sign, s1, ops);
            Validate(sign, end, a.receiptId, actorRef, token, last).1 <==>
              ValidKey(end.current) && last.check < c.check + s.ttl
              && a.actorRef == actorRef && receipt.Some? && Padded(receipt.value.ownershipToken, token)
              && 0 < c.unix && last.unix <= c.unix + s.ttl
              && Resigns(sign, end, s.current, IssueFields(s, a, c.unix))
  {
    var s1 := Register(sign, s, a, c).0;
    var r := NewReceipt(sign, s, a, c);
    assert Keeps(s1, r);
    RunKeeps(sign, s1, r, ops, last.check);
    ValidateStored(sign, Run(sign, s1, ops), r, s.current, IssueFields(s, a, c.unix), actorRef, token, last);
  }

  // ----- What a query finds -----

  predicate Marks(op: Op, id: Bytes) {
    op.MarkOp? && op.id == id
  }

  /** The status that the last mark of the receipt in the run gives, or the one it had before the run. */
  ghost predicate LastStatus(ops: seq<Op>, id: Bytes, before: Bytes, status: Bytes) {
    if exists i :: 0 <= i < |ops| && Marks(ops[i], id) then
      exists i :: 0 <= i < |ops| && Marks(ops[i], id) && ops[i].status == status
                  && forall j :: i < j < |ops| ==> !Marks(ops[j], id)
    else status == before
  }

  lemma LastStatusStep(op: Op, ops: seq<Op>, id: Bytes, before: Bytes, status: Bytes)
    requires LastStatus(ops, id, if Marks(op, id) then op.status else before, status)
    ensures LastStatus([op] + ops, id, before, status)
  {
    var all := [op] + ops;
    if i :| 0 <= i < |ops| && Marks(ops[i], id) && ops[i].status == status
            && forall j :: i < j < |ops| ==> !Marks(ops[j], id) {
      assert Marks(all[i + 1], id) && all[i + 1].status == status;
      assert forall j :: i + 1 < j < |all| ==> all[j] == ops[j - 1];
    } else {
      assert forall j :: 0 < j < |all| ==> all[j] == ops[j - 1];
      if Marks(op, id) {
        assert Marks(all[0], id) && all[0].status == status;
      }
    }
  }

  /** The receipt is stored as registered, with this status. */
  predicate StoredAs(s: State, r: Receipt, status: Bytes) {
    r.receiptId in s.receipts && s.receipts[r.receiptId] == StoredReceipt(r.(initialStatus := status), status)
  }

  lemma StepStores(sign: Signer, s: State, r: Receipt, status: Bytes, op: Op)
    requires StoredAs(s, r, status) && !Overwrites(op, r.receiptId)
    requires op.clock.prune < r.expiresAt && op.clock.check < r.expiresAt
    ensures StoredAs(Step(sign, s, op), r, if Marks(op, r.receiptId) then op.status else status)
  {
  }

  lemma {:induction false} RunStores(sign: Signer, s: State, r: Receipt, before: Bytes, ops: seq<Op>, now: int)
    returns (status: Bytes)
    requires StoredAs(s, r, before) && NeverOverwritten(ops, r.receiptId) && NotAfter(ops, now) && now < r.expiresAt
    ensures StoredAs(Run(sign, s, ops), r, status) && LastStatus(ops, r.receiptId, before, status)
    decreases |ops|
  {
    if ops == [] {
      status := before;
    } else {
      var next := if Marks(ops[0], r.receiptId) then ops[0].status else before;
      StepStores(sign, s, r, before, ops[0]);
      status := RunStores(sign, Step(sign, s, ops[0]), r, next, ops[1..], now);
      LastStatusStep(ops[0], ops[1..], r.receiptId, before, status);
      assert [ops[0]] + ops[1..] == ops;
    }
  }

  /** What a registration with a valid key stores and returns. */
  lemma Registered(sign: Signer, s: State, a: Accept, c: Clock)
    ensures var (s1, receipt) := Register(sign, s, a, c);
            (receipt.Some? <==> s.current.keyId != [] && s.current.secret != [])
            && (receipt.None? ==> s1 == s)
            && (receipt.Some? ==>
                  receipt.value.receiptId == a.receiptId && receipt.value.requestId == a.requestId
                  && receipt.value.sessionId == a.sessionId && receipt.value.actorRef == a.actorRef
                  && receipt.value.taskRef == a.taskRef && receipt.value.expiresAt == c.check + s.ttl
                  && receipt.value.initialStatus == PENDING && StoredAs(s1, receipt.value, PENDING)
                  && s1 == s.(receipts := s.receipts[a.receiptId := s1.receipts[a.receiptId]]))
  {
  }

  /** The state without one receipt. */
  function Forgetting(s: State, id: Bytes): State {
    s.(receipts := s.receipts - {id})
  }

  /**
   After a registration and any run that does not overwrite it, a query finds the receipt
   exactly while its lifetime lasts: as it was issued, with the status of the last mark. From
   then on there is none to find, and the state has forgotten it.
   */
  lemma QueryLives(sign: Signer, s: State, a: Accept, c: Clock, ops: seq<Op>, last: int)
    requires ValidKey(s.current) && NeverOverwritten(ops, a.receiptId) && NotAfter(ops, last)
    ensures var (s1, issued) := Register(sign, s, a, c);
            var end := Run(sign, s1, ops);
            var (s', status, found) := Query(end, a.receiptId, last);
            issued.Some?
            && (status == Found <==> last < c.check + s.ttl) && (found.Some? <==> status == Found)
            && (status == NotFound <==> a.receiptId !in end.receipts)
            && (status == Found ==>
                  s' == end && found.value == issued.value.(initialStatus := found.value.initialStatus)
                  && LastStatus(ops, a.receiptId, PENDING, found.value.initialStatus))
            && (status != Found ==> s' == Forgetting(end, a.receiptId))
  {
    var (s1, issued) := Register(sign, s, a, c);
    var r := issued.value;
    if last < r.expiresAt {
      var status := RunStores(sign, s1, r, PENDING, ops, last);
    } else {
      RunKeeps(sign, s1, r, ops, last);
      var end := Run(sign, s1, ops);
      if a.receiptId !in end.receipts {
        assert end.receipts - {a.receiptId} == end.receipts;
      }
    }
  }

  /** A mark changes the status of the receipt, and nothing else of it, exactly while its lifetime lasts. */
  lemma MarkLives(sign: Signer, s: State, a: Accept, c: Clock, ops: seq<Op>, status: Bytes, last: Clock)
    requires ValidKey(s.current) && NeverOverwritten(ops, a.receiptId) && NotAfter(ops, last.check)
    requires last.prune <= last.check
    ensures var (s1, issued) := Register(sign, s, a, c);
            var (end, marked) := MarkCompleted(Run(sign, s1, ops), a.receiptId, status, last);
            issued.Some? && (marked <==> last.check < c.check + s.ttl)
            && (if marked then StoredAs(end, issued.value, status) else a.receiptId !in end.receipts)
  {
    var (s1, issued) := Register(sign, s, a, c);
    var r := issued.value;
    if last.check < r.expiresAt {
      var before := RunStores(sign, s1, r, PENDING, ops, last.check);
    } else {
      RunKeeps(sign, s1, r, ops, last.check);
    }
  }

  /** In every honest state all that validates for a receipt is one token and its paddings, for one actor. */
  lemma OneToken(sign: Signer, s: State, id: Bytes, a1: Bytes, t1: Bytes, a2: Bytes, t2: Bytes, c1: Clock, c2: Clock)
    requires GoodSigner(sign) && Honest(sign, s)
    requires Validate(sign, s, id, a1, t1, c1).1 && Validate(sign, s, id, a2, t2, c2).1
    ensures a1 == a2 && id in s.receipts
            && Padded(s.receipts[id].receipt.ownershipToken, t1) && Padded(s.receipts[id].receipt.ownershipToken, t2)
    ensures Avoids(t1, 0) && Avoids(t2, 0) ==> t1 == t2
  {
    var r := s.receipts[id].receipt;
    var k, f :| IssuedAs(sign, r, k, f);
    HoldsExactly(sign, Prune(s, c1.prune), r, k, f, a1, t1, c1.unix);
    HoldsExactly(sign, Prune(s, c2.prune), r, k, f, a2, t2, c2.unix);
    TokenAvoidsZero(sign, k, f);
    SameExactly(r.ownershipToken, t1);
    SameExactly(r.ownershipToken, t2);
    if Avoids(t1, 0) && Avoids(t2, 0) {
      SameIsEqual(r.ownershipToken, t1);
      SameIsEqual(r.ownershipToken, t2);
    }
  }

  /** One rotation that keeps the old key as the previous one, under a new key id, ends no token. */
  lemma GraceAfterRotation(sign: Signer, s: State, current: Key, k: Key, f: Fields)
    requires s.current == k && ValidKey(k) && ValidKey(current) && f.keyId == k.keyId
    ensures var s' := Rotate(s, current, Some(k));
            current.keyId != k.keyId ==> Resigns(sign, s', k, f)
    ensures var s' := Rotate(s, current, Some(k));
            current.keyId == k.keyId ==>
              (Resigns(sign, s', k, f) <==> sign(current.secret, BuildPayload(f)) == sign(k.secret, BuildPayload(f)))
  {
  }
}
