/**
 The ownership token: a printer, a parser, and the signature over the printed payload.

 A token is eight fields joined by dots: a version, the key id, two timestamps, the
 receipt, the actor, the request and a signature over everything before it.
 */
module OwnershipToken {
  import opened Wrappers
  import opened ByteText
  import opened Splitting
  import Base64Url

  /** The text before its last dot, all of it when there is none. */
  function BeforeLastDot(text: Bytes): Bytes {
    match LastDot(text)
    case None => text
    case Some(i) => text[..i]
  }

  function LastDot(text: Bytes): (i: Option<nat>)
    ensures i.Some? ==> i.value < |text| && text[i.value] == DOT && Avoids(text[i.value + 1..], DOT)
    ensures i.None? ==> Avoids(text, DOT)
  {
    if text == [] then None
    else if text[|text| - 1] == DOT then Some(|text| - 1)
    else LastDot(text[..|text| - 1])
  }

  lemma {:induction false} LastDotIs(text: Bytes, k: nat)
    requires k < |text| && text[k] == DOT && Avoids(text[k + 1..], DOT)
    ensures LastDot(text) == Some(k)
  {
    if k + 1 < |text| {
      var shorter := text[..|text| - 1];
      assert text[k + 1..][|text| - 2 - k] == text[|text| - 1];
      assert shorter[k + 1..] == text[k + 1..][..|text| - 2 - k];
      LastDotIs(shorter, k);
    }
  }

  lemma BeforeLast(head: Bytes, last: Bytes)
    requires Avoids(last, DOT)
    ensures BeforeLastDot(head + [DOT] + last) == head
  {
    var text := head + [DOT] + last;
    assert text[|head| + 1..] == last;
    LastDotIs(text, |head|);
  }

  // ----- The token -----

  const VERSION: Bytes := [0x76, 0x31]
  const PARTS: nat := 8

  datatype Fields = Fields(keyId: Bytes, issuedAt: int, expiresAt: int, receiptId: Bytes, actorRef: Bytes,
                           requestId: Bytes)

  datatype Parsed = Parsed(version: Bytes, fields: Fields, signature: Bytes, signedPayload: Bytes)

  predicate InRange(f: Fields) {
    IsInt64(f.issuedAt) && IsInt64(f.expiresAt)
  }

  /** The seven signed parts of a token. */
  function PayloadParts(f: Fields): seq<Bytes> {
    [VERSION, Base64Url.Encode(f.keyId), Signed(f.issuedAt), Signed(f.expiresAt),
     Base64Url.Encode(f.receiptId), Base64Url.Encode(f.actorRef), Base64Url.Encode(f.requestId)]
  }

  function BuildPayload(f: Fields): Bytes {
    Join(PayloadParts(f), DOT)
  }

  function ReadFields(parts: seq<Bytes>): Option<Fields>
    requires |parts| == PARTS
  {
    var keyId, receiptId := Base64Url.Decode(parts[1]), Base64Url.Decode(parts[4]);
    var actorRef, requestId := Base64Url.Decode(parts[5]), Base64Url.Decode(parts[6]);
    var issuedAt, expiresAt := ParseInt64(parts[2]), ParseInt64(parts[3]);
    if keyId.Some? && receiptId.Some? && actorRef.Some? && requestId.Some? && issuedAt.Some? && expiresAt.Some? then
      Some(Fields(keyId.value, issuedAt.value, expiresAt.value, receiptId.value, actorRef.value, requestId.value))
    else None
  }

  function ReadParts(token: Bytes, parts: seq<Bytes>): Option<Parsed>
    requires |parts| == PARTS
  {
    match ReadFields(parts)
    case None => None
    case Some(fields) => Some(Parsed(parts[0], fields, parts[7], BeforeLastDot(token)))
  }

  /** `parse_ownership_token` */
  function Parse(token: Bytes): Option<Parsed> {
    var parts := Split(token, DOT);
    if |parts| == PARTS then ReadParts(token, parts) else None
  }

  lemma PayloadPartsRead(f: Fields, signature: Bytes)
    requires InRange(f)
    ensures ReadFields(PayloadParts(f) + [signature]) == Some(f)
  {
    Base64Url.DecodeEncode(f.keyId);
    Base64Url.DecodeEncode(f.receiptId);
    Base64Url.DecodeEncode(f.actorRef);
    Base64Url.DecodeEncode(f.requestId);
    SignedRoundTrip(f.issuedAt);
    SignedRoundTrip(f.expiresAt);
  }

  lemma PayloadEachAvoids(f: Fields)
    ensures EachAvoids(PayloadParts(f), DOT)
  {
    Base64Url.EncodeInAlphabet(f.keyId);
    Base64Url.EncodeInAlphabet(f.receiptId);
    Base64Url.EncodeInAlphabet(f.actorRef);
    Base64Url.EncodeInAlphabet(f.requestId);
    SignedAvoids(f.issuedAt, DOT);
    SignedAvoids(f.expiresAt, DOT);
  }

  /** Whatever the field values, the printed token reads back, with exactly the signed payload. */
  lemma TokenRoundTrip(f: Fields, signature: Bytes)
    requires InRange(f) && Avoids(signature, DOT)
    ensures Parse(BuildPayload(f) + [DOT] + signature) == Some(Parsed(VERSION, f, signature, BuildPayload(f)))
  {
    var parts := PayloadParts(f) + [signature];
    PayloadEachAvoids(f);
    JoinLast(PayloadParts(f), signature, DOT);
    SplitJoin(parts, DOT);
    PayloadPartsRead(f, signature);
    BeforeLast(BuildPayload(f), signature);
  }

  /** A printed payload is a readable token exactly when what is appended holds no dot. */
  lemma ReadableExactly(f: Fields, signature: Bytes)
    requires InRange(f)
    ensures Parse(BuildPayload(f) + [DOT] + signature).Some? <==> Avoids(signature, DOT)
  {
    if Avoids(signature, DOT) {
      TokenRoundTrip(f, signature);
    } else {
      PayloadEachAvoids(f);
      MoreParts(PayloadParts(f), signature, DOT);
      SplitLength(signature, DOT);
    }
  }

  /** No two sets of fields print alike, so a signature over the payload covers every field. */
  lemma PayloadInjective(f: Fields, g: Fields)
    requires InRange(f) && InRange(g) && BuildPayload(f) == BuildPayload(g)
    ensures f == g
  {
    TokenRoundTrip(f, []);
    TokenRoundTrip(g, []);
  }

  /** A readable token, printed canonically or not, is its signed payload, a dot and its signature. */
  lemma ParsedCoversToken(token: Bytes)
    requires Parse(token).Some?
    ensures var p := Parse(token).value;
            token == p.signedPayload + [DOT] + p.signature && Avoids(p.signature, DOT)
            && Split(p.signedPayload, DOT) == Split(token, DOT)[..7]
  {
    var parts := Split(token, DOT);
    JoinSplit(token, DOT);
    var head := parts[..7];
    assert parts == head + [parts[7]];
    JoinLast(head, parts[7], DOT);
    BeforeLast(Join(head, DOT), parts[7]);
    SplitJoin(head, DOT);
  }

  predicate Canonical(parts: seq<Bytes>)
    requires |parts| == PARTS
  {
    parts[0] == VERSION
    && Base64Url.LeftoverZero(parts[1]) && PlainNumber(parts[2]) && PlainNumber(parts[3])
    && Base64Url.LeftoverZero(parts[4]) && Base64Url.LeftoverZero(parts[5]) && Base64Url.LeftoverZero(parts[6])
  }

  /** A readable token is a printed one exactly when each of its signed parts is in printed form. */
  lemma ReprintsExactly(token: Bytes)
    requires Parse(token).Some?
    ensures var p := Parse(token).value;
            BuildPayload(p.fields) == p.signedPayload <==> Canonical(Split(token, DOT))
  {
    var p, parts := Parse(token).value, Split(token, DOT);
    ParsedCoversToken(token);
    PayloadEachAvoids(p.fields);
    SplitJoin(PayloadParts(p.fields), DOT);
    JoinSplit(p.signedPayload, DOT);
    PartsReprint(parts, p.fields);
  }

  lemma PartsReprint(parts: seq<Bytes>, f: Fields)
    requires |parts| == PARTS && ReadFields(parts) == Some(f)
    ensures PayloadParts(f) == parts[..7] && parts[0] == VERSION <==> Canonical(parts)
  {
    Base64Url.EncodeDecode(parts[1]);
    Base64Url.EncodeDecode(parts[4]);
    Base64Url.EncodeDecode(parts[5]);
    Base64Url.EncodeDecode(parts[6]);
    SignedParse(parts[2]);
    SignedParse(parts[3]);
    SameSeven(PayloadParts(f), parts);
  }

  lemma SameSeven(a: seq<Bytes>, b: seq<Bytes>)
    requires |a| == 7 && |b| == PARTS
    ensures a == b[..7] <==>
              (a[0] == b[0] && a[1] == b[1] && a[2] == b[2] && a[3] == b[3] && a[4] == b[4] && a[5] == b[5]
               && a[6] == b[6])
  {
  }

  // ----- The splitting loop -----

  method StorePart(slots: array<Bytes>, partIndex: nat, part: Bytes)
    requires partIndex < slots.Length
    modifies slots
    ensures slots[..partIndex + 1] == old(slots[..partIndex]) + [part]
  {
    slots[partIndex] := part;
  }

  /** Cuts the token into the eight slots of an array; `None` when there are too few or too many parts. */
  method SplitLoop(token: Bytes) returns (parts: Option<seq<Bytes>>)
    ensures parts == if |Split(token, DOT)| == PARTS then Some(Split(token, DOT)) else None
  {
    var slots := new Bytes[PARTS](_ => []);
    var partIndex, start := 0, 0;
    assert Cut(token, [], 0, 0, DOT) by {
      assert token[0..] == token;
    }
    for index := 0 to |token| + 1
      invariant 0 <= partIndex <= PARTS && 0 <= start
      invariant Cut(token, slots[..partIndex], start, index, DOT)
    {
      if index == |token| || token[index] == DOT {
        CutHere(token, slots[..partIndex], start, index, DOT);
        if partIndex >= PARTS {
          return None;
        }
        StorePart(slots, partIndex, token[start..index]);
        partIndex := partIndex + 1;
        start := index + 1;
      } else {
        CutLater(token, slots[..partIndex], start, index, DOT);
      }
    }
    if partIndex != PARTS {
      return None;
    }
    return Some(slots[..partIndex]);
  }

  method ParseToken(token: Bytes) returns (parsed: Option<Parsed>)
    ensures parsed == Parse(token)
  {
    var split := SplitLoop(token);
    if split.None? {
      return None;
    }
    var parts := split.value;
    var keyId := Base64Url.DecodeLoop(parts[1]);
    var receiptId := Base64Url.DecodeLoop(parts[4]);
    var actorRef := Base64Url.DecodeLoop(parts[5]);
    var requestId := Base64Url.DecodeLoop(parts[6]);
    var issuedAt, expiresAt := ParseInt64(parts[2]), ParseInt64(parts[3]);
    if keyId.None? || receiptId.None? || actorRef.None? || requestId.None? || issuedAt.None? || expiresAt.None? {
      return None;
    }
    var fields := Fields(keyId.value, issuedAt.value, expiresAt.value, receiptId.value, actorRef.value,
                         requestId.value);
    return Some(Parsed(parts[0], fields, parts[7], BeforeLastDot(token)));
  }
}
