/** Token estimates: UTF-8 decoding, character counts by kind, and the estimate made of them. */
module TokenEstimator {
  import opened ByteText
  import opened Scanning
  import opened Widths

  type CodePoint = bv32

  const REPLACEMENT: CodePoint := 0xfffd

  // ----- Decoding one character -----

  predicate IsContinuation(b: Byte) {
    b & 0xc0 == 0x80
  }

  /** How many bytes the first byte announces; 0 when it cannot start a character. */
  function Announced(first: Byte): (n: nat)
    ensures n <= 4
  {
    if first & 0x80 == 0 then 1
    else if first & 0xe0 == 0xc0 then 2
    else if first & 0xf0 == 0xe0 then 3
    else if first & 0xf8 == 0xf0 then 4
    else 0
  }

  function Code2(a: Byte, b: Byte): CodePoint {
    (((a & 0x1f) as bv32) << 6) | ((b & 0x3f) as bv32)
  }

  function Code3(a: Byte, b: Byte, c: Byte): CodePoint {
    (((a & 0x0f) as bv32) << 12) | (((b & 0x3f) as bv32) << 6) | ((c & 0x3f) as bv32)
  }

  function Code4(a: Byte, b: Byte, c: Byte, d: Byte): CodePoint {
    (((a & 0x07) as bv32) << 18) | (((b & 0x3f) as bv32) << 12) | (((c & 0x3f) as bv32) << 6) | ((d & 0x3f) as bv32)
  }

  datatype Decoded = Decoded(code: CodePoint, length: nat, ok: bool)

  const BROKEN := Decoded(REPLACEMENT, 1, false)

  predicate Continues(text: Bytes, n: nat) {
    n <= |text| && forall i :: 1 <= i < n ==> IsContinuation(text[i])
  }

  /** The character at the head of a text. A byte that starts none stands for the replacement character. */
  function Head(text: Bytes): (d: Decoded)
    requires text != []
    ensures 1 <= d.length <= 4 && d.length <= |text|
    ensures d.ok <==> Announced(text[0]) > 0 && Continues(text, Announced(text[0]))
    ensures d.length == if d.ok then Announced(text[0]) else 1
  {
    var n := Announced(text[0]);
    if n == 0 || !Continues(text, n) then BROKEN
    else Decoded(CodeOf(text, n), n, true)
  }

  function CodeOf(text: Bytes, n: nat): CodePoint
    requires 1 <= n <= 4 && n <= |text|
  {
    if n == 1 then text[0] as bv32
    else if n == 2 then Code2(text[0], text[1])
    else if n == 3 then Code3(text[0], text[1], text[2])
    else Code4(text[0], text[1], text[2], text[3])
  }

  /** `decode_next_utf8`: the index always advances by one to four bytes and stays inside the text. */
  method DecodeNext(text: Bytes, index: nat) returns (next: nat, code: CodePoint, ok: bool)
    requires index < |text|
    ensures index < next <= index + 4 && next <= |text|
    ensures Decoded(code, next - index, ok) == Head(text[index..])
  {
    ghost var rest := text[index..];
    var first := text[index];
    if first & 0x80 == 0 {
      return index + 1, first as bv32, true;
    }
    LeadsDiffer(first);
    var remaining := |text| - index;
    if first & 0xe0 == 0xc0 && remaining >= 2 {
      var second := text[index + 1];
      if IsContinuation(second) {
        return index + 2, Code2(first, second), true;
      }
      assert !IsContinuation(rest[1]);
    }
    if first & 0xf0 == 0xe0 && remaining >= 3 {
      var second, third := text[index + 1], text[index + 2];
      if IsContinuation(second) && IsContinuation(third) {
        assert Continues(rest, 3);
        return index + 3, Code3(first, second, third), true;
      }
      assert !IsContinuation(rest[1]) || !IsContinuation(rest[2]);
    }
    if first & 0xf8 == 0xf0 && remaining >= 4 {
      var second, third, fourth := text[index + 1], text[index + 2], text[index + 3];
      if IsContinuation(second) && IsContinuation(third) && IsContinuation(fourth) {
        assert Continues(rest, 4);
        return index + 4, Code4(first, second, third, fourth), true;
      }
      assert !IsContinuation(rest[1]) || !IsContinuation(rest[2]) || !IsContinuation(rest[3]);
    }
    return index + 1, REPLACEMENT, false;
  }

  lemma LeadsDiffer(first: Byte)
    ensures first & 0xe0 == 0xc0 ==> first & 0xf0 != 0xe0 && first & 0xf8 != 0xf0
    ensures first & 0xf0 == 0xe0 ==> first & 0xf8 != 0xf0
  {
  }

  // ----- Encoding, as section 3 of RFC 3629 defines it -----

  const LIMIT: CodePoint := 0x110000

  predicate IsScalar(c: CodePoint) {
    c < LIMIT && !(0xd800 <= c <= 0xdfff)
  }

  function EncodedLength(c: CodePoint): nat {
    if c < 0x80 then 1 else if c < 0x800 then 2 else if c < 0x10000 then 3 else 4
  }

  function Low6(c: CodePoint): Byte {
    0x80 | ((c & 0x3f) as bv8)
  }

  function Encode(c: CodePoint): (b: Bytes)
    ensures |b| == EncodedLength(c)
  {
    if c < 0x80 then [(c & 0x7f) as bv8]
    else if c < 0x800 then [0xc0 | (((c >> 6) & 0x1f) as bv8), Low6(c)]
    else if c < 0x10000 then [0xe0 | (((c >> 12) & 0x0f) as bv8), Low6(c >> 6), Low6(c)]
    else [0xf0 | (((c >> 18) & 0x07) as bv8), Low6(c >> 12), Low6(c >> 6), Low6(c)]
  }

  lemma Low6Continues(c: CodePoint)
    ensures IsContinuation(Low6(c)) && ((Low6(c) & 0x3f) as bv32) == c & 0x3f
  {
  }

  lemma EncodedLead(c: CodePoint)
    requires c < 0x200000
    ensures Announced(Encode(c)[0]) == EncodedLength(c)
  {
  }

  lemma Rejoin1(c: CodePoint)
    requires c < 0x80
    ensures (((c & 0x7f) as bv8) as bv32) == c
  {
  }

  lemma Rejoin2(c: CodePoint)
    requires c < 0x800
    ensures Code2(0xc0 | (((c >> 6) & 0x1f) as bv8), Low6(c)) == c
  {
  }

  lemma Rejoin3(c: CodePoint)
    requires c < 0x10000
    ensures Code3(0xe0 | (((c >> 12) & 0x0f) as bv8), Low6(c >> 6), Low6(c)) == c
  {
  }

  lemma Rejoin4(c: CodePoint)
    requires c < 0x200000
    ensures Code4(0xf0 | (((c >> 18) & 0x07) as bv8), Low6(c >> 12), Low6(c >> 6), Low6(c)) == c
  {
  }

  /** Each encoded scalar value decodes to itself, with its exact length, whatever follows. */
  lemma HeadOfEncoded(c: CodePoint, rest: Bytes)
    requires IsScalar(c)
    ensures Head(Encode(c) + rest) == Decoded(c, |Encode(c)|, true)
  {
    ScalarInRange(c);
    EncodedLead(c);
    Low6Continues(c);
    Low6Continues(c >> 6);
    Low6Continues(c >> 12);
    var n := EncodedLength(c);
    EncodedCode(c, rest);
    assert Continues(Encode(c) + rest, n);
  }

  lemma ScalarInRange(c: CodePoint)
    requires IsScalar(c)
    ensures c < 0x200000
  {
  }

  lemma EncodedCode(c: CodePoint, rest: Bytes)
    requires c < 0x200000
    ensures CodeOf(Encode(c) + rest, EncodedLength(c)) == c
  {
    if c < 0x80 {
      Rejoin1(c);
    } else if c < 0x800 {
      Rejoin2(c);
    } else if c < 0x10000 {
      Rejoin3(c);
    } else {
      Rejoin4(c);
    }
  }

  lemma Split2(a: Byte, b: Byte)
    requires a & 0xe0 == 0xc0 && IsContinuation(b)
    ensures var c := Code2(a, b); c < 0x800 && 0xc0 | (((c >> 6) & 0x1f) as bv8) == a && Low6(c) == b
  {
  }

  lemma Split3(a: Byte, b: Byte, d: Byte)
    requires a & 0xf0 == 0xe0 && IsContinuation(b) && IsContinuation(d)
    ensures var c := Code3(a, b, d);
            c < 0x10000 && 0xe0 | (((c >> 12) & 0x0f) as bv8) == a && Low6(c >> 6) == b && Low6(c) == d
  {
  }

  lemma Split4(c: CodePoint, a: Byte, b: Byte, d: Byte, e: Byte)
    requires a & 0xf8 == 0xf0 && IsContinuation(b) && IsContinuation(d) && IsContinuation(e) && c == Code4(a, b, d, e)
    ensures c < 0x200000 && 0xf0 | (((c >> 18) & 0x07) as bv8) == a
            && Low6(c >> 12) == b && Low6(c >> 6) == d && Low6(c) == e
  {
  }

  lemma Split1(a: Byte)
    requires a & 0x80 == 0
    ensures a as bv32 < 0x80 && (((a as bv32) & 0x7f) as bv8) == a
  {
  }

  lemma Shortest2(a: Byte, b: Byte)
    requires a & 0xe0 == 0xc0 && IsContinuation(b)
    ensures var c := Code2(a, b);
            c < 0x200000 && EncodedLength(c) <= 2
            && (Encode(c) == [a, b] <==> EncodedLength(c) == 2)
  {
    Split2(a, b);
  }

  lemma Shortest3(a: Byte, b: Byte, d: Byte)
    requires a & 0xf0 == 0xe0 && IsContinuation(b) && IsContinuation(d)
    ensures var c := Code3(a, b, d);
            c < 0x200000 && EncodedLength(c) <= 3 && (Encode(c) == [a, b, d] <==> EncodedLength(c) == 3)
  {
    Split3(a, b, d);
  }

  lemma EncodesInFour(c: CodePoint, a: Byte, b: Byte, d: Byte, e: Byte)
    requires c < 0x200000
    requires 0xf0 | (((c >> 18) & 0x07) as bv8) == a && Low6(c >> 12) == b && Low6(c >> 6) == d && Low6(c) == e
    ensures EncodedLength(c) <= 4 && (Encode(c) == [a, b, d, e] <==> EncodedLength(c) == 4)
  {
  }

  lemma Shortest4(c: CodePoint, a: Byte, b: Byte, d: Byte, e: Byte)
    requires a & 0xf8 == 0xf0 && IsContinuation(b) && IsContinuation(d) && IsContinuation(e) && c == Code4(a, b, d, e)
    ensures c < 0x200000 && EncodedLength(c) <= 4 && (Encode(c) == [a, b, d, e] <==> EncodedLength(c) == 4)
  {
    Split4(c, a, b, d, e);
    EncodesInFour(c, a, b, d, e);
  }

  /** A decoded character is the encoding of its code point exactly when it is not written longer than needed. */
  lemma ShortestForm(text: Bytes)
    requires text != [] && Head(text).ok
    ensures var d := Head(text);
            d.code < 0x200000 && EncodedLength(d.code) <= d.length
            && (Encode(d.code) == text[..d.length] <==> EncodedLength(d.code) == d.length)
  {
    var n := Head(text).length;
    if n == 1 {
      Split1(text[0]);
      assert text[..1] == [text[0]];
    } else if n == 2 {
      Shortest2(text[0], text[1]);
      assert text[..2] == [text[0], text[1]];
    } else if n == 3 {
      Shortest3(text[0], text[1], text[2]);
      assert text[..3] == [text[0], text[1], text[2]];
    } else {
      Shortest4(Head(text).code, text[0], text[1], text[2], text[3]);
      assert text[..4] == [text[0], text[1], text[2], text[3]];
    }
  }

  // ----- Counting -----

  predicate IsCjk(c: CodePoint) {
    0x3400 <= c <= 0x4dbf || 0x4e00 <= c <= 0x9fff || 0xf900 <= c <= 0xfaff || 0x20000 <= c <= 0x2a6df
    || 0x2a700 <= c <= 0x2b73f || 0x2b740 <= c <= 0x2b81f || 0x2b820 <= c <= 0x2ceaf || 0x2f800 <= c <= 0x2fa1f
  }

  function One(c: CodePoint): (n: Counts)
    ensures Total(n) == 1
  {
    if c <= 0x7f then Counts(1, 0, 0) else if IsCjk(c) then Counts(0, 1, 0) else Counts(0, 0, 1)
  }

  /** A character is one piece of a text. */
  const CHARACTERS: Scan := t => if t == [] then Piece(NONE, 0) else Piece(One(Head(t).code), Head(t).length)

  function Count(text: Bytes): Counts {
    CountBy(CHARACTERS, text)
  }

  function Wrapped(c: Counts): Counts {
    Counts(c.ascii % TWO32, c.cjk % TWO32, c.other % TWO32)
  }

  function Increment(n: nat): nat {
    if n + 1 == TWO32 then 0 else n + 1
  }

  lemma WrappedOne(c: Counts, code: CodePoint)
    ensures var w := Wrapped(c);
            Wrapped(Plus(c, One(code)))
            == (if code <= 0x7f then w.(ascii := Increment(w.ascii))
                else if IsCjk(code) then w.(cjk := Increment(w.cjk))
                else w.(other := Increment(w.other)))
  {
  }

  lemma NextCharacter(text: Bytes, index: nat, next: nat, code: CodePoint)
    requires index < next <= |text| && Head(text[index..]).code == code && Head(text[index..]).length == next - index
    ensures Count(text[index..]) == Plus(One(code), Count(text[next..]))
  {
    var rest := text[index..];
    assert CHARACTERS(rest) == Piece(One(code), next - index) && Takes(CHARACTERS, rest);
    assert rest[next - index..] == text[next..];
  }

  method CountOne(counts: Counts, code: CodePoint, ghost seen: Counts) returns (counts': Counts)
    requires counts == Wrapped(seen)
    ensures counts' == Wrapped(Plus(seen, One(code)))
  {
    WrappedOne(seen, code);
    if code <= 0x7f {
      return counts.(ascii := Increment(counts.ascii));
    }
    if IsCjk(code) {
      return counts.(cjk := Increment(counts.cjk));
    }
    return counts.(other := Increment(counts.other));
  }

  /** Where the loop stands: what was counted, and what is left. */
  ghost predicate Counting(text: Bytes, index: nat, seen: Counts) {
    index <= |text| && Plus(seen, CountBy(CHARACTERS, text[index..])) == CountBy(CHARACTERS, text)
  }

  lemma CountingStarts(text: Bytes)
    ensures Counting(text, 0, NONE)
  {
    assert text[0..] == text;
    PlusNone(CountBy(CHARACTERS, text));
  }

  lemma CountingEnds(text: Bytes, seen: Counts)
    requires Counting(text, |text|, seen)
    ensures seen == Count(text)
  {
    CountNothing(CHARACTERS, text[|text|..]);
    PlusNone(seen);
  }

  lemma CountingStep(text: Bytes, index: nat, next: nat, code: CodePoint, seen: Counts)
    requires Counting(text, index, seen) && index < next <= |text|
    requires Head(text[index..]).code == code && Head(text[index..]).length == next - index
    ensures Counting(text, next, Plus(seen, One(code)))
  {
    NextCharacter(text, index, next, code);
    PlusAssociates(seen, One(code), CountBy(CHARACTERS, text[next..]));
  }

  /** `count_characters`, with its 32-bit counters. */
  method CountCharacters(text: Bytes) returns (counts: Counts)
    ensures counts == Wrapped(Count(text))
  {
    counts := NONE;
    var index := 0;
    ghost var seen := NONE;
    CountingStarts(text);
    while index < |text|
      invariant Counting(text, index, seen) && counts == Wrapped(seen)
    {
      var next, code, ok := DecodeNext(text, index);
      CountingStep(text, index, next, code, seen);
      counts := CountOne(counts, code, seen);
      seen := Plus(seen, One(code));
      index := next;
    }
    CountingEnds(text, seen);
  }

  // ----- Counts of parts -----

  /** Every character of the text decodes. */
  predicate WellFormed(text: Bytes)
    decreases |text|
  {
    text == [] || (Head(text).ok && WellFormed(text[Head(text).length..]))
  }

  function EncodeAll(codes: seq<CodePoint>): Bytes {
    if codes == [] then [] else Encode(codes[0]) + EncodeAll(codes[1..])
  }

  function KindCounts(codes: seq<CodePoint>): Counts {
    if codes == [] then NONE else Plus(One(codes[0]), KindCounts(codes[1..]))
  }

  lemma EncodedStep(c: CodePoint, rest: Bytes)
    requires IsScalar(c)
    ensures WellFormed(rest) ==> WellFormed(Encode(c) + rest)
    ensures Count(Encode(c) + rest) == Plus(One(c), Count(rest))
  {
    var text := Encode(c) + rest;
    HeadOfEncoded(c, rest);
    assert text[0..] == text && text[|Encode(c)|..] == rest;
    NextCharacter(text, 0, |Encode(c)|, c);
  }

  /** Encoded scalar values are well formed, and counting their bytes counts them. */
  lemma {:induction false} EncodedCounts(codes: seq<CodePoint>)
    requires forall i :: 0 <= i < |codes| ==> IsScalar(codes[i])
    ensures WellFormed(EncodeAll(codes)) && Count(EncodeAll(codes)) == KindCounts(codes)
  {
    if codes != [] {
      EncodedCounts(codes[1..]);
      EncodedStep(codes[0], EncodeAll(codes[1..]));
    }
  }

  /** The text is the beginning of a character that more bytes could complete. */
  predicate Pending(text: Bytes) {
    text != [] && Announced(text[0]) > |text| && forall i :: 1 <= i < |text| ==> IsContinuation(text[i])
  }

  const PENDING: Bytes -> bool := t => Pending(t)

  /** The continuation bytes a pending text lacks. */
  const COMPLETION: Bytes -> Bytes := t => if Pending(t) then seq(Announced(t[0]) - |t|, i => 0x80) else []

  /** The text does not end inside a character. */
  predicate Closed(text: Bytes) {
    ClosedBy(CHARACTERS, PENDING, text)
  }

  lemma HeadStays(a: Bytes, b: Bytes)
    requires a != [] && !Pending(a)
    ensures Head(a + b) == Head(a)
  {
    var n := Announced(a[0]);
    if Head(a).ok {
      assert Continues(a + b, n);
    } else if n > 0 {
      var i :| 1 <= i < |a| && i < n && !IsContinuation(a[i]);
      assert !IsContinuation((a + b)[i]);
    }
  }

  lemma CompletedHead(t: Bytes)
    requires Pending(t)
    ensures COMPLETION(t) != [] && Head(t + COMPLETION(t)).length == |t| + |COMPLETION(t)|
  {
    var b := COMPLETION(t);
    var text := t + b;
    assert forall i :: 0 <= i < |b| ==> IsContinuation(b[i]);
    assert Continues(text, |text|);
  }

  lemma CharactersAreSane()
    ensures Sane(CHARACTERS)
  {
    forall t | t != [] ensures Takes(CHARACTERS, t) && Total(CHARACTERS(t).counts) == 1 {
      assert Total(One(Head(t).code)) == 1;
    }
  }

  lemma CharactersAreSteady()
    ensures Steady(CHARACTERS, PENDING)
  {
    forall t, u | t != [] && !PENDING(t) ensures CHARACTERS(t + u) == CHARACTERS(t) {
      HeadStays(t, u);
    }
  }

  lemma CharactersComplete()
    ensures Completes(CHARACTERS, PENDING, COMPLETION)
  {
    forall t | t != [] && PENDING(t)
      ensures COMPLETION(t) != [] && CHARACTERS(t + COMPLETION(t)).length == |t| + |COMPLETION(t)|
    {
      CompletedHead(t);
    }
  }

  lemma {:induction false} WellFormedIsClosed(text: Bytes)
    requires WellFormed(text)
    ensures Closed(text)
    decreases |text|
  {
    if text != [] {
      WellFormedIsClosed(text[Head(text).length..]);
      assert !PENDING(text);
    }
  }

  /**
   Counting a text in two parts gives the count of the whole, whatever follows, exactly when
   the first part ends on a character.
   */
  lemma CountsAddExactly(a: Bytes)
    ensures (forall b :: CountBy(CHARACTERS, a + b) == Plus(CountBy(CHARACTERS, a), CountBy(CHARACTERS, b))) <==>
              Closed(a)
  {
    CharactersAreSane();
    CharactersAreSteady();
    CharactersComplete();
    AddsExactly(CHARACTERS, PENDING, COMPLETION, a);
  }

  lemma CountAppend(a: Bytes, b: Bytes)
    requires Closed(a)
    ensures Count(a + b) == Plus(Count(a), Count(b))
  {
    CharactersAreSane();
    CharactersAreSteady();
    AppendBy(CHARACTERS, PENDING, a, b);
  }

  /** A byte that starts no character, or one without its continuation, is a piece of its own. */
  lemma LoneByte(text: Bytes)
    requires text != [] && (Announced(text[0]) == 0 || !Continues(text, Announced(text[0])))
    ensures CHARACTERS(text).length == 1
  {
  }

  lemma WholeCharacter(text: Bytes)
    requires text != [] && Announced(text[0]) == |text| && Continues(text, |text|)
    ensures Total(Count(text)) == 1
  {
    CharactersAreSane();
    OnePiece(CHARACTERS, text);
  }

  lemma ContinuationStartsNothing(b: Byte)
    requires IsContinuation(b)
    ensures Announced(b) == 0
  {
  }

  /** Three bytes of one character, cut after the first. */
  predicate IsCut(a: Bytes, b: Bytes) {
    |a| == 1 && |b| == 2 && Announced(a[0]) == 3 && IsContinuation(b[0]) && IsContinuation(b[1])
  }

  lemma SomeCut(a: Bytes, b: Bytes)
    requires a == [0xe4] && b == [0xbd, 0xa0]
    ensures IsCut(a, b)
  {
  }

  lemma BrokenByte(text: Bytes)
    requires |text| == 1 && Announced(text[0]) != 1
    ensures Total(Count(text)) == 1
  {
    CharactersAreSane();
    OnePiece(CHARACTERS, text);
  }

  lemma BrokenPair(text: Bytes, second: Bytes)
    requires |text| == 2 && Announced(text[0]) == 0 && Announced(text[1]) == 0 && second == text[1..]
    ensures Total(Count(text)) == 2
  {
    CharactersAreSane();
    LoneByte(text);
    LoneByte(second);
    TwoPieces(CHARACTERS, text, second);
  }

  lemma JoinedCut(a: Bytes, b: Bytes)
    requires IsCut(a, b)
    ensures Total(Count(a + b)) == 1
  {
    var text := a + b;
    assert text[0] == a[0] && text[1] == b[0] && text[2] == b[1];
    WholeCharacter(text);
  }

  /** The failing case: together they count as one character, apart as three. */
  lemma CutCharacter(a: Bytes, b: Bytes)
    requires IsCut(a, b)
    ensures Total(Count(a + b)) == 1 && Total(Count(a)) + Total(Count(b)) == 3
  {
    ContinuationStartsNothing(b[0]);
    ContinuationStartsNothing(b[1]);
    JoinedCut(a, b);
    BrokenByte(a);
    BrokenPair(b, b[1..]);
  }

  // ----- Estimates, over exact rationals -----

  datatype Config = Config(english: real, cjk: real, other: real, margin: real)

  predicate ConsistentConfig(c: Config) {
    c.english > 0.0 && c.cjk > 0.0 && c.other > 0.0 && c.margin >= 0.0
  }

  const DEFAULT_CONFIG := Config(4.0, 1.5, 2.0, 0.05)

  /** An inconsistent configuration is replaced by the default one. */
  function Effective(c: Config): (e: Config)
    ensures ConsistentConfig(e)
  {
    if ConsistentConfig(c) then c else DEFAULT_CONFIG
  }

  function Raw(n: Counts, c: Config): real
    requires ConsistentConfig(c)
  {
    (n.ascii as real) / c.english + (n.cjk as real) / c.cjk + (n.other as real) / c.other
  }

  function Ceil(x: real): int {
    0 - (0.0 - x).Floor
  }

  function Scaled(x: real, c: Config): real {
    x * (1.0 + c.margin)
  }

  function Estimate(n: Counts, c: Config): int
    requires ConsistentConfig(c)
  {
    if Raw(n, c) <= 0.0 then 0 else Ceil(Scaled(Raw(n, c), c))
  }

  lemma DivideSum(m: nat, n: nat, d: real)
    requires d > 0.0
    ensures ((m + n) as real) / d == (m as real) / d + (n as real) / d
  {
    assert ((m + n) as real) == (m as real) + (n as real);
  }

  lemma DivideNonNegative(m: nat, d: real)
    requires d > 0.0
    ensures (m as real) / d >= 0.0
  {
    if m > 0 {
      assert (m as real) > 0.0;
    }
  }

  lemma RawNonNegative(n: Counts, c: Config)
    requires ConsistentConfig(c)
    ensures Raw(n, c) >= 0.0
  {
    DivideNonNegative(n.ascii, c.english);
    DivideNonNegative(n.cjk, c.cjk);
    DivideNonNegative(n.other, c.other);
  }

  lemma RawPlus(x: Counts, y: Counts, c: Config)
    requires ConsistentConfig(c)
    ensures Raw(Plus(x, y), c) == Raw(x, c) + Raw(y, c)
  {
    DivideSum(x.ascii, y.ascii, c.english);
    DivideSum(x.cjk, y.cjk, c.cjk);
    DivideSum(x.other, y.other, c.other);
  }

  lemma CeilSubadditive(x: real, y: real)
    ensures Ceil(x + y) <= Ceil(x) + Ceil(y)
  {
    assert 0.0 - (x + y) == (0.0 - x) + (0.0 - y);
  }

  lemma ScaledSum(x: real, y: real, c: Config)
    ensures Scaled(x + y, c) == Scaled(x, c) + Scaled(y, c)
  {
  }

  lemma ScaledNonNegative(x: real, c: Config)
    requires x >= 0.0 && ConsistentConfig(c)
    ensures Scaled(x, c) >= x && Ceil(Scaled(x, c)) >= 0
  {
    assert x * c.margin >= 0.0;
    assert Scaled(x, c) == x + x * c.margin;
  }

  /** Counted together, two texts are never estimated higher than apart. */
  lemma EstimatePlus(x: Counts, y: Counts, c: Config)
    requires ConsistentConfig(c)
    ensures Estimate(Plus(x, y), c) <= Estimate(x, c) + Estimate(y, c)
  {
    var p, q := Raw(x, c), Raw(y, c);
    RawPlus(x, y, c);
    RawNonNegative(x, c);
    RawNonNegative(y, c);
    ScaledSum(p, q, c);
    ScaledNonNegative(p, c);
    ScaledNonNegative(q, c);
    CeilSubadditive(Scaled(p, c), Scaled(q, c));
  }

  function EstimateText(text: Bytes, c: Config): int
    requires ConsistentConfig(c)
  {
    Estimate(Count(text), c)
  }

  /** `e` is the least whole number from `x` on. */
  predicate RoundsUp(x: real, e: int) {
    x <= e as real < x + 1.0
  }

  lemma CeilRoundsUp(x: real)
    ensures RoundsUp(x, Ceil(x))
  {
  }

  lemma ZeroDivides(d: real)
    requires d > 0.0
    ensures 0.0 / d == 0.0
  {
  }

  lemma RawOneKind(n: Counts, c: Config, k: nat, weight: real)
    requires ConsistentConfig(c) && OneKind(n, c, k, weight)
    ensures weight > 0.0 && Raw(n, c) == k as real / weight
  {
    ZeroDivides(c.english);
    ZeroDivides(c.cjk);
    ZeroDivides(c.other);
  }

  lemma EstimateRoundsUp(n: Counts, c: Config, raw: real)
    requires ConsistentConfig(c) && raw == Raw(n, c)
    ensures RoundsUp(Scaled(raw, c), Estimate(n, c))
  {
    RawNonNegative(n, c);
    CeilRoundsUp(Scaled(raw, c));
    if raw <= 0.0 {
      assert raw == 0.0;
      assert Scaled(raw, c) == 0.0;
    }
  }

  /** All the characters are of one kind, and this is its weight. */
  predicate OneKind(n: Counts, c: Config, k: nat, weight: real) {
    (n == Counts(k, 0, 0) && weight == c.english) || (n == Counts(0, k, 0) && weight == c.cjk)
    || (n == Counts(0, 0, k) && weight == c.other)
  }

  lemma EstimateKind(n: Counts, c: Config, k: nat, weight: real)
    requires ConsistentConfig(c) && OneKind(n, c, k, weight)
    ensures weight > 0.0 && RoundsUp((k as real / weight) * (1.0 + c.margin), Estimate(n, c))
  {
    RawOneKind(n, c, k, weight);
    EstimateRoundsUp(n, c, k as real / weight);
  }

  /**
   A text of one kind of character only: their number over the weight of that kind, and the
   margin on top, rounded up.
   */
  lemma EstimateOneKind(text: Bytes, c: Config, k: nat, weight: real)
    requires ConsistentConfig(c) && OneKind(Count(text), c, k, weight)
    ensures weight > 0.0 && RoundsUp((k as real / weight) * (1.0 + c.margin), EstimateText(text, c))
  {
    EstimateKind(Count(text), c, k, weight);
  }

  /** Bytes below 0x80 count one by one as English characters. */
  lemma {:induction false} AsciiCounts(text: Bytes)
    requires forall i :: 0 <= i < |text| ==> text[i] & 0x80 == 0
    ensures Count(text) == Counts(|text|, 0, 0)
  {
    if text != [] {
      AsciiHead(text);
      AsciiCounts(text[1..]);
      CharactersAreSane();
      assert Takes(CHARACTERS, text);
    }
  }

  lemma AsciiHead(text: Bytes)
    requires text != [] && text[0] & 0x80 == 0
    ensures CHARACTERS(text) == Piece(Counts(1, 0, 0), 1)
  {
    assert Announced(text[0]) == 1;
    assert text[0] as bv32 < 0x80;
  }

  /**
   The estimate of a concatenation is at most the sum of the estimates, when the first text
   does not end inside a character.
   */
  lemma EstimateSubadditive(a: Bytes, b: Bytes, c: Config)
    requires ConsistentConfig(c) && Closed(a)
    ensures EstimateText(a + b, c) <= EstimateText(a, c) + EstimateText(b, c)
  {
    CountAppend(a, b);
    EstimatePlus(Count(a), Count(b), c);
  }

  function Concat(messages: seq<Bytes>): Bytes {
    if messages == [] then [] else messages[0] + Concat(messages[1..])
  }

  function SumOf(estimate: Bytes -> int, messages: seq<Bytes>): int {
    if messages == [] then 0 else estimate(messages[0]) + SumOf(estimate, messages[1..])
  }

  function EstimateSum(messages: seq<Bytes>, c: Config): int
    requires ConsistentConfig(c)
  {
    SumOf(Estimator(c), messages)
  }

  function Estimator(c: Config): Bytes -> int
    requires ConsistentConfig(c)
  {
    m => EstimateText(m, c)
  }

  /** Joining messages never raises the estimate. */
  lemma {:induction false} EstimateMessages(messages: seq<Bytes>, c: Config)
    requires ConsistentConfig(c) && forall i :: 0 <= i < |messages| ==> Closed(messages[i])
    ensures EstimateText(Concat(messages), c) <= EstimateSum(messages, c)
  {
    if messages != [] {
      EstimateMessages(messages[1..], c);
      EstimateSubadditive(messages[0], Concat(messages[1..]), c);
    }
  }

  lemma EstimateNonNegative(n: Counts, c: Config)
    requires ConsistentConfig(c)
    ensures Estimate(n, c) >= 0
  {
    RawNonNegative(n, c);
    ScaledNonNegative(Raw(n, c), c);
  }

  /** What the code estimates of one text: from 32-bit counters. */
  function WrappedEstimator(c: Config): Bytes -> int
    requires ConsistentConfig(c)
  {
    m => Estimate(Wrapped(Count(m)), c)
  }

  method EstimateTokens(text: Bytes, c: Config) returns (estimate: nat)
    requires ConsistentConfig(c)
    ensures estimate == WrappedEstimator(c)(text)
  {
    var counts := CountCharacters(text);
    EstimateNonNegative(counts, c);
    estimate := Estimate(counts, c);
  }

  lemma NothingWrapped(n: Counts)
    requires Total(n) < TWO32
    ensures Wrapped(n) == n
  {
  }

  /** Below 2^32 characters a message the counters are exact. */
  lemma {:induction false} ExactSum(messages: seq<Bytes>, c: Config)
    requires ConsistentConfig(c) && forall i :: 0 <= i < |messages| ==> Total(Count(messages[i])) < TWO32
    ensures SumOf(WrappedEstimator(c), messages) == EstimateSum(messages, c)
  {
    if messages != [] {
      NothingWrapped(Count(messages[0]));
      ExactSum(messages[1..], c);
    }
  }

  method AddWrapping(sum: nat, more: nat) returns (sum': nat, ghost wraps: nat)
    ensures sum + more == sum' + TWO32 * wraps && sum' < TWO32
  {
    sum' := (sum + more) % TWO32;
    wraps := (sum + more) / TWO32;
  }

  lemma RemainderIs(exact: int, sum: nat, wraps: nat)
    requires exact == sum + TWO32 * wraps && sum < TWO32
    ensures exact % TWO32 == sum
  {
  }

  /** The message loop, with its 32-bit counters and its 32-bit sum. */
  method EstimateAll(messages: seq<Bytes>, config: Config) returns (sum: nat)
    ensures sum == SumOf(WrappedEstimator(Effective(config)), messages) % TWO32
    ensures (forall i :: 0 <= i < |messages| ==> Total(Count(messages[i])) < TWO32) ==>
              sum == EstimateSum(messages, Effective(config)) % TWO32
  {
    var c := Effective(config);
    sum := SumMessages(messages, c, WrappedEstimator(c));
    if forall i :: 0 <= i < |messages| ==> Total(Count(messages[i])) < TWO32 {
      ExactSum(messages, c);
    }
  }

  method SumMessages(messages: seq<Bytes>, c: Config, ghost e: Bytes -> int) returns (sum: nat)
    requires ConsistentConfig(c) && e == WrappedEstimator(c)
    ensures sum == SumOf(e, messages) % TWO32
  {
    sum := 0;
    ghost var wraps: nat := 0;
    assert messages[0..] == messages;
    for i := 0 to |messages|
      invariant sum < TWO32
      invariant sum + TWO32 * wraps + SumOf(e, messages[i..]) == SumOf(e, messages)
    {
      var estimate := EstimateTokens(messages[i], c);
      assert messages[i..][0] == messages[i] && messages[i..][1..] == messages[i + 1..];
      ghost var more: nat;
      sum, more := AddWrapping(sum, estimate);
      wraps := wraps + more;
    }
    assert messages[|messages|..] == [];
    RemainderIs(SumOf(e, messages), sum, wraps);
  }

  /**
   The 32-bit budget comparison is the true one exactly when the sum does not wrap, or its
   remainder is over budget too.
   */
  predicate OverBudget(estimated: nat, reserved: nat, window: nat) {
    (estimated + reserved) % TWO32 > window
  }

  lemma OverBudgetExactly(estimated: nat, reserved: nat, window: nat)
    requires estimated < TWO32 && reserved < TWO32 && window < TWO32
    ensures (OverBudget(estimated, reserved, window) <==> estimated + reserved > window) <==>
              (estimated + reserved < TWO32 || estimated + reserved - TWO32 > window)
  {
  }

  /** The failing case: a sum that wraps to zero is over every budget and passes each. */
  lemma WrappedSumPasses(window: nat)
    requires 0 < window < TWO32
    ensures TWO32 - 1 + 1 > window && !OverBudget(TWO32 - 1, 1, window)
  {
  }
}
