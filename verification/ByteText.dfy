/**
 Byte strings, and the two library conversions the access layer relies on:
 `std::to_string` and `std::from_chars` for 64-bit integers.

 A C++ `std::string` is a sequence of bytes, so it is a `seq<bv8>` here.
 */
module ByteText {
  import opened Wrappers

  type Byte = bv8
  type Bytes = seq<Byte>

  const DOT: Byte := 0x2e
  const MINUS: Byte := 0x2d
  const EQUALS: Byte := 0x3d
  const ZERO: Byte := 0x30

  const INT64_MIN: int := -0x8000_0000_0000_0000
  const INT64_MAX: int := 0x7fff_ffff_ffff_ffff

  predicate IsInt64(n: int) {
    INT64_MIN <= n <= INT64_MAX
  }

  /** The byte with a given value. */
  function ByteOf(n: nat): (b: Byte)
    requires n < 256
    ensures b as int == n
  {
    if n == 0 then 0 else ByteOf(n - 1) + 1
  }

  /** `static_cast<std::uint8_t>(n)`. */
  function ToByte(n: nat): (b: Byte)
    ensures b as int == n % 256
  {
    ByteOf(n % 256)
  }

  /** Letters and digits, in the C locale. */
  predicate IsAlnum(b: Byte) {
    0x30 <= b as int <= 0x39 || 0x41 <= b as int <= 0x5a || 0x61 <= b as int <= 0x7a
  }

  /** The bytes of an ASCII literal. */
  function Ascii(s: string): (b: Bytes)
    ensures |b| == |s|
  {
    seq(|s|, i requires 0 <= i < |s| => ToByte(s[i] as int))
  }

  /** Literals that differ in length, or at a position, differ as bytes. */
  lemma AsciiDiffers(a: string, b: string, i: nat)
    requires |a| != |b| || (i < |a| && a[i] as int % 256 != b[i] as int % 256)
    ensures Ascii(a) != Ascii(b)
  {
    if |a| == |b| {
      assert Ascii(a)[i] as int == a[i] as int % 256 && Ascii(b)[i] as int == b[i] as int % 256;
    }
  }

  // ----- Decimal numbers -----

  function DigitByte(d: nat): Byte
    requires d < 10
  {
    ByteOf(0x30 + d)
  }

  predicate IsDigit(b: Byte) {
    0x30 <= b as int <= 0x39
  }

  function DigitValue(b: Byte): (d: nat)
    requires IsDigit(b)
  {
    b as int - 0x30
  }

  lemma DigitRoundTrip(d: nat)
    requires d < 10
    ensures IsDigit(DigitByte(d)) && DigitValue(DigitByte(d)) == d
  {
  }

  predicate AllDigits(s: Bytes) {
    forall i :: 0 <= i < |s| ==> IsDigit(s[i])
  }

  /** `std::to_string` of an unsigned number: no leading zero, never empty. */
  function Digits(n: nat): (s: Bytes)
    ensures |s| > 0
  {
    if n < 10 then [DigitByte(n)] else Digits(n / 10) + [DigitByte(n % 10)]
  }

  function DigitsValue(s: Bytes): nat
    requires AllDigits(s)
  {
    if s == [] then 0
    else DigitsValue(s[..|s| - 1]) * 10 + DigitValue(s[|s| - 1])
  }

  lemma {:induction false} DigitsRoundTrip(n: nat)
    ensures AllDigits(Digits(n)) && DigitsValue(Digits(n)) == n
  {
    DigitRoundTrip(n % 10);
    if n < 10 {
      assert Digits(n) == [DigitByte(n)];
      assert Digits(n)[..0] == [];
    } else {
      DigitsRoundTrip(n / 10);
      var s := Digits(n);
      assert s[..|s| - 1] == Digits(n / 10);
      assert DigitsValue(s) == DigitsValue(Digits(n / 10)) * 10 + DigitValue(DigitByte(n % 10));
    }
  }

  /** Different numbers never print alike. */
  lemma DigitsInjective(a: nat, b: nat)
    requires Digits(a) == Digits(b)
    ensures a == b
  {
    DigitsRoundTrip(a);
    DigitsRoundTrip(b);
  }

  /** `std::to_string` of a signed 64-bit number. */
  function Signed(n: int): Bytes {
    if n < 0 then [MINUS] + Digits(-n) else Digits(n)
  }

  /**
   `std::from_chars` into an `std::int64_t`, accepted only when the whole text is
   consumed: an optional minus sign, at least one digit, a value in range.
   */
  function ParseInt64(s: Bytes): Option<int> {
    if s != [] && s[0] == MINUS then
      if |s| > 1 && AllDigits(s[1..]) && IsInt64(0 - DigitsValue(s[1..])) then Some(0 - DigitsValue(s[1..])) else None
    else if s != [] && AllDigits(s) && IsInt64(DigitsValue(s)) then Some(DigitsValue(s))
    else None
  }

  lemma MinusIsNoDigit()
    ensures !IsDigit(MINUS)
  {
  }

  lemma SignedRoundTrip(n: int)
    requires IsInt64(n)
    ensures ParseInt64(Signed(n)) == Some(n)
  {
    MinusIsNoDigit();
    if n < 0 {
      DigitsRoundTrip(-n);
      ParseNegative(Digits(-n));
    } else {
      DigitsRoundTrip(n);
      ParsePositive(Digits(n));
    }
  }

  lemma ParsePositive(s: Bytes)
    requires s != [] && AllDigits(s) && IsInt64(DigitsValue(s)) && !IsDigit(MINUS)
    ensures ParseInt64(s) == Some(DigitsValue(s))
  {
    assert s[0] != MINUS;
  }

  lemma ParseNegative(s: Bytes)
    requires s != [] && AllDigits(s) && IsInt64(0 - DigitsValue(s))
    ensures ParseInt64([MINUS] + s) == Some(0 - DigitsValue(s))
  {
    assert ([MINUS] + s)[1..] == s;
  }

  /** The digits of a number as they are printed: no leading zero. */
  predicate PlainDigits(s: Bytes) {
    s != [] && AllDigits(s) && (|s| > 1 ==> s[0] != ZERO)
  }

  predicate PlainNumber(s: Bytes) {
    s != [] && if s[0] == MINUS then PlainDigits(s[1..]) && s[1] != ZERO else PlainDigits(s)
  }

  lemma DigitByteOfValue(b: Byte)
    requires IsDigit(b)
    ensures DigitValue(b) < 10 && DigitByte(DigitValue(b)) == b
    ensures DigitValue(b) == 0 <==> b == ZERO
  {
    SameByte(DigitByte(DigitValue(b)), b);
  }

  /** Small letters and underscores only. */
  ghost predicate IsWord(s: string) {
    forall i :: 0 <= i < |s| ==> 'a' <= s[i] <= 'z' || s[i] == '_'
  }

  lemma WordCharAt(s: string, i: nat)
    requires IsWord(s) && i < |s|
    ensures 0x5f <= s[i] as int % 256
  {
    assert s[i] as int < 256;
  }

  lemma AsciiAt(s: string, i: nat)
    requires i < |s|
    ensures Ascii(s)[i] as int == s[i] as int % 256
  {
  }

  lemma DifferentBytes(a: Byte, b: Byte)
    requires b as int < a as int
    ensures a != b
  {
  }

  lemma WordByteAt(s: string, i: nat, c: Byte)
    requires IsWord(s) && i < |s| && c as int < 0x5f
    ensures Ascii(s)[i] != c
  {
    WordCharAt(s, i);
    AsciiAt(s, i);
    DifferentBytes(Ascii(s)[i], c);
  }

  lemma WordAvoids(s: string, c: Byte)
    requires IsWord(s) && c as int < 0x5f
    ensures Avoids(Ascii(s), c)
  {
    forall i | 0 <= i < |s| ensures Ascii(s)[i] != c {
      WordByteAt(s, i, c);
    }
  }

  lemma SameByte(a: Byte, b: Byte)
    requires a as int == b as int
    ensures a == b
  {
  }

  lemma DigitsAppend(n: nat, v: nat, d: nat)
    requires v > 0 && d < 10 && n == v * 10 + d
    ensures Digits(n) == Digits(v) + [DigitByte(d)]
  {
    assert n / 10 == v && n % 10 == d;
  }

  lemma DigitsValueAppend(s: Bytes, b: Byte)
    requires AllDigits(s) && IsDigit(b)
    ensures AllDigits(s + [b]) && DigitsValue(s + [b]) == DigitsValue(s) * 10 + DigitValue(b)
  {
    assert (s + [b])[..|s|] == s;
  }

  lemma OneDigit(b: Byte)
    requires IsDigit(b)
    ensures DigitsValue([b]) == DigitValue(b) && Digits(DigitValue(b)) == [b]
  {
    DigitByteOfValue(b);
    DigitsValueAppend([], b);
    assert [] + [b] == [b];
  }

  lemma PlainDigitsOf(n: nat)
    ensures PlainDigits(Digits(n)) && (Digits(n)[0] == ZERO <==> n == 0)
    decreases n
  {
    DigitsRoundTrip(n);
    DigitByteOfValue(DigitByte(n % 10));
    DigitRoundTrip(n % 10);
    if n >= 10 {
      PlainDigitsOf(n / 10);
    }
  }

  lemma PlainHead(s: Bytes)
    requires PlainDigits(s) && |s| > 1
    ensures PlainDigits(s[..|s| - 1]) && s[..|s| - 1][0] != ZERO && s == s[..|s| - 1] + [s[|s| - 1]]
  {
  }

  lemma OneMoreDigit(head: Bytes, last: Byte)
    requires AllDigits(head) && IsDigit(last) && DigitsValue(head) > 0 && Digits(DigitsValue(head)) == head
    ensures AllDigits(head + [last]) && Digits(DigitsValue(head + [last])) == head + [last]
  {
    DigitsValueAppend(head, last);
    SameDigits(DigitsValue(head + [last]), DigitsValue(head), last);
  }

  lemma SameDigits(n: nat, v: nat, last: Byte)
    requires v > 0 && IsDigit(last) && n == v * 10 + DigitValue(last)
    ensures Digits(n) == Digits(v) + [last]
  {
    DigitByteOfValue(last);
    DigitsAppend(n, v, DigitValue(last));
  }

  lemma {:induction false} DigitsOfValue(s: Bytes)
    requires PlainDigits(s)
    ensures Digits(DigitsValue(s)) == s
  {
    if |s| == 1 {
      OneDigit(s[0]);
      assert s == [s[0]];
    } else {
      var head := s[..|s| - 1];
      PlainHead(s);
      DigitsOfValue(head);
      PlainDigitsOf(DigitsValue(head));
      OneMoreDigit(head, s[|s| - 1]);
    }
  }

  lemma NaturalParse(s: Bytes)
    requires AllDigits(s) && s != []
    ensures Digits(DigitsValue(s)) == s <==> PlainDigits(s)
  {
    if PlainDigits(s) {
      DigitsOfValue(s);
    } else {
      PlainDigitsOf(DigitsValue(s));
    }
  }

  lemma NegativeParse(s: Bytes)
    requires s != [] && AllDigits(s)
    ensures Signed(0 - DigitsValue(s)) == [MINUS] + s <==> PlainDigits(s) && s[0] != ZERO
  {
    var n := DigitsValue(s);
    if n == 0 {
      ZeroParse(s);
    } else {
      SignedNegative(n);
      SamePrefix(Digits(n), s);
      PositiveParse(s);
    }
  }

  lemma SignedNegative(n: nat)
    requires n > 0
    ensures Signed(0 - n) == [MINUS] + Digits(n)
  {
  }

  lemma PositiveParse(s: Bytes)
    requires s != [] && AllDigits(s) && DigitsValue(s) > 0
    ensures Digits(DigitsValue(s)) == s <==> PlainDigits(s) && s[0] != ZERO
  {
    NaturalParse(s);
    PlainDigitsOf(DigitsValue(s));
  }

  lemma ZeroParse(s: Bytes)
    requires s != [] && AllDigits(s) && DigitsValue(s) == 0
    ensures Digits(0) != [MINUS] + s
    ensures !(PlainDigits(s) && s[0] != ZERO)
  {
    PlainDigitsOf(0);
    if PlainDigits(s) {
      DigitsOfValue(s);
    }
  }

  lemma SamePrefix(a: Bytes, b: Bytes)
    ensures [MINUS] + a == [MINUS] + b <==> a == b
  {
    assert ([MINUS] + a)[1..] == a && ([MINUS] + b)[1..] == b;
  }

  /** A number read from a text prints as that text exactly when the text is in printed form. */
  lemma SignedParse(s: Bytes)
    requires ParseInt64(s).Some?
    ensures Signed(ParseInt64(s).value) == s <==> PlainNumber(s)
  {
    if s[0] == MINUS {
      NegativeParse(s[1..]);
      assert [MINUS] + s[1..] == s;
    } else {
      NaturalParse(s);
    }
  }

  function Cons(c: Byte, rest: Option<Bytes>): Option<Bytes> {
    match rest
    case None => None
    case Some(tail) => Some([c] + tail)
  }

  function Zeros(n: nat): (z: Bytes)
    ensures |z| == n && forall i :: 0 <= i < n ==> z[i] == 0
  {
    if n == 0 then [] else Zeros(n - 1) + [0]
  }

  predicate Avoids(s: Bytes, b: Byte) {
    forall i :: 0 <= i < |s| ==> s[i] != b
  }

  lemma SignedAvoids(n: int, b: Byte)
    requires b != MINUS && !IsDigit(b)
    ensures Avoids(Signed(n), b)
  {
    DigitsRoundTrip(if n < 0 then -n else n);
  }
}
