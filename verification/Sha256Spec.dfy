/**
 SHA-256 as FIPS 180-4 defines it; `Sha256` holds the padding, schedule and compression
 loops of the source, proved to compute it.

 The word primitives are gathered in one record. The recursive definition and the loops
 are both written over any such record, so the refinement does not depend on what the
 primitives do; `SHA256_PRIMITIVES` are the ones of the standard.
 */
module Sha256Spec {
  import opened ByteText
  import opened Widths

  type Word = bv32

  // ----- Word primitives: sections 4.1.2 and 4.2.2 -----

  function Add(x: Word, y: Word): Word { x + y }
  function Choose(x: Word, y: Word, z: Word): Word { (x & y) ^ (!x & z) }
  function Majority(x: Word, y: Word, z: Word): Word { (x & y) ^ (x & z) ^ (y & z) }
  function BigSigma0(x: Word): Word { ((x >> 2) | (x << 30)) ^ ((x >> 13) | (x << 19)) ^ ((x >> 22) | (x << 10)) }
  function BigSigma1(x: Word): Word { ((x >> 6) | (x << 26)) ^ ((x >> 11) | (x << 21)) ^ ((x >> 25) | (x << 7)) }
  function SmallSigma0(x: Word): Word { ((x >> 7) | (x << 25)) ^ ((x >> 18) | (x << 14)) ^ (x >> 3) }
  function SmallSigma1(x: Word): Word { ((x >> 17) | (x << 15)) ^ ((x >> 19) | (x << 13)) ^ (x >> 10) }

  /** The round constants, eight to a row. */
  function ConstantRow(i: nat): (row: seq<Word>)
    requires i < 8
    ensures |row| == 8
  {
    if i == 0 then [0x428a2f98, 0x71374491, 0xb5c0fbcf, 0xe9b5dba5, 0x3956c25b, 0x59f111f1, 0x923f82a4, 0xab1c5ed5]
    else if i == 1 then [0xd807aa98, 0x12835b01, 0x243185be, 0x550c7dc3, 0x72be5d74, 0x80deb1fe, 0x9bdc06a7, 0xc19bf174]
    else if i == 2 then [0xe49b69c1, 0xefbe4786, 0x0fc19dc6, 0x240ca1cc, 0x2de92c6f, 0x4a7484aa, 0x5cb0a9dc, 0x76f988da]
    else if i == 3 then [0x983e5152, 0xa831c66d, 0xb00327c8, 0xbf597fc7, 0xc6e00bf3, 0xd5a79147, 0x06ca6351, 0x14292967]
    else if i == 4 then [0x27b70a85, 0x2e1b2138, 0x4d2c6dfc, 0x53380d13, 0x650a7354, 0x766a0abb, 0x81c2c92e, 0x92722c85]
    else if i == 5 then [0xa2bfe8a1, 0xa81a664b, 0xc24b8b70, 0xc76c51a3, 0xd192e819, 0xd6990624, 0xf40e3585, 0x106aa070]
    else if i == 6 then [0x19a4c116, 0x1e376c08, 0x2748774c, 0x34b0bcb5, 0x391c0cb3, 0x4ed8aa4a, 0x5b9cca4f, 0x682e6ff3]
    else [0x748f82ee, 0x78a5636f, 0x84c87814, 0x8cc70208, 0x90befffa, 0xa4506ceb, 0xbef9a3f7, 0xc67178f2]
  }

  function K(t: nat): Word {
    if t < 64 then ConstantRow(t / 8)[t % 8] else 0
  }

  /** Four bytes as a big-endian word, and back. */
  function Load(b0: Byte, b1: Byte, b2: Byte, b3: Byte): Word {
    ((b0 as bv32) << 24) | ((b1 as bv32) << 16) | ((b2 as bv32) << 8) | (b3 as bv32)
  }

  function Store(w: Word, i: nat): Byte {
    if i == 0 then ((w >> 24) & 0xff) as bv8
    else if i == 1 then ((w >> 16) & 0xff) as bv8
    else if i == 2 then ((w >> 8) & 0xff) as bv8
    else (w & 0xff) as bv8
  }

  /** A stored word loads back, so the digest bytes carry the whole hash value. */
  lemma LoadStore(w: Word)
    ensures Load(Store(w, 0), Store(w, 1), Store(w, 2), Store(w, 3)) == w
  {
  }

  datatype Vars = Vars(a: Word, b: Word, c: Word, d: Word, e: Word, f: Word, g: Word, h: Word)

  datatype Primitives = Primitives(
    add: (Word, Word) -> Word,
    choose: (Word, Word, Word) -> Word,
    majority: (Word, Word, Word) -> Word,
    bigSigma0: Word -> Word,
    bigSigma1: Word -> Word,
    smallSigma0: Word -> Word,
    smallSigma1: Word -> Word,
    k: nat -> Word,
    load: (Byte, Byte, Byte, Byte) -> Word,
    store: (Word, nat) -> Byte,
    iv: Vars
  )

  const IV := Vars(0x6a09e667, 0xbb67ae85, 0x3c6ef372, 0xa54ff53a, 0x510e527f, 0x9b05688c, 0x1f83d9ab, 0x5be0cd19)

  const SHA256_PRIMITIVES := Primitives(Add, Choose, Majority, BigSigma0, BigSigma1, SmallSigma0, SmallSigma1,
                                        K, Load, Store, IV)

  // ----- Section 5.1.1: padding -----

  /** How many zero bytes follow the one bit: the least number that leaves 8 bytes in the block. */
  function ZeroCount(n: nat): (z: nat)
    ensures z < 64 && (n + 1 + z) % 64 == 56
  {
    (119 - n % 64) % 64
  }

  function Power256(n: nat): (p: nat)
    ensures p > 0
  {
    if n == 0 then 1 else Power256(n - 1) * 256
  }

  function Quotient(x: nat, d: nat): (q: nat)
    requires d > 0
  {
    x / d
  }

  /** `x >> (8 * n)` */
  function ShiftRight(x: nat, n: nat): nat {
    Quotient(x, Power256(n))
  }

  /** The top `n` bytes of the 64-bit number `x`, most significant first. */
  function LengthBytes(x: nat, n: nat): (b: Bytes)
    requires n <= 8
    ensures |b| == n
  {
    if n == 0 then [] else LengthBytes(x, n - 1) + [ToByte(ShiftRight(x, 8 - n))]
  }

  /** The length in bits, as the 64-bit word it is kept in. */
  function BitLength(n: nat): nat {
    (n * 8) % TWO64
  }

  function Pad(m: Bytes): Bytes {
    m + [0x80] + Zeros(ZeroCount(|m|)) + LengthBytes(BitLength(|m|), 8)
  }

  // ----- Section 6.2.2: hash computation -----

  function ExpandWord(fn: Primitives, w2: Word, w7: Word, w15: Word, w16: Word): Word {
    fn.add(fn.add(fn.add(fn.smallSigma1(w2), w7), fn.smallSigma0(w15)), w16)
  }

  /** The first `t` words of the message schedule of a block. */
  function Schedule(fn: Primitives, block: seq<Word>, t: nat): (w: seq<Word>)
    requires |block| == 16
    ensures |w| == t
  {
    if t <= 16 then block[..t]
    else
      var w := Schedule(fn, block, t - 1);
      w + [ExpandWord(fn, w[t - 3], w[t - 8], w[t - 16], w[t - 17])]
  }

  function Round(fn: Primitives, v: Vars, k: Word, w: Word): Vars {
    var t1 := fn.add(fn.add(fn.add(fn.add(v.h, fn.bigSigma1(v.e)), fn.choose(v.e, v.f, v.g)), k), w);
    var t2 := fn.add(fn.bigSigma0(v.a), fn.majority(v.a, v.b, v.c));
    Vars(fn.add(t1, t2), v.a, v.b, v.c, fn.add(v.d, t1), v.e, v.f, v.g)
  }

  function Rounds(fn: Primitives, w: seq<Word>, v: Vars, t: nat): Vars
    requires t <= |w|
  {
    if t == 0 then v else Round(fn, Rounds(fn, w, v, t - 1), fn.k(t - 1), w[t - 1])
  }

  function Plus(fn: Primitives, x: Vars, y: Vars): Vars {
    Vars(fn.add(x.a, y.a), fn.add(x.b, y.b), fn.add(x.c, y.c), fn.add(x.d, y.d),
         fn.add(x.e, y.e), fn.add(x.f, y.f), fn.add(x.g, y.g), fn.add(x.h, y.h))
  }

  function WordAt(fn: Primitives, m: Bytes, base: nat): Word
    requires base + 4 <= |m|
  {
    fn.load(m[base], m[base + 1], m[base + 2], m[base + 3])
  }

  /** The first `n` words of the block at `offset`. */
  function BlockWords(fn: Primitives, m: Bytes, offset: nat, n: nat): (b: seq<Word>)
    requires offset + n * 4 <= |m|
    ensures |b| == n
  {
    if n == 0 then [] else BlockWords(fn, m, offset, n - 1) + [WordAt(fn, m, offset + (n - 1) * 4)]
  }

  /** One step of the hash computation, on the block at `offset`. */
  function Block(fn: Primitives, m: Bytes, offset: nat, v: Vars): Vars
    requires offset + 64 <= |m|
  {
    var block := BlockWords(fn, m, offset, 16);
    var w := Schedule(fn, block, 4 * |block|);
    Plus(fn, v, Rounds(fn, w, v, |w|))
  }

  /** The hash value after all the blocks from `offset` on, starting with `v`. */
  function Blocks(fn: Primitives, m: Bytes, offset: nat, v: Vars): Vars
    decreases |m| - offset
  {
    if offset + 64 <= |m| then Blocks(fn, m, offset + 64, Block(fn, m, offset, v)) else v
  }

  function AsSeq(v: Vars): (s: seq<Word>)
    ensures |s| == 8
  {
    [v.a, v.b, v.c, v.d, v.e, v.f, v.g, v.h]
  }

  function WordBytes(fn: Primitives, w: Word): (b: Bytes)
    ensures |b| == 4
  {
    [fn.store(w, 0), fn.store(w, 1), fn.store(w, 2), fn.store(w, 3)]
  }

  /** The words of the hash value, most significant byte first. */
  function DigestOf(fn: Primitives, words: seq<Word>): (b: Bytes)
    ensures |b| == 4 * |words|
  {
    if words == [] then [] else DigestOf(fn, words[..|words| - 1]) + WordBytes(fn, words[|words| - 1])
  }

  function Hash(fn: Primitives, m: Bytes): (digest: Bytes)
    ensures |digest| == 32
  {
    var p := Pad(m);
    DigestOf(fn, AsSeq(Blocks(fn, p, 0, fn.iv)))
  }

  function DigestFor(m: Bytes): (digest: Bytes)
    ensures |digest| == 32
  {
    Hash(SHA256_PRIMITIVES, m)
  }

  // ----- What the padding guarantees -----

  /** The least multiple of 64 that is at least `n + 9`. */
  predicate LeastFit(n: nat, p: nat) {
    p % 64 == 0 && n + 9 <= p < n + 9 + 64
  }

  lemma LeastFitIsLeast(n: nat, p: nat, q: nat)
    requires LeastFit(n, p) && q % 64 == 0 && q >= n + 9
    ensures p <= q
  {
    var i, j := q / 64, p / 64;
    assert q == 64 * i && p == 64 * j;
  }

  /** The padded length is the least multiple of 64 that leaves room for one byte and eight more. */
  lemma PaddedLength(m: Bytes)
    ensures LeastFit(|m|, |Pad(m)|)
    ensures forall n: nat :: n % 64 == 0 && n >= |m| + 9 ==> |Pad(m)| <= n
  {
    var p := |Pad(m)|;
    assert p == |m| + 1 + ZeroCount(|m|) + 8;
    PaddedFits(|m|);
    forall n: nat | n % 64 == 0 && n >= |m| + 9 ensures p <= n {
      LeastFitIsLeast(|m|, p, n);
    }
  }

  lemma PaddedFits(n: nat)
    ensures LeastFit(n, n + 1 + ZeroCount(n) + 8)
  {
  }

  /** After the message comes the one bit, and only zeros up to the length field. */
  lemma OneBit(m: Bytes, i: nat)
    requires |m| <= i < |Pad(m)| - 8
    ensures Pad(m)[i] == if i == |m| then 0x80 else 0
  {
    assert Pad(m)[i] == (m + [0x80] + Zeros(ZeroCount(|m|)))[i];
  }

  /** Padding is injective: no two messages, of any lengths, pad alike. */
  lemma PadInjective(a: Bytes, b: Bytes)
    requires Pad(a) == Pad(b)
    ensures a == b
  {
    var p := Pad(a);
    if |a| < |b| {
      OneBit(a, |b|);
      OneBit(b, |b|);
    } else if |b| < |a| {
      OneBit(b, |a|);
      OneBit(a, |a|);
    }
    assert a == p[..|a|] && b == p[..|b|];
  }

  function BigEndianValue(b: Bytes): nat {
    if b == [] then 0 else BigEndianValue(b[..|b| - 1]) * 256 + b[|b| - 1] as int
  }

  lemma Monotone(d: nat, a: nat, b: nat)
    requires a <= b
    ensures d * a <= d * b
  {
    assert d * b - d * a == d * (b - a);
  }

  lemma TimesSuccessor(d: nat, k: nat)
    ensures d * (k + 1) == d * k + d
  {
  }

  lemma QuotientUnique(x: nat, d: nat, q: nat, r: nat)
    requires d > 0 && r < d && x == d * q + r
    ensures Quotient(x, d) == q
  {
    var k := x / d;
    assert x == d * k + x % d;
    if k < q {
      TimesSuccessor(d, k);
      Monotone(d, k + 1, q);
    } else if k > q {
      TimesSuccessor(d, q);
      Monotone(d, q + 1, k);
    }
  }

  lemma DivideTwice(x: nat, p: nat)
    requires p > 0
    ensures Quotient(x, p) / 256 == Quotient(x, p * 256)
  {
    var q, r := x / p, x % p;
    var q2, r2 := q / 256, q % 256;
    assert x == p * q + r;
    assert p * q == p * 256 * q2 + p * r2 by {
      assert q == 256 * q2 + r2;
    }
    Monotone(p, r2, 255);
    QuotientUnique(x, p * 256, q2, p * r2 + r);
  }

  lemma Power256Of8()
    ensures Power256(8) == TWO64
  {
    assert Power256(1) == 0x100 && Power256(2) == 0x1_0000 && Power256(3) == 0x100_0000;
    assert Power256(4) == 0x1_0000_0000 && Power256(5) == 0x100_0000_0000;
    assert Power256(6) == 0x1_0000_0000_0000 && Power256(7) == 0x100_0000_0000_0000;
  }

  /** The first `n` length bytes hold the number without its low bytes. */
  lemma {:induction false} LengthValue(x: nat, n: nat)
    requires x < TWO64 && n <= 8
    ensures BigEndianValue(LengthBytes(x, n)) == ShiftRight(x, 8 - n)
  {
    if n == 0 {
      Power256Of8();
      QuotientUnique(x, Power256(8), 0, x);
    } else {
      LengthValue(x, n - 1);
      var b := LengthBytes(x, n);
      assert b[..n - 1] == LengthBytes(x, n - 1);
      DivideTwice(x, Power256(8 - n));
      assert Power256(8 - (n - 1)) == Power256(8 - n) * 256;
    }
  }

  /** Below 2^61 bytes the length field holds the exact number of bits. */
  lemma LengthField(m: Bytes)
    requires |m| < 0x2000_0000_0000_0000
    ensures BigEndianValue(Pad(m)[|Pad(m)| - 8..]) == 8 * |m|
  {
    assert BitLength(|m|) == 8 * |m|;
    LengthValue(8 * |m|, 8);
    assert Pad(m)[|Pad(m)| - 8..] == LengthBytes(BitLength(|m|), 8);
  }
}
