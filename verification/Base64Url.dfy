/**
 Unpadded base64url, as section 5 of RFC 4648 defines it with the padding left out
 as section 3.2 allows: the encoder, the decoder, and their exact relationship.
 */
module Base64Url {
  import opened ByteText
  import opened Wrappers

  // ----- The alphabet -----

  predicate IsSextet(v: bv32) {
    v < 64
  }

  /** The character of a six-bit value: `A-Z`, `a-z`, `0-9`, `-`, `_`. */
  function Symbol(v: bv32): Byte
    requires IsSextet(v)
  {
    if v < 26 then (v + 0x41) as bv8
    else if v < 52 then (v + 0x47) as bv8
    else if v < 62 then (v - 4) as bv8
    else if v == 62 then 0x2d
    else 0x5f
  }

  predicate InAlphabet(c: Byte) {
    0x41 <= c <= 0x5a || 0x61 <= c <= 0x7a || 0x30 <= c <= 0x39 || c == 0x2d || c == 0x5f
  }

  /** The value of an alphabet character; meaningless elsewhere. */
  function Sextet(c: Byte): (v: bv32)
    ensures IsSextet(v)
  {
    if 0x41 <= c <= 0x5a then (c - 0x41) as bv32
    else if 0x61 <= c <= 0x7a then (c - 0x47) as bv32
    else if 0x30 <= c <= 0x39 then (c + 4) as bv32
    else if c == 0x2d then 62
    else 63
  }

  lemma SymbolSextet(v: bv32)
    requires IsSextet(v)
    ensures InAlphabet(Symbol(v)) && Sextet(Symbol(v)) == v
  {
  }

  lemma SextetSymbol(c: Byte)
    requires InAlphabet(c)
    ensures Symbol(Sextet(c)) == c
  {
  }

  predicate AllInAlphabet(t: Bytes) {
    forall i :: 0 <= i < |t| ==> InAlphabet(t[i])
  }

  // ----- Blocks of three bytes and four characters -----

  function Chunk(a: Byte, b: Byte, c: Byte): bv32 {
    ((a as bv32) << 16) | ((b as bv32) << 8) | (c as bv32)
  }

  function At18(chunk: bv32): (v: bv32) ensures IsSextet(v) { (chunk >> 18) & 0x3f }
  function At12(chunk: bv32): (v: bv32) ensures IsSextet(v) { (chunk >> 12) & 0x3f }
  function At6(chunk: bv32): (v: bv32) ensures IsSextet(v) { (chunk >> 6) & 0x3f }
  function At0(chunk: bv32): (v: bv32) ensures IsSextet(v) { chunk & 0x3f }

  /** The first, second and third byte carried by consecutive six-bit values. */
  function First(v0: bv32, v1: bv32): Byte { (((v0 << 2) | (v1 >> 4)) & 0xff) as bv8 }
  function Second(v1: bv32, v2: bv32): Byte { (((v1 << 4) | (v2 >> 2)) & 0xff) as bv8 }
  function Third(v2: bv32, v3: bv32): Byte { (((v2 << 6) | v3) & 0xff) as bv8 }

  lemma BlockOut(a: Byte, b: Byte, c: Byte)
    ensures var k := Chunk(a, b, c);
            First(At18(k), At12(k)) == a && Second(At12(k), At6(k)) == b && Third(At6(k), At0(k)) == c
  {
  }

  lemma BlockBack(v0: bv32, v1: bv32, v2: bv32, v3: bv32)
    requires IsSextet(v0) && IsSextet(v1) && IsSextet(v2) && IsSextet(v3)
    ensures var k := Chunk(First(v0, v1), Second(v1, v2), Third(v2, v3));
            At18(k) == v0 && At12(k) == v1 && At6(k) == v2 && At0(k) == v3
  {
  }

  /** With the unread bytes zero, the last character comes back exactly when its unused bits are zero. */
  lemma PartialBack(v0: bv32, v1: bv32, v2: bv32)
    requires IsSextet(v0) && IsSextet(v1) && IsSextet(v2)
    ensures var k := Chunk(First(v0, v1), 0, 0);
            At18(k) == v0 && (At12(k) == v1 <==> v1 & 0xf == 0)
    ensures var k := Chunk(First(v0, v1), Second(v1, v2), 0);
            At18(k) == v0 && At12(k) == v1 && (At6(k) == v2 <==> v2 & 0x3 == 0)
  {
  }

  function ByteAt(bytes: Bytes, i: nat): Byte {
    if i < |bytes| then bytes[i] else 0
  }

  /** The four characters of the first block, missing bytes read as zero. */
  function Quad(bytes: Bytes): (q: Bytes)
    ensures |q| == 4
  {
    var k := Chunk(ByteAt(bytes, 0), ByteAt(bytes, 1), ByteAt(bytes, 2));
    [Symbol(At18(k)), Symbol(At12(k)), Symbol(At6(k)), Symbol(At0(k))]
  }

  function Encode(bytes: Bytes): Bytes {
    if bytes == [] then []
    else if |bytes| < 3 then Quad(bytes)[..|bytes| + 1]
    else Quad(bytes) + Encode(bytes[3..])
  }

  function SextetAt(t: Bytes, i: nat): (v: bv32)
    ensures IsSextet(v)
  {
    if i < |t| then Sextet(t[i]) else 0
  }

  /** The three bytes of the first block, missing characters read as zero bits. */
  function Triple(t: Bytes): (b: Bytes)
    ensures |b| == 3
  {
    [First(SextetAt(t, 0), SextetAt(t, 1)), Second(SextetAt(t, 1), SextetAt(t, 2)),
     Third(SextetAt(t, 2), SextetAt(t, 3))]
  }

  function Prepend(decoded: Bytes, rest: Option<Bytes>): Option<Bytes> {
    match rest
    case None => None
    case Some(r) => Some(decoded + r)
  }

  /** Decoding four characters at a time, with no accumulator at all. */
  function Decode(t: Bytes): Option<Bytes> {
    if t == [] then Some([])
    else if |t| < 4 then
      if |t| == 1 || !AllInAlphabet(t) then None else Some(Triple(t)[..|t| - 1])
    else if !AllInAlphabet(t[..4]) then None
    else Prepend(Triple(t), Decode(t[4..]))
  }

  // ----- The two directions -----

  lemma QuadInAlphabet(bytes: Bytes)
    ensures AllInAlphabet(Quad(bytes))
    ensures var k := Chunk(ByteAt(bytes, 0), ByteAt(bytes, 1), ByteAt(bytes, 2));
            var q := Quad(bytes);
            Sextet(q[0]) == At18(k) && Sextet(q[1]) == At12(k) && Sextet(q[2]) == At6(k) && Sextet(q[3]) == At0(k)
  {
    var k := Chunk(ByteAt(bytes, 0), ByteAt(bytes, 1), ByteAt(bytes, 2));
    SymbolSextet(At18(k));
    SymbolSextet(At12(k));
    SymbolSextet(At6(k));
    SymbolSextet(At0(k));
  }

  /** A block, complete or not, decodes to its bytes. */
  lemma TripleQuad(bytes: Bytes)
    requires bytes != []
    ensures var n := if |bytes| < 3 then |bytes| else 3;
            Triple(Quad(bytes)[..n + 1])[..n] == bytes[..n]
  {
    var n := if |bytes| < 3 then |bytes| else 3;
    var q, t := Quad(bytes), Quad(bytes)[..n + 1];
    QuadInAlphabet(bytes);
    BlockOut(ByteAt(bytes, 0), ByteAt(bytes, 1), ByteAt(bytes, 2));
    assert SextetAt(t, 0) == Sextet(q[0]) && SextetAt(t, 1) == Sextet(q[1]);
    if n >= 2 {
      assert SextetAt(t, 2) == Sextet(q[2]);
    }
    if n >= 3 {
      assert SextetAt(t, 3) == Sextet(q[3]);
    }
  }

  /** Decoding undoes encoding, for every byte sequence. */
  lemma {:induction false} DecodeEncode(bytes: Bytes)
    ensures Decode(Encode(bytes)) == Some(bytes)
  {
    if bytes != [] {
      TripleQuad(bytes);
      QuadInAlphabet(bytes);
      var t := Encode(bytes);
      if |bytes| < 3 {
        assert bytes[..|bytes|] == bytes;
      } else {
        DecodeEncode(bytes[3..]);
        assert t[..4] == Quad(bytes) && t[4..] == Encode(bytes[3..]);
        SameTriple(t, Quad(bytes));
        assert Quad(bytes)[..4] == Quad(bytes);
        assert Triple(t) == bytes[..3];
        assert bytes == bytes[..3] + bytes[3..];
      }
    }
  }

  lemma SameTriple(t: Bytes, q: Bytes)
    requires |q| == 4 <= |t| && t[..4] == q
    ensures Triple(t) == Triple(q)
  {
    assert forall i :: 0 <= i < 4 ==> t[i] == t[..4][i];
  }

  /** Decoding succeeds exactly on alphabet text whose length modulo 4 is not 1. */
  lemma {:induction false} DecodeDefined(t: Bytes)
    ensures Decode(t).Some? <==> AllInAlphabet(t) && |t| % 4 != 1
  {
    if |t| >= 4 {
      DecodeDefined(t[4..]);
      AlphabetSplit(t, 4);
      assert |t[4..]| % 4 == |t| % 4;
    }
  }

  lemma AlphabetSplit(t: Bytes, n: nat)
    requires n <= |t|
    ensures AllInAlphabet(t) <==> AllInAlphabet(t[..n]) && AllInAlphabet(t[n..])
  {
    if AllInAlphabet(t[..n]) && AllInAlphabet(t[n..]) {
      forall i | 0 <= i < |t| ensures InAlphabet(t[i]) {
        assert t[i] == if i < n then t[..n][i] else t[n..][i - n];
      }
    }
  }

  /** The bits of the last character that no decoded byte carries are zero. */
  predicate LeftoverZero(t: Bytes) {
    (|t| % 4 == 2 ==> Sextet(t[|t| - 1]) & 0xf == 0) && (|t| % 4 == 3 ==> Sextet(t[|t| - 1]) & 0x3 == 0)
  }

  lemma SymbolInjective(v: bv32, c: Byte)
    requires IsSextet(v) && InAlphabet(c)
    ensures Symbol(v) == c <==> v == Sextet(c)
  {
    SymbolSextet(v);
    SextetSymbol(c);
  }

  lemma QuadTripleFull(t: Bytes)
    requires |t| >= 4 && AllInAlphabet(t[..4])
    ensures Quad(Triple(t)) == t[..4]
  {
    BlockBack(SextetAt(t, 0), SextetAt(t, 1), SextetAt(t, 2), SextetAt(t, 3));
    forall i | 0 <= i < 4 ensures Symbol(SextetAt(t, i)) == t[i] {
      assert t[i] == t[..4][i];
      SextetSymbol(t[i]);
    }
  }

  lemma EncodeDecodeShort(t: Bytes)
    requires 1 < |t| < 4 && AllInAlphabet(t)
    ensures Encode(Triple(t)[..|t| - 1]) == t <==> LeftoverZero(t)
  {
    var d := Triple(t)[..|t| - 1];
    var q := Quad(d);
    PartialBack(Sextet(t[0]), Sextet(t[1]), SextetAt(t, 2));
    var k := Chunk(ByteAt(d, 0), ByteAt(d, 1), ByteAt(d, 2));
    assert Encode(d) == q[..|t|];
    SymbolInjective(At18(k), t[0]);
    SymbolInjective(At12(k), t[1]);
    if |t| == 2 {
      assert Encode(d) == t <==> q[0] == t[0] && q[1] == t[1];
    } else {
      SymbolInjective(At6(k), t[2]);
      assert Encode(d) == t <==> q[0] == t[0] && q[1] == t[1] && q[2] == t[2];
    }
  }

  /** Encoding undoes decoding exactly when the leftover bits are zero. */
  lemma {:induction false} EncodeDecode(t: Bytes)
    requires Decode(t).Some?
    ensures Encode(Decode(t).value) == t <==> LeftoverZero(t)
  {
    if 0 < |t| < 4 {
      EncodeDecodeShort(t);
    } else if |t| >= 4 {
      EncodeDecode(t[4..]);
      QuadTripleFull(t);
      EncodeCons(Triple(t), Decode(t[4..]).value);
      SplitEqual(t, Encode(Decode(t[4..]).value));
      LeftoverTail(t);
    }
  }

  lemma LeftoverTail(t: Bytes)
    requires |t| >= 4
    ensures LeftoverZero(t) <==> LeftoverZero(t[4..])
  {
    assert |t[4..]| % 4 == |t| % 4;
    assert |t| > 4 ==> t[4..][|t| - 5] == t[|t| - 1];
  }

  lemma EncodeCons(block: Bytes, rest: Bytes)
    requires |block| == 3
    ensures Encode(block + rest) == Quad(block) + Encode(rest)
  {
    var d := block + rest;
    assert d[3..] == rest;
    assert ByteAt(d, 0) == ByteAt(block, 0) && ByteAt(d, 1) == ByteAt(block, 1) && ByteAt(d, 2) == ByteAt(block, 2);
  }

  lemma SplitEqual(t: Bytes, rest: Bytes)
    requires |t| >= 4
    ensures t[..4] + rest == t <==> rest == t[4..]
  {
    assert t == t[..4] + t[4..];
    assert (t[..4] + rest)[4..] == rest;
  }

  /** Encoded text stays in the alphabet, so it holds no dot and no zero byte. */
  lemma {:induction false} EncodeInAlphabet(bytes: Bytes)
    ensures AllInAlphabet(Encode(bytes)) && Avoids(Encode(bytes), DOT) && Avoids(Encode(bytes), 0)
  {
    if bytes != [] {
      QuadInAlphabet(bytes);
      if |bytes| > 2 {
        EncodeInAlphabet(bytes[3..]);
      }
    }
    var t := Encode(bytes);
    forall i | 0 <= i < |t| ensures InAlphabet(t[i]) {
    }
  }

  /** How long the text of `n` bytes is. */
  lemma {:induction false} EncodeLength(bytes: Bytes)
    ensures |Encode(bytes)| == (4 * |bytes| + 2) / 3
  {
    if |bytes| > 2 {
      EncodeLength(bytes[3..]);
    }
  }

  // ----- The loops of the source -----

  lemma QuadPrefix(prefix: Bytes, rest: Bytes)
    requires |prefix| >= 3
    ensures Quad(prefix + rest) == Quad(prefix)
  {
    var all := prefix + rest;
    assert ByteAt(all, 0) == ByteAt(prefix, 0) && ByteAt(all, 1) == ByteAt(prefix, 1)
           && ByteAt(all, 2) == ByteAt(prefix, 2);
  }

  lemma EncodeStep(bytes: Bytes)
    requires |bytes| >= 3
    ensures Encode(bytes) == Quad(bytes) + Encode(bytes[3..])
  {
    EncodeCons(bytes[..3], bytes[3..]);
    assert bytes[..3] + bytes[3..] == bytes;
    QuadPrefix(bytes[..3], bytes[3..]);
  }

  lemma ConcatAssociates(a: Bytes, b: Bytes, c: Bytes)
    ensures a + b + c == a + (b + c)
  {
  }

  lemma {:induction false} EncodeAppend(prefix: Bytes, rest: Bytes)
    requires |prefix| % 3 == 0
    ensures Encode(prefix + rest) == Encode(prefix) + Encode(rest)
  {
    var all := prefix + rest;
    if prefix == [] {
      assert all == rest;
    } else {
      EncodeAppend(prefix[3..], rest);
      QuadPrefix(prefix, rest);
      assert all[3..] == prefix[3..] + rest;
      EncodeStep(all);
      EncodeStep(prefix);
      ConcatAssociates(Quad(prefix), Encode(prefix[3..]), Encode(rest));
    }
  }

  /** The block of up to three bytes at `index`. */
  function BlockAt(bytes: Bytes, index: nat): Bytes
    requires index < |bytes|
  {
    if index + 3 < |bytes| then bytes[index..index + 3] else bytes[index..]
  }

  lemma EncodeNext(bytes: Bytes, index: nat)
    requires index < |bytes| && index % 3 == 0
    ensures var end := if index + 3 < |bytes| then index + 3 else |bytes|;
            Encode(bytes[..end]) == Encode(bytes[..index]) + Encode(BlockAt(bytes, index))
  {
    var end := if index + 3 < |bytes| then index + 3 else |bytes|;
    EncodeAppend(bytes[..index], BlockAt(bytes, index));
    assert bytes[..index] + BlockAt(bytes, index) == bytes[..end];
  }

  /** The characters the loop body pushes for one block. */
  method EncodeBlock(bytes: Bytes, index: nat) returns (pushed: Bytes)
    requires index < |bytes|
    ensures pushed == Encode(BlockAt(bytes, index))
  {
    var first := bytes[index];
    var second := if index + 1 < |bytes| then bytes[index + 1] else 0;
    var third := if index + 2 < |bytes| then bytes[index + 2] else 0;
    var chunk := Chunk(first, second, third);
    ghost var block := BlockAt(bytes, index);
    assert first == ByteAt(block, 0) && second == ByteAt(block, 1) && third == ByteAt(block, 2);
    assert Encode(block) == Quad(block)[..|block| + 1] by {
      if |block| == 3 {
        assert Encode(block[3..]) == [];
      }
    }
    pushed := [Symbol(At18(chunk)), Symbol(At12(chunk))];
    if index + 1 < |bytes| {
      pushed := pushed + [Symbol(At6(chunk))];
    }
    if index + 2 < |bytes| {
      pushed := pushed + [Symbol(At0(chunk))];
    }
  }

  method EncodeLoop(bytes: Bytes) returns (encoded: Bytes)
    ensures encoded == Encode(bytes)
  {
    encoded := [];
    var index := 0;
    while index < |bytes|
      invariant 0 <= index && (index < |bytes| ==> index % 3 == 0)
      invariant encoded == Encode(if index < |bytes| then bytes[..index] else bytes)
    {
      EncodeNext(bytes, index);
      var pushed := EncodeBlock(bytes, index);
      encoded := encoded + pushed;
      assert bytes[..|bytes|] == bytes;
      index := index + 3;
    }
  }

  /** Decoding from a given point: `bits` unread low bits, whose value is `left`. */
  function Stream(bits: int, left: bv32, t: Bytes): Option<Bytes>
    requires bits == 0 || bits == 2 || bits == 4 || bits == 6
    decreases |t|
  {
    if t == [] then (if bits == 6 then None else Some([]))
    else if !InAlphabet(t[0]) then None
    else if bits == 0 then Stream(6, Sextet(t[0]), t[1..])
    else
      var v := (left << 6) | Sextet(t[0]);
      Prepend([Emit(v, bits - 2)], Stream(bits - 2, Low(v, bits - 2), t[1..]))
  }

  /** The low `bits` bits of `v`, for the bit counts the loop meets. */
  function Low(v: bv32, bits: int): bv32 {
    if bits == 0 then 0 else if bits == 2 then v & 0x3 else if bits == 4 then v & 0xf else v & 0x3f
  }

  /** `static_cast<std::uint8_t>((v >> bits) & 0xff)`, for the bit counts the loop meets. */
  function Emit(v: bv32, bits: int): Byte {
    if bits == 0 then (v & 0xff) as bv8 else if bits == 2 then ((v >> 2) & 0xff) as bv8 else ((v >> 4) & 0xff) as bv8
  }

  /** One character read with `bits` bits pending yields one byte. */
  lemma StreamByte(bits: int, left: bv32, t: Bytes)
    requires (bits == 2 || bits == 4 || bits == 6) && t != [] && InAlphabet(t[0])
    ensures var v := (left << 6) | Sextet(t[0]);
            Stream(bits, left, t)
            == Prepend([Emit(v, bits - 2)], Stream(bits - 2, Low(v, bits - 2), t[1..]))
  {
  }

  lemma FirstBits(v0: bv32, v1: bv32)
    requires IsSextet(v0) && IsSextet(v1)
    ensures Emit((v0 << 6) | v1, 4) == First(v0, v1) && Low((v0 << 6) | v1, 4) == v1 & 0xf
  {
  }

  lemma SecondBits(v1: bv32, v2: bv32)
    requires IsSextet(v1) && IsSextet(v2)
    ensures Emit(((v1 & 0xf) << 6) | v2, 2) == Second(v1, v2)
    ensures Low(((v1 & 0xf) << 6) | v2, 2) == v2 & 0x3
  {
  }

  lemma ThirdBits(v2: bv32, v3: bv32)
    requires IsSextet(v2) && IsSextet(v3)
    ensures Emit(((v2 & 0x3) << 6) | v3, 0) == Third(v2, v3)
    ensures Low(((v2 & 0x3) << 6) | v3, 0) == 0
  {
  }

  lemma StreamStart(t: Bytes)
    requires t != [] && InAlphabet(t[0])
    ensures Stream(0, 0, t) == Stream(6, Sextet(t[0]), t[1..])
  {
  }

  lemma StreamTwo(t: Bytes, u: Bytes, w: Bytes, v: bv32)
    requires t != [] && u == t[1..] && u != [] && w == u[1..] && InAlphabet(t[0]) && InAlphabet(u[0])
    requires v == (Sextet(t[0]) << 6) | Sextet(u[0])
    ensures Stream(0, 0, t) == Prepend([Emit(v, 4)], Stream(4, Low(v, 4), w))
  {
    StreamStart(t);
    StreamByte(6, Sextet(t[0]), u);
  }

  lemma StreamPair(t: Bytes, u: Bytes, w: Bytes, v0: bv32, v1: bv32)
    requires t != [] && u == t[1..] && u != [] && w == u[1..] && InAlphabet(t[0]) && InAlphabet(u[0])
    requires v0 == Sextet(t[0]) && v1 == Sextet(u[0])
    ensures Stream(0, 0, t) == Prepend([First(v0, v1)], Stream(4, v1 & 0xf, w))
  {
    StreamTwo(t, u, w, (v0 << 6) | v1);
    FirstBits(v0, v1);
  }

  /** The first two characters of a block. */
  lemma StreamFirst(t: Bytes)
    requires |t| >= 2 && InAlphabet(t[0]) && InAlphabet(t[1])
    ensures Stream(0, 0, t) == Prepend([First(Sextet(t[0]), Sextet(t[1]))], Stream(4, Sextet(t[1]) & 0xf, t[2..]))
  {
    var u := t[1..];
    assert u[0] == t[1] && u[1..] == t[2..];
    StreamPair(t, u, t[2..], Sextet(t[0]), Sextet(u[0]));
  }

  lemma StreamSecond(t: Bytes)
    requires |t| >= 3 && InAlphabet(t[2])
    ensures Stream(4, Sextet(t[1]) & 0xf, t[2..])
            == Prepend([Second(Sextet(t[1]), Sextet(t[2]))], Stream(2, Sextet(t[2]) & 0x3, t[3..]))
  {
    var u := t[2..];
    assert u[0] == t[2] && u[1..] == t[3..];
    SecondBits(Sextet(t[1]), Sextet(u[0]));
    StreamByte(4, Sextet(t[1]) & 0xf, u);
  }

  lemma StreamThird(t: Bytes)
    requires |t| >= 4 && InAlphabet(t[3])
    ensures Stream(2, Sextet(t[2]) & 0x3, t[3..])
            == Prepend([Third(Sextet(t[2]), Sextet(t[3]))], Stream(0, 0, t[4..]))
  {
    var u := t[3..];
    assert u[0] == t[3] && u[1..] == t[4..];
    ThirdBits(Sextet(t[2]), Sextet(u[0]));
    StreamByte(2, Sextet(t[2]) & 0x3, u);
  }

  lemma PrependTwice(a: Bytes, b: Bytes, rest: Option<Bytes>)
    ensures Prepend(a, Prepend(b, rest)) == Prepend(a + b, rest)
  {
    if rest.Some? {
      assert a + (b + rest.value) == (a + b) + rest.value;
    }
  }

  lemma StreamBlock(t: Bytes)
    requires |t| >= 4 && AllInAlphabet(t[..4])
    ensures Stream(0, 0, t) == Prepend(Triple(t), Stream(0, 0, t[4..]))
  {
    assert forall i :: 0 <= i < 4 ==> t[i] == t[..4][i];
    StreamFirst(t);
    StreamSecond(t);
    StreamThird(t);
    var a, b, c := First(Sextet(t[0]), Sextet(t[1])), Second(Sextet(t[1]), Sextet(t[2])),
        Third(Sextet(t[2]), Sextet(t[3]));
    PrependTwice([a], [b], Prepend([c], Stream(0, 0, t[4..])));
    PrependTwice([a, b], [c], Stream(0, 0, t[4..]));
    assert [a] + [b] == [a, b] && [a, b] + [c] == [a, b, c];
  }

  lemma {:induction false} StreamBad(bits: int, left: bv32, t: Bytes)
    requires bits == 0 || bits == 2 || bits == 4 || bits == 6
    requires !AllInAlphabet(t)
    ensures Stream(bits, left, t) == None
    decreases |t|
  {
    if InAlphabet(t[0]) {
      assert !AllInAlphabet(t[1..]) by {
        var i :| 0 <= i < |t| && !InAlphabet(t[i]);
        assert t[1..][i - 1] == t[i];
      }
      var v := (left << 6) | Sextet(t[0]);
      StreamBad(if bits == 0 then 6 else bits - 2, if bits == 0 then Sextet(t[0]) else Low(v, bits - 2), t[1..]);
    }
  }

  lemma StreamShort(t: Bytes)
    requires |t| < 4 && AllInAlphabet(t)
    ensures Stream(0, 0, t) == Decode(t)
  {
    if |t| == 1 {
      StreamStart(t);
    } else if |t| == 2 {
      StreamFirst(t);
      assert Triple(t)[..1] == [First(Sextet(t[0]), Sextet(t[1]))] + [];
    } else if |t| == 3 {
      StreamFirst(t);
      StreamSecond(t);
      assert Triple(t)[..2] == [First(Sextet(t[0]), Sextet(t[1]))] + ([Second(Sextet(t[1]), Sextet(t[2]))] + []);
    }
  }

  /** Reading the stream character by character decodes block by block. */
  lemma {:induction false} StreamDecodes(t: Bytes)
    ensures Stream(0, 0, t) == Decode(t)
  {
    if !AllInAlphabet(t) {
      StreamBad(0, 0, t);
      DecodeDefined(t);
    } else if |t| >= 4 {
      StreamBlock(t);
      StreamDecodes(t[4..]);
    } else {
      StreamShort(t);
    }
  }

  /** What is kept of the accumulator does not depend on its higher bits, nor on their wrapping away. */
  lemma AccumulatorStep(acc: bv32, left: bv32, bits: int, v: bv32)
    requires (bits == 2 || bits == 4 || bits == 6) && IsSextet(v) && Low(acc, bits) == left
    ensures var acc', v' := (acc << 6) | v, (left << 6) | v;
            Emit(acc', bits - 2) == Emit(v', bits - 2)
            && Low(acc', bits - 2) == Low(v', bits - 2)
  {
    if bits == 2 {
    } else if bits == 4 {
    } else {
    }
  }

  /** `decode_table`: the value of an alphabet character, and -1 elsewhere. */
  function TableValue(c: Byte): int {
    if InAlphabet(c) then Sextet(c) as int else -1
  }

  /** The table once the first `index` values are filled in. */
  function FilledUpTo(index: bv32, c: Byte): int {
    if InAlphabet(c) && Sextet(c) < index then Sextet(c) as int else -1
  }

  lemma FillsOne(index: bv32, next: bv32, c: Byte)
    requires index < 64 && next == index + 1
    ensures FilledUpTo(next, c) == if c == Symbol(index) then index as int else FilledUpTo(index, c)
  {
    SymbolSextet(index);
    if InAlphabet(c) {
      SextetSymbol(c);
    }
  }

  lemma FilledAtEnds(c: Byte)
    ensures FilledUpTo(0, c) == -1 && FilledUpTo(64, c) == TableValue(c)
  {
    assert IsSextet(Sextet(c));
  }

  method FillEntry(table: array<int>, index: bv32, ghost next: bv32)
    requires table.Length == 256 && index < 64 && next == index + 1
    requires forall c: Byte :: table[c as int] == FilledUpTo(index, c)
    modifies table
    ensures forall c: Byte :: table[c as int] == FilledUpTo(next, c)
  {
    var entry := Symbol(index);
    table[entry as int] := index as int;
    forall c: Byte ensures table[c as int] == FilledUpTo(next, c) {
      assert old(table[c as int]) == FilledUpTo(index, c);
      FillsOne(index, next, c);
      if c as int == entry as int {
        SameByte(c, entry);
      }
    }
  }

  method BuildDecodeTable() returns (filled: seq<int>)
    ensures |filled| == 256 && forall c: Byte :: filled[c as int] == TableValue(c)
  {
    var table := new int[256](_ => -1);
    forall c: Byte ensures FilledUpTo(0, c) == -1 && FilledUpTo(64, c) == TableValue(c) {
      FilledAtEnds(c);
    }
    var index: bv32 := 0;
    while index < 64
      invariant index <= 64
      invariant forall c: Byte :: table[c as int] == FilledUpTo(index, c)
      decreases 64 - index
    {
      FillEntry(table, index, index + 1);
      index := index + 1;
    }
    filled := table[..];
  }

  method ReadTable(table: seq<int>, c: Byte) returns (value: Option<bv32>)
    requires |table| == 256 && forall c: Byte :: table[c as int] == TableValue(c)
    ensures value == if InAlphabet(c) then Some(Sextet(c)) else None
  {
    assert table[c as int] == TableValue(c) && Sextet(c) as int >= 0;
    if table[c as int] < 0 {
      return None;
    }
    return Some(Sextet(c));
  }

  predicate Phase(bits: int) {
    bits == 0 || bits == 2 || bits == 4 || bits == 6
  }

  /** All that is still to come: the output so far, and the decoding of the rest from here. */
  function Outlook(decoded: Bytes, acc: bv32, bits: int, rest: Bytes): Option<Bytes>
    requires Phase(bits)
  {
    Prepend(decoded, Stream(bits, Low(acc, bits), rest))
  }

  /** One round of the loop: the outlook does not change. */
  method ReadOne(decoded: Bytes, accumulator: bv32, bitsCollected: int, sextet: bv32, ghost rest: Bytes)
    returns (decoded': Bytes, accumulator': bv32, bitsCollected': int)
    requires Phase(bitsCollected) && rest != [] && InAlphabet(rest[0]) && sextet == Sextet(rest[0])
    ensures Phase(bitsCollected')
    ensures Outlook(decoded', accumulator', bitsCollected', rest[1..])
            == Outlook(decoded, accumulator, bitsCollected, rest)
  {
    accumulator' := (accumulator << 6) | sextet;
    bitsCollected' := bitsCollected + 6;
    decoded' := decoded;
    if bitsCollected' >= 8 {
      bitsCollected' := bitsCollected' - 8;
      decoded' := decoded' + [Emit(accumulator', bitsCollected')];
      AccumulatorStep(accumulator, Low(accumulator, bitsCollected), bitsCollected, sextet);
      StreamByte(bitsCollected, Low(accumulator, bitsCollected), rest);
      PrependTwice(decoded, [Emit(accumulator', bitsCollected')],
                   Stream(bitsCollected', Low(accumulator', bitsCollected'), rest[1..]));
    } else {
      assert Low(accumulator', 6) == sextet;
      StreamStart(rest);
    }
  }

  lemma OutlookEnds(text: Bytes, decoded: Bytes, acc: bv32, bits: int)
    requires Phase(bits)
    ensures Outlook([], 0, 0, text) == Decode(text)
    ensures Outlook(decoded, acc, bits, []) == if bits == 6 then None else Some(decoded)
  {
    StreamDecodes(text);
    assert Decode(text).Some? ==> [] + Decode(text).value == Decode(text).value;
    assert decoded + [] == decoded;
  }

  lemma OutlookStuck(decoded: Bytes, acc: bv32, bits: int, rest: Bytes)
    requires Phase(bits) && rest != [] && !InAlphabet(rest[0])
    ensures Outlook(decoded, acc, bits, rest) == None
  {
  }

  /** The loop with its wrapping 32-bit accumulator computes the block decoding. */
  method DecodeLoop(text: Bytes) returns (result: Option<Bytes>)
    ensures result == Decode(text)
  {
    var table := BuildDecodeTable();
    var decoded: Bytes := [];
    var accumulator: bv32 := 0;
    var bitsCollected := 0;
    OutlookEnds(text, [], 0, 0);
    assert text[0..] == text;
    var index := 0;
    while index < |text|
      invariant 0 <= index <= |text| && Phase(bitsCollected)
      invariant Decode(text) == Outlook(decoded, accumulator, bitsCollected, text[index..])
    {
      var value := ReadTable(table, text[index]);
      ghost var rest := text[index..];
      assert rest[0] == text[index] && rest[1..] == text[index + 1..];
      if value.None? {
        OutlookStuck(decoded, accumulator, bitsCollected, rest);
        return None;
      }
      decoded, accumulator, bitsCollected := ReadOne(decoded, accumulator, bitsCollected, value.value, rest);
      index := index + 1;
    }
    assert text[index..] == [];
    OutlookEnds(text, decoded, accumulator, bitsCollected);
    if bitsCollected >= 6 {
      return None;
    }
    return Some(decoded);
  }
}
