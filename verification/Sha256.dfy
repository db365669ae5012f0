/** SHA-256 as the source computes it: buffers filled in place, eight rotating variables. */
module Sha256 {
  import opened ByteText
  import opened Sha256Spec

  /** The padding loops append byte by byte. */
  method PadLoop(input: Bytes) returns (message: Bytes)
    ensures message == Pad(input)
  {
    message := input;
    var bitLength := BitLength(|message|);
    message := message + [0x80];
    ghost var zeros: Bytes := [];
    while |message| % 64 != 56
      invariant message == input + [0x80] + zeros && |zeros| <= ZeroCount(|input|)
      invariant zeros == Zeros(|zeros|)
      decreases ZeroCount(|input|) - |zeros|
    {
      message := message + [0];
      zeros := zeros + [0];
    }
    FirstFit(|input|, |zeros|);
    ghost var head := message;
    var shift := 56;
    while shift >= 0
      invariant -8 <= shift <= 56 && shift % 8 == 0
      invariant message == head + LengthBytes(bitLength, 7 - shift / 8)
      decreases shift + 8
    {
      message := message + [ToByte(ShiftRight(bitLength, shift / 8))];
      shift := shift - 8;
    }
  }

  lemma FirstFit(n: nat, z: nat)
    requires z <= ZeroCount(n) && (n + 1 + z) % 64 == 56
    ensures z == ZeroCount(n)
  {
  }

  /** The schedule is filled in place. */
  method FillSchedule(fn: Primitives, message: Bytes, offset: nat, schedule: array<Word>)
    requires offset + 64 <= |message| && schedule.Length == 64
    modifies schedule
    ensures var block := BlockWords(fn, message, offset, 16);
            schedule[..] == Schedule(fn, block, 4 * |block|)
  {
    for index := 0 to 16
      invariant schedule[..index] == BlockWords(fn, message, offset, index)
    {
      var base := offset + index * 4;
      schedule[index] := fn.load(message[base], message[base + 1], message[base + 2], message[base + 3]);
      assert schedule[..index + 1] == schedule[..index] + [schedule[index]];
    }
    ghost var block := BlockWords(fn, message, offset, 16);
    for index := 16 to 64
      invariant schedule[..index] == Schedule(fn, block, index)
    {
      ghost var w := schedule[..index];
      schedule[index] := fn.add(fn.add(fn.add(fn.smallSigma1(schedule[index - 2]), schedule[index - 7]),
                                       fn.smallSigma0(schedule[index - 15])), schedule[index - 16]);
      assert schedule[..index + 1] == w + [schedule[index]];
    }
    assert schedule[..64] == schedule[..];
  }

  /** Sixty-four rotations of eight variables. */
  method Rotate(fn: Primitives, schedule: array<Word>, v: Vars) returns (r: Vars)
    requires schedule.Length == 64
    ensures r == Rounds(fn, schedule[..], v, |schedule[..]|)
  {
    var a, b, c, d := v.a, v.b, v.c, v.d;
    var e, f, g, h := v.e, v.f, v.g, v.h;
    for index := 0 to 64
      invariant Vars(a, b, c, d, e, f, g, h) == Rounds(fn, schedule[..], v, index)
    {
      var temp1 := fn.add(fn.add(fn.add(fn.add(h, fn.bigSigma1(e)), fn.choose(e, f, g)), fn.k(index)), schedule[index]);
      var temp2 := fn.add(fn.bigSigma0(a), fn.majority(a, b, c));
      h := g;
      g := f;
      f := e;
      e := fn.add(d, temp1);
      d := c;
      c := b;
      b := a;
      a := fn.add(temp1, temp2);
    }
    r := Vars(a, b, c, d, e, f, g, h);
  }

  /** The eight words of the buffer. */
  function Value(hash: array<Word>): Vars
    requires hash.Length == 8
    reads hash
  {
    Vars(hash[0], hash[1], hash[2], hash[3], hash[4], hash[5], hash[6], hash[7])
  }

  /** The eight variables are added into the hash value in place. */
  method AddInto(fn: Primitives, hash: array<Word>, r: Vars)
    requires hash.Length == 8
    modifies hash
    ensures Value(hash) == Plus(fn, old(Value(hash)), r)
  {
    hash[0] := fn.add(hash[0], r.a);
    hash[1] := fn.add(hash[1], r.b);
    hash[2] := fn.add(hash[2], r.c);
    hash[3] := fn.add(hash[3], r.d);
    hash[4] := fn.add(hash[4], r.e);
    hash[5] := fn.add(hash[5], r.f);
    hash[6] := fn.add(hash[6], r.g);
    hash[7] := fn.add(hash[7], r.h);
  }

  /** One word, most significant byte first, at `start`. */
  method StoreWord(fn: Primitives, digest: array<Byte>, start: nat, w: Word)
    requires start + 4 <= digest.Length
    modifies digest
    ensures digest[..start + 4] == old(digest[..start]) + WordBytes(fn, w)
  {
    digest[start] := fn.store(w, 0);
    digest[start + 1] := fn.store(w, 1);
    digest[start + 2] := fn.store(w, 2);
    digest[start + 3] := fn.store(w, 3);
  }

  method WriteDigest(fn: Primitives, hash: array<Word>) returns (digest: array<Byte>)
    requires hash.Length == 8
    ensures fresh(digest) && digest[..] == DigestOf(fn, hash[..])
  {
    digest := new Byte[32];
    for index := 0 to 8
      invariant digest[..index * 4] == DigestOf(fn, hash[..index])
    {
      StoreWord(fn, digest, index * 4, hash[index]);
      assert hash[..index + 1][..index] == hash[..index];
    }
    assert hash[..8] == hash[..] && digest[..32] == digest[..];
  }

  method HashBlock(fn: Primitives, message: Bytes, offset: nat, schedule: array<Word>, hash: array<Word>)
    requires offset + 64 <= |message| && schedule.Length == 64 && hash.Length == 8 && schedule != hash
    modifies schedule, hash
    ensures Value(hash) == Block(fn, message, offset, old(Value(hash)))
  {
    FillSchedule(fn, message, offset, schedule);
    var r := Rotate(fn, schedule, Value(hash));
    AddInto(fn, hash, r);
  }

  /** One turn of the block loop leaves the final hash value what it was going to be. */
  method NextBlock(fn: Primitives, message: Bytes, offset: nat, ghost next: nat, schedule: array<Word>,
                   hash: array<Word>)
    requires next == offset + 64 <= |message|
    requires schedule.Length == 64 && hash.Length == 8 && schedule != hash
    modifies schedule, hash
    ensures Blocks(fn, message, next, Value(hash)) == Blocks(fn, message, offset, old(Value(hash)))
  {
    HashBlock(fn, message, offset, schedule, hash);
  }

  lemma NoBlockLeft(fn: Primitives, message: Bytes, offset: nat, v: Vars)
    requires |message| <= offset
    ensures Blocks(fn, message, offset, v) == v
  {
  }

  method InitialHash(fn: Primitives) returns (hash: array<Word>)
    ensures fresh(hash) && hash.Length == 8 && Value(hash) == fn.iv
  {
    hash := new Word[8] [fn.iv.a, fn.iv.b, fn.iv.c, fn.iv.d, fn.iv.e, fn.iv.f, fn.iv.g, fn.iv.h];
  }

  method HashBlocks(fn: Primitives, message: Bytes, ghost count: nat) returns (hash: array<Word>)
    requires |message| == 64 * count
    ensures hash.Length == 8 && Value(hash) == Blocks(fn, message, 0, fn.iv)
  {
    hash := InitialHash(fn);
    var schedule := new Word[64];
    var offset := 0;
    ghost var n := 0;
    while offset < |message|
      invariant offset == 64 * n && n <= count && schedule != hash
      invariant Blocks(fn, message, offset, Value(hash)) == Blocks(fn, message, 0, fn.iv)
    {
      var next := offset + 64;
      assert next == 64 * (n + 1) <= |message|;
      NextBlock(fn, message, offset, next, schedule, hash);
      offset := next;
      n := n + 1;
    }
    NoBlockLeft(fn, message, offset, Value(hash));
  }

  method HashLoop(fn: Primitives, input: Bytes) returns (digest: Bytes)
    ensures digest == Hash(fn, input)
  {
    var message := PadLoop(input);
    PaddedLength(input);
    var hash := HashBlocks(fn, message, |message| / 64);
    assert hash[..] == AsSeq(Value(hash));
    var bytes := WriteDigest(fn, hash);
    digest := bytes[..];
  }

  /** `sha256_digest` */
  method Digest(input: Bytes) returns (digest: Bytes)
    ensures digest == Sha256Spec.DigestFor(input)
  {
    digest := HashLoop(SHA256_PRIMITIVES, input);
  }
}
