/** The word primitives and the constants of SHA-256, by what FIPS 180-4 says they are. */
module Sha256Facts {
  import opened ByteText
  import opened Sha256Spec

  // ----- Word primitives: section 4.1.2 -----

  /** Under any mask: where the first word is all ones the second is chosen, where it is all zeros the third. */
  lemma ChooseExactly(x: Word, y: Word, z: Word, mask: Word)
    ensures x & mask == mask ==> Choose(x, y, z) & mask == y & mask
    ensures x & mask == 0 ==> Choose(x, y, z) & mask == z & mask
  {
  }

  /** Under any mask on which two of the words agree, so does their majority. */
  lemma MajorityExactly(x: Word, y: Word, z: Word, mask: Word)
    requires x & mask == y & mask
    ensures Majority(x, y, z) & mask == x & mask
  {
  }

  lemma MajoritySymmetric(x: Word, y: Word, z: Word)
    ensures Majority(x, y, z) == Majority(y, x, z) == Majority(y, z, x)
  {
  }

  /** The sigmas are sums of rotations, and of a shift in the small ones. */
  lemma SigmasRotate(x: Word)
    ensures BigSigma0(x) == x.RotateRight(2) ^ x.RotateRight(13) ^ x.RotateRight(22)
    ensures BigSigma1(x) == x.RotateRight(6) ^ x.RotateRight(11) ^ x.RotateRight(25)
    ensures SmallSigma0(x) == x.RotateRight(7) ^ x.RotateRight(18) ^ (x >> 3)
    ensures SmallSigma1(x) == x.RotateRight(17) ^ x.RotateRight(19) ^ (x >> 10)
  {
  }

  /** Four bytes are loaded most significant first. */
  lemma LoadBigEndian(b0: Byte, b1: Byte, b2: Byte, b3: Byte)
    ensures var w := Load(b0, b1, b2, b3);
            w >> 24 == b0 as bv32 && (w >> 16) & 0xff == b1 as bv32 && (w >> 8) & 0xff == b2 as bv32
            && w & 0xff == b3 as bv32
  {
  }

  // ----- Constants: sections 4.2.2 and 5.3.3 -----

  /** The first 64 prime numbers, eight to a row. */
  function PrimeRow(i: nat): (row: seq<nat>)
    requires i < 8
    ensures |row| == 8
  {
    if i == 0 then [2, 3, 5, 7, 11, 13, 17, 19]
    else if i == 1 then [23, 29, 31, 37, 41, 43, 47, 53]
    else if i == 2 then [59, 61, 67, 71, 73, 79, 83, 89]
    else if i == 3 then [97, 101, 103, 107, 109, 113, 127, 131]
    else if i == 4 then [137, 139, 149, 151, 157, 163, 167, 173]
    else if i == 5 then [179, 181, 191, 193, 197, 199, 211, 223]
    else if i == 6 then [227, 229, 233, 239, 241, 251, 257, 263]
    else [269, 271, 277, 281, 283, 293, 307, 311]
  }

  /** The whole parts of their cube roots. */
  function RootRow(i: nat): (row: seq<nat>)
    requires i < 8
    ensures |row| == 8
  {
    if i == 0 then [1, 1, 1, 1, 2, 2, 2, 2]
    else if i == 1 then [2, 3, 3, 3, 3, 3, 3, 3]
    else if i == 2 then [3, 3, 4, 4, 4, 4, 4, 4]
    else if i == 3 then [4, 4, 4, 4, 4, 4, 5, 5]
    else if i == 4 then [5, 5, 5, 5, 5, 5, 5, 5]
    else if i == 5 then [5, 5, 5, 5, 5, 5, 5, 6]
    else if i == 6 then [6, 6, 6, 6, 6, 6, 6, 6]
    else [6, 6, 6, 6, 6, 6, 6, 6]
  }

  /** The first 32 bits of the fractional part of the cube root of `p`, whose whole part is `r`. */
  predicate CubeFraction(w: nat, p: nat, r: nat) {
    var n := r * 0x1_0000_0000 + w;
    n * n * n <= p * 0x1_0000_0000_0000_0000_0000_0000 < (n + 1) * (n + 1) * (n + 1)
  }

  predicate SquareFraction(w: nat, p: nat, r: nat) {
    var n := r * 0x1_0000_0000 + w;
    n * n <= p * 0x1_0000_0000_0000_0000 < (n + 1) * (n + 1)
  }

  /** Places `start` up to `end` of row `i` of the constants hold the fractions of those of the primes. */
  predicate CubeFractions(i: nat, start: nat, end: nat)
    requires i < 8 && start <= end <= 8
  {
    var words, primes, roots := ConstantRow(i), PrimeRow(i), RootRow(i);
    forall j :: start <= j < end ==> CubeFraction(words[j] as nat, primes[j], roots[j])
  }

  lemma Left0()
    ensures CubeFractions(0, 0, 4)
  {
  }

  lemma Right0()
    ensures CubeFractions(0, 4, 8)
  {
  }

  lemma Left1()
    ensures CubeFractions(1, 0, 4)
  {
  }

  lemma Right1()
    ensures CubeFractions(1, 4, 8)
  {
  }

  lemma Left2()
    ensures CubeFractions(2, 0, 4)
  {
  }

  lemma Right2()
    ensures CubeFractions(2, 4, 8)
  {
  }

  lemma Left3()
    ensures CubeFractions(3, 0, 4)
  {
  }

  lemma Right3()
    ensures CubeFractions(3, 4, 8)
  {
  }

  lemma Left4()
    ensures CubeFractions(4, 0, 4)
  {
  }

  lemma Right4()
    ensures CubeFractions(4, 4, 8)
  {
  }

  lemma Left5()
    ensures CubeFractions(5, 0, 4)
  {
  }

  lemma Right5()
    ensures CubeFractions(5, 4, 8)
  {
  }

  lemma Left6()
    ensures CubeFractions(6, 0, 4)
  {
  }

  lemma Right6()
    ensures CubeFractions(6, 4, 8)
  {
  }

  lemma First7()
    ensures CubeFractions(7, 0, 2)
  {
  }

  lemma Second7()
    ensures CubeFractions(7, 2, 4)
  {
  }

  lemma Left7()
    ensures CubeFractions(7, 0, 4)
  {
    First7();
    Second7();
  }

  lemma Right7()
    ensures CubeFractions(7, 4, 8)
  {
  }

  /** Round constant `t` is the first 32 bits of the fractional part of the cube root of prime number `t`. */
  lemma ConstantsAreCubeRoots(t: nat)
    requires t < 64
    ensures CubeFraction(K(t) as nat, PrimeRow(t / 8)[t % 8], RootRow(t / 8)[t % 8])
  {
    var i := t / 8;
    assert CubeFractions(i, 0, 4) by {
      match i {
        case 0 => Left0();
        case 1 => Left1();
        case 2 => Left2();
        case 3 => Left3();
        case 4 => Left4();
        case 5 => Left5();
        case 6 => Left6();
        case 7 => Left7();
        case _ =>
      }
    }
    assert CubeFractions(i, 4, 8) by {
      match i {
        case 0 => Right0();
        case 1 => Right1();
        case 2 => Right2();
        case 3 => Right3();
        case 4 => Right4();
        case 5 => Right5();
        case 6 => Right6();
        case 7 => Right7();
        case _ =>
      }
    }
  }

  /** The initial hash value is the first 32 bits of the fractional parts of the square roots of the first eight. */
  lemma InitialIsSquareRoots()
    ensures SquareFraction(IV.a as nat, 2, 1) && SquareFraction(IV.b as nat, 3, 1)
    ensures SquareFraction(IV.c as nat, 5, 2) && SquareFraction(IV.d as nat, 7, 2)
    ensures SquareFraction(IV.e as nat, 11, 3) && SquareFraction(IV.f as nat, 13, 3)
    ensures SquareFraction(IV.g as nat, 17, 4) && SquareFraction(IV.h as nat, 19, 4)
  {
  }
}
