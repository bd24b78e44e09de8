/** `crc32` is the remainder of its message by the published generator, and so has its known values. */
module Crc32Remainder {
  import opened CrcTheory
  import opened CrcDivision
  import opened Crc32

  /** The generator of CRC-32 is x^32 and these powers. */
  const EXPONENTS: set<int> := {26, 23, 22, 16, 12, 11, 10, 8, 7, 5, 4, 2, 1, 0}

  function Generator(): (g: seq<bool>)
    ensures |g| == 32 && forall k | 0 <= k < 32 :: g[k] <==> 31 - k in EXPONENTS
  {
    seq(32, k => 31 - k in EXPONENTS)
  }

  /** The coefficient `k` places below the highest, which is in the lowest bit. */
  function At(c: bv32, k: nat): bool
    decreases k
  {
    if k == 0 then c & 1 != 0 else At(c >> 1, k - 1)
  }

  function Next(c: bv32): bv32 {
    c >> 1
  }

  function Spelled(c: bv32): (w: seq<bool>)
    ensures |w| == 32 && forall k | 0 <= k < 32 :: w[k] == At(c, k)
  {
    seq(32, k requires 0 <= k < 32 => At(c, k))
  }

  // ----- coefficients four at a time

  function By(c: bv32): bv32 {
    c >> 4
  }

  lemma FourShifts(c: bv32)
    ensures (((c >> 1) >> 1) >> 1) >> 1 == c >> 4
  {}

  lemma AtPastFour(c: bv32, k: nat)
    ensures At(c, k + 4) == At(c >> 4, k)
  {
    assert At(c, k + 4) == At(c >> 1, k + 3) == At((c >> 1) >> 1, k + 2) == At(((c >> 1) >> 1) >> 1, k + 1);
    FourShifts(c);
  }

  lemma {:induction false} AtByFours(c: bv32, j: nat, k: nat)
    ensures At(c, 4 * j + k) == At(Iterate(By, c, j), k)
    decreases j
  {
    if j > 0 {
      AtPastFour(c, 4 * (j - 1) + k);
      AtByFours(By(c), j - 1, k);
    }
  }

  lemma ThreeMasks(c: bv32)
    ensures ((c >> 1) & 1 != 0) == (c & 2 != 0)
    ensures (((c >> 1) >> 1) & 1 != 0) == (c & 4 != 0)
    ensures ((((c >> 1) >> 1) >> 1) & 1 != 0) == (c & 8 != 0)
  {}

  lemma AtInFour(c: bv32)
    ensures At(c, 0) == (c & 1 != 0) && At(c, 1) == (c & 2 != 0)
    ensures At(c, 2) == (c & 4 != 0) && At(c, 3) == (c & 8 != 0)
  {
    assert At(c, 1) == At(c >> 1, 0) && At(c, 2) == At((c >> 1) >> 1, 0) && At(c, 3) == At(((c >> 1) >> 1) >> 1, 0);
    ThreeMasks(c);
  }

  lemma ByTwice(c: bv32)
    ensures By(By(c)) == c >> 8 && By(By(By(c))) == c >> 12 && By(By(By(By(c)))) == c >> 16
  {}

  lemma FourFours(c: bv32)
    ensures Iterate(By, c, 0) == c && Iterate(By, c, 1) == c >> 4 && Iterate(By, c, 2) == c >> 8 && Iterate(By, c, 3) == c >> 12
    ensures Iterate(By, c, 4) == c >> 16
  {
    Unrolls(By, c);
    ByTwice(c);
  }

  // ----- the register divides

  lemma FirstOfXor(c: bv32, d: bv32)
    ensures ((c ^ d) & 1 != 0) == ((c & 1 != 0) != (d & 1 != 0))
  {}

  lemma AtOfXor(c: bv32, d: bv32, k: nat)
    ensures At(Xor(c, d), k) == (At(c, k) != At(d, k))
  {
    forall c, d ensures At(Xor(c, d), 0) == (At(c, 0) != At(d, 0)) { FirstOfXor(c, d); }
    forall c, d ensures Next(Xor(c, d)) == Xor(Next(c), Next(d)) { XorShifts(c, d); }
    PlacesAdd(At, Next, Xor, c, d, k);
  }

  lemma {:induction false} AtOfZero(k: nat)
    ensures !At(0, k)
  {
    if k > 0 {
      AtOfZero(k - 1);
    }
  }

  lemma AtEnd(c: bv32)
    ensures !At(c, 32)
  {
    AtByFours(c, 8, 0);
    IterateAdd(By, c, 4, 4);
    FourFours(c);
    FourFours(c >> 16);
    assert (c >> 16) >> 16 == 0;
  }

  lemma SpelledXor(c: bv32, d: bv32)
    ensures Spelled(Xor(c, d)) == Add(Spelled(c), Spelled(d))
  {
    forall k | 0 <= k < 32 ensures At(Xor(c, d), k) == (At(c, k) != At(d, k)) { AtOfXor(c, d, k); }
  }

  lemma SpelledMoved(c: bv32)
    ensures Spelled(c >> 1) == Spelled(c)[1..] + [false]
  {
    AtEnd(c);
  }

  lemma SpelledBit(x: bool)
    ensures Spelled(ParkBit(0, x)) == [x] + Zeros(31)
  {
    forall k | 0 < k < 32 ensures !At(ParkBit(0, x), k) {
      assert 1 as bv32 >> 1 == 0;
      AtOfZero(k - 1);
    }
  }

  lemma FourOf(j: nat)
    requires j < 8
    ensures forall k | 4 * j <= k < 4 * j + 4 :: At(0xEDB8_8320, k) == Generator()[k]
  {
    FourFours(0xEDB8_8320);
    FourFours(0xEDB8_8320 >> 16);
    if j >= 4 {
      IterateAdd(By, 0xEDB8_8320, 4, j - 4);
    }
    AtInFour(Iterate(By, 0xEDB8_8320, j));
    forall k | 4 * j <= k < 4 * j + 4 ensures At(0xEDB8_8320, k) == Generator()[k] {
      AtByFours(0xEDB8_8320, j, k - 4 * j);
    }
  }

  lemma SpelledGenerator()
    ensures Spelled(0xEDB8_8320) == Generator()
  {
    forall k | 0 <= k < 32 ensures At(0xEDB8_8320, k) == Generator()[k] { FourOf(k / 4); }
  }

  lemma SpelledShift(c: bv32)
    ensures Spelled(Bit(c)) == ShiftBits(Generator(), Spelled(c))
  {
    SpelledMoved(c);
    SpelledGenerator();
    if c & 1 != 0 {
      SpelledXor(c >> 1, 0xEDB8_8320);
      FeedbackCommutes(c >> 1);
    }
  }

  lemma FeedbackCommutes(c: bv32)
    ensures 0xEDB8_8320 ^ c == Xor(c, 0xEDB8_8320)
  {}

  lemma RegisterDivides()
    ensures Divides(E(), Spelled, Generator())
  {
    forall c, d ensures Spelled(Xor(c, d)) == Add(Spelled(c), Spelled(d)) { SpelledXor(c, d); }
    forall x ensures Spelled(ParkBit(0, x)) == [x] + Zeros(31) { SpelledBit(x); }
    forall c ensures Spelled(Bit(c)) == ShiftBits(Generator(), Spelled(c)) { SpelledShift(c); }
  }

  // ----- main results

  lemma OnesInFours(j: nat)
    requires j < 8
    ensures forall k | 0 <= k < 4 :: At(Iterate(By, 0xFFFF_FFFF, j), k)
  {
    FourFours(0xFFFF_FFFF);
    FourFours(0xFFFF_FFFF >> 16);
    if j >= 4 {
      IterateAdd(By, 0xFFFF_FFFF, 4, j - 4);
    }
    AtInFour(Iterate(By, 0xFFFF_FFFF, j));
  }

  lemma OnesSpelled()
    ensures Spelled(0xFFFF_FFFF) == Ones(32)
  {
    forall k | 0 <= k < 32 ensures At(0xFFFF_FFFF, k) {
      AtByFours(0xFFFF_FFFF, k / 4, k % 4);
      OnesInFours(k / 4);
    }
  }

  /**
   The checksum is the complement of the remainder that the generator leaves of the message's bits,
   low bit of each byte first, with the first 32 inverted, after 32 zeros were appended.
   */
  lemma CrcIsRemainder(m: seq<bv8>)
    ensures var dividend := Add(BitsOf(P(), m) + Zeros(32), Ones(32));
      Spelled(Crc(m)) == Add(Remainder(Generator(), dividend), Ones(32))
  {
    BitsRefineBytes();
    FoldIsBits(R(), E(), P(), 0xFFFF_FFFF, m);
    RegisterDivides();
    FoldDivides(E(), Spelled, Generator(), 0xFFFF_FFFF, BitsOf(P(), m));
    OnesSpelled();
    SpelledXor(Running(m), 0xFFFF_FFFF);
  }

  // ----- known values

  const DIGITS: seq<bv8> := [0x31, 0x32, 0x33, 0x34, 0x35, 0x36, 0x37, 0x38, 0x39]

  /** The register before the first digit and after each one. */
  const VALUES: seq<bv32> := [
    0xFFFF_FFFF, 0x7C23_1048, 0xB0AC_BB32, 0x77B7_9C2D, 0x641C_1F5C,
    0x340A_C5E3, 0xF68D_2C9E, 0xAFFC_9660, 0x651F_2550, 0x340B_C6D9]

  /** The empty message, and the digits from one to nine, with the value published for them. */
  lemma KnownValues()
    ensures Crc([]) == 0 && Crc(DIGITS) == 0xCBF4_3926
  {
    forall i | 0 <= i < 9 ensures Step(R(), VALUES[i], DIGITS[i]) == VALUES[i + 1] {
      DigitStep(i);
    }
    FoldFollows(R(), VALUES, DIGITS);
  }

  lemma DigitStep(i: nat)
    requires i < 9
    ensures Step(R(), VALUES[i], DIGITS[i]) == VALUES[i + 1]
  {
    match i {
      case 0 => Digit1();
      case 1 => Digit2();
      case 2 => Digit3();
      case 3 => Digit4();
      case 4 => Digit5();
      case 5 => Digit6();
      case 6 => Digit7();
      case 7 => Digit8();
      case _ => Digit9();
    }
  }

  lemma Digit1()
    ensures Step(R(), 0xFFFF_FFFF, 0x31) == 0x7C23_1048
  {}

  lemma Digit2()
    ensures Step(R(), 0x7C23_1048, 0x32) == 0xB0AC_BB32
  {}

  lemma Digit3()
    ensures Step(R(), 0xB0AC_BB32, 0x33) == 0x77B7_9C2D
  {}

  lemma Digit4()
    ensures Step(R(), 0x77B7_9C2D, 0x34) == 0x641C_1F5C
  {}

  lemma Digit5()
    ensures Step(R(), 0x641C_1F5C, 0x35) == 0x340A_C5E3
  {}

  lemma Digit6()
    ensures Step(R(), 0x340A_C5E3, 0x36) == 0xF68D_2C9E
  {}

  lemma Digit7()
    ensures Step(R(), 0xF68D_2C9E, 0x37) == 0xAFFC_9660
  {}

  lemma Digit8()
    ensures Step(R(), 0xAFFC_9660, 0x38) == 0x651F_2550
  {}

  lemma Digit9()
    ensures Step(R(), 0x651F_2550, 0x39) == 0x340B_C6D9
  {}
}
