/** `crc16` is the remainder of its message by its generator, and so has its known values. */
module Crc16Remainder {
  import opened CrcTheory
  import opened CrcDivision
  import opened Crc16

  /** The generator of this CRC-16 is x^16 and these powers. */
  const EXPONENTS: set<int> := {15, 2, 0}

  function Generator(): (g: seq<bool>)
    ensures |g| == 16 && forall k | 0 <= k < 16 :: g[k] <==> 15 - k in EXPONENTS
  {
    seq(16, k => 15 - k in EXPONENTS)
  }

  /** The coefficient `k` places below the highest, which is in the highest bit. */
  function At(c: bv16, k: nat): bool
    decreases k
  {
    if k == 0 then c & 0x8000 != 0 else At(c << 1, k - 1)
  }

  function Next(c: bv16): bv16 {
    c << 1
  }

  function Spelled(c: bv16): (w: seq<bool>)
    ensures |w| == 16 && forall k | 0 <= k < 16 :: w[k] == At(c, k)
  {
    seq(16, k requires 0 <= k < 16 => At(c, k))
  }

  // ----- coefficients four at a time

  function By(c: bv16): bv16 {
    c << 4
  }

  lemma FourShifts(c: bv16)
    ensures (((c << 1) << 1) << 1) << 1 == c << 4
  {}

  lemma AtPastFour(c: bv16, k: nat)
    ensures At(c, k + 4) == At(c << 4, k)
  {
    assert At(c, k + 4) == At(c << 1, k + 3) == At((c << 1) << 1, k + 2) == At(((c << 1) << 1) << 1, k + 1);
    FourShifts(c);
  }

  lemma {:induction false} AtByFours(c: bv16, j: nat, k: nat)
    ensures At(c, 4 * j + k) == At(Iterate(By, c, j), k)
    decreases j
  {
    if j > 0 {
      AtPastFour(c, 4 * (j - 1) + k);
      AtByFours(By(c), j - 1, k);
    }
  }

  lemma ThreeMasks(c: bv16)
    ensures ((c << 1) & 0x8000 != 0) == (c & 0x4000 != 0)
    ensures (((c << 1) << 1) & 0x8000 != 0) == (c & 0x2000 != 0)
    ensures ((((c << 1) << 1) << 1) & 0x8000 != 0) == (c & 0x1000 != 0)
  {}

  lemma AtInFour(c: bv16)
    ensures At(c, 0) == (c & 0x8000 != 0) && At(c, 1) == (c & 0x4000 != 0)
    ensures At(c, 2) == (c & 0x2000 != 0) && At(c, 3) == (c & 0x1000 != 0)
  {
    assert At(c, 1) == At(c << 1, 0) && At(c, 2) == At((c << 1) << 1, 0) && At(c, 3) == At(((c << 1) << 1) << 1, 0);
    ThreeMasks(c);
  }

  lemma ByTwice(c: bv16)
    ensures By(By(c)) == c << 8 && By(By(By(c))) == c << 12 && By(By(By(By(c)))) == 0
  {}

  lemma FourFours(c: bv16)
    ensures Iterate(By, c, 0) == c && Iterate(By, c, 1) == c << 4 && Iterate(By, c, 2) == c << 8 && Iterate(By, c, 3) == c << 12
    ensures Iterate(By, c, 4) == 0
  {
    Unrolls(By, c);
    ByTwice(c);
  }

  // ----- the register divides

  lemma XorShifts(c: bv16, d: bv16)
    ensures (c ^ d) << 1 == (c << 1) ^ (d << 1)
  {}

  lemma FirstOfXor(c: bv16, d: bv16)
    ensures ((c ^ d) & 0x8000 != 0) == ((c & 0x8000 != 0) != (d & 0x8000 != 0))
  {}

  lemma AtOfXor(c: bv16, d: bv16, k: nat)
    ensures At(Xor(c, d), k) == (At(c, k) != At(d, k))
  {
    forall c, d ensures At(Xor(c, d), 0) == (At(c, 0) != At(d, 0)) { FirstOfXor(c, d); }
    forall c, d ensures Next(Xor(c, d)) == Xor(Next(c), Next(d)) { XorShifts(c, d); }
    PlacesAdd(At, Next, Xor, c, d, k);
  }

  lemma {:induction false} AtOfZero(k: nat)
    ensures !At(0, k)
  {
    if k > 0 {
      AtOfZero(k - 1);
    }
  }

  lemma AtEnd(c: bv16)
    ensures !At(c, 16)
  {
    AtByFours(c, 4, 0);
    FourFours(c);
  }

  lemma SpelledXor(c: bv16, d: bv16)
    ensures Spelled(Xor(c, d)) == Add(Spelled(c), Spelled(d))
  {
    forall k | 0 <= k < 16 ensures At(Xor(c, d), k) == (At(c, k) != At(d, k)) { AtOfXor(c, d, k); }
  }

  lemma SpelledMoved(c: bv16)
    ensures Spelled(c << 1) == Spelled(c)[1..] + [false]
  {
    AtEnd(c);
  }

  lemma SpelledBit(x: bool)
    ensures Spelled(ParkBit(0, x)) == [x] + Zeros(15)
  {
    forall k | 0 < k < 16 ensures !At(ParkBit(0, x), k) {
      assert 0x8000 as bv16 << 1 == 0;
      AtOfZero(k - 1);
    }
  }

  lemma FourOf(j: nat)
    requires j < 4
    ensures forall k | 4 * j <= k < 4 * j + 4 :: At(0x8005, k) == Generator()[k]
  {
    FourFours(0x8005);
    AtInFour(Iterate(By, 0x8005, j));
    forall k | 4 * j <= k < 4 * j + 4 ensures At(0x8005, k) == Generator()[k] {
      AtByFours(0x8005, j, k - 4 * j);
    }
  }

  lemma SpelledGenerator()
    ensures Spelled(0x8005) == Generator()
  {
    forall k | 0 <= k < 16 ensures At(0x8005, k) == Generator()[k] { FourOf(k / 4); }
  }

  lemma SpelledShift(c: bv16)
    ensures Spelled(Bit(c)) == ShiftBits(Generator(), Spelled(c))
  {
    SpelledMoved(c);
    SpelledGenerator();
    if c & 0x8000 != 0 {
      SpelledXor(c << 1, 0x8005);

    }
  }

  lemma RegisterDivides()
    ensures Divides(E(), Spelled, Generator())
  {
    forall c, d ensures Spelled(Xor(c, d)) == Add(Spelled(c), Spelled(d)) { SpelledXor(c, d); }
    forall x ensures Spelled(ParkBit(0, x)) == [x] + Zeros(15) { SpelledBit(x); }
    forall c ensures Spelled(Bit(c)) == ShiftBits(Generator(), Spelled(c)) { SpelledShift(c); }
  }

  // ----- main results

  lemma NothingSpelled()
    ensures Spelled(0) == Zeros(16)
  {
    forall k | 0 <= k < 16 ensures !At(0, k) { AtOfZero(k); }
  }

  /**
   The checksum is the remainder that the generator leaves of the message's bits, high bit of each
   byte first, after sixteen zeros were appended.
   */
  lemma CrcIsRemainder(m: seq<bv8>)
    ensures Spelled(Crc(m)) == Remainder(Generator(), BitsOf(P(), m) + Zeros(16))
  {
    BitsRefineBytes();
    FoldIsBits(R(), E(), P(), 0, m);
    RegisterDivides();
    FoldDivides(E(), Spelled, Generator(), 0, BitsOf(P(), m));
    NothingSpelled();
    ZerosAdded(BitsOf(P(), m) + Zeros(16), 16);
  }

  // ----- known values

  const DIGITS: seq<bv8> := [0x31, 0x32, 0x33, 0x34, 0x35, 0x36, 0x37, 0x38, 0x39]

  /** The register before the first digit and after each one. */
  const VALUES: seq<bv16> := [
    0x0000, 0x80A5, 0xA6AC, 0xAF7E, 0xFD59,
    0xDBB3, 0xB16E, 0xED17, 0x95FD, 0xFEE8]

  /** The empty message, and the digits from one to nine, with the value published for them. */
  lemma KnownValues()
    ensures Crc([]) == 0 && Crc(DIGITS) == 0xFEE8
  {
    forall i | 0 <= i < 9 ensures Step(R(), VALUES[i], DIGITS[i]) == VALUES[i + 1] {
      DigitStep(i);
    }
    FoldFollows(R(), VALUES, DIGITS);
  }

  lemma DigitStep(i: nat)
    requires i < 9
    ensures Step(R(), VALUES[i], DIGITS[i]) == VALUES[i + 1]
  {
    match i {
      case 0 => Digit1();
      case 1 => Digit2();
      case 2 => Digit3();
      case 3 => Digit4();
      case 4 => Digit5();
      case 5 => Digit6();
      case 6 => Digit7();
      case 7 => Digit8();
      case _ => Digit9();
    }
  }

  lemma Digit1()
    ensures Step(R(), 0x0000, 0x31) == 0x80A5
  {}

  lemma Digit2()
    ensures Step(R(), 0x80A5, 0x32) == 0xA6AC
  {}

  lemma Digit3()
    ensures Step(R(), 0xA6AC, 0x33) == 0xAF7E
  {}

  lemma Digit4()
    ensures Step(R(), 0xAF7E, 0x34) == 0xFD59
  {}

  lemma Digit5()
    ensures Step(R(), 0xFD59, 0x35) == 0xDBB3
  {}

  lemma Digit6()
    ensures Step(R(), 0xDBB3, 0x36) == 0xB16E
  {}

  lemma Digit7()
    ensures Step(R(), 0xB16E, 0x37) == 0xED17
  {}

  lemma Digit8()
    ensures Step(R(), 0xED17, 0x38) == 0x95FD
  {}

  lemma Digit9()
    ensures Step(R(), 0x95FD, 0x39) == 0xFEE8
  {}
}
