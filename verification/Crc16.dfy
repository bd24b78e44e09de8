/** `crc16`: most significant bit first, polynomial 0x8005, register starting at zero. */
module Crc16 {
  import opened CrcTheory

  /** One bit: shift left, and fold the polynomial in when a one falls out. */
  function Bit(c: bv16): bv16 {
    if c & 0x8000 != 0 then (c << 1) ^ 0x8005 else c << 1
  }

  function Unbit(c: bv16): bv16 {
    if c & 1 != 0 then ((c ^ 0x8005) >> 1) | 0x8000 else c >> 1
  }

  /** Bytes enter at the high end; the second of two lies in the low end, eight shifts away. */
  function Park(j: nat, b: bv8): bv16 {
    if j == 0 then (b as bv16) << 8 else b as bv16
  }

  function Xor(a: bv16, b: bv16): bv16 {
    a ^ b
  }

  function Shift(c: bv16): bv16 {
    Eight(Bit, c)
  }

  function Unshift(c: bv16): bv16 {
    Eight(Unbit, c)
  }

  function R(): Register<bv16, bv8> {
    Register(Shift, Unshift, Xor, 0, Park, 2)
  }

  function Crc(m: seq<bv8>): bv16 {
    Fold(R(), 0, m)
  }

  function High(c: bv16): bv8 {
    (c >> 8) as bv8
  }

  function Low(c: bv16): bv8 {
    (c & 0xFF) as bv8
  }

  // ----- the register laws

  lemma XorCancels(a: bv16, b: bv16, p: bv16)
    ensures (a ^ p) ^ b == (a ^ b) ^ p && a ^ (b ^ p) == (a ^ b) ^ p && (a ^ p) ^ (b ^ p) == a ^ b
  {}

  lemma TopBit(x: bv16)
    ensures x & 0x8000 == 0 || x & 0x8000 == 0x8000
  {}

  lemma BitIsLinear(x: bv16, y: bv16)
    ensures Bit(Xor(x, y)) == Xor(Bit(x), Bit(y))
  {
    TopBit(x);
    TopBit(y);
    assert (x ^ y) & 0x8000 == (x & 0x8000) ^ (y & 0x8000);
    assert (x ^ y) << 1 == (x << 1) ^ (y << 1);
    XorCancels(x << 1, y << 1, 0x8005);
  }

  lemma UnbitUndoesPlainShift(x: bv16)
    requires x & 0x8000 == 0
    ensures Unbit(x << 1) == x
  {
    assert (x << 1) & 1 == 0;
    assert (x << 1) >> 1 == x;
  }

  lemma LowBitOfFeedback(x: bv16)
    ensures ((x << 1) ^ 0x8005) & 1 == 1
  {}

  lemma FeedbackTwice(x: bv16)
    ensures (x ^ 0x8005) ^ 0x8005 == x
  {}

  lemma TopBitReturns(x: bv16)
    requires x & 0x8000 != 0
    ensures ((x << 1) >> 1) | 0x8000 == x
  {}

  lemma UnbitUndoesBit(x: bv16)
    ensures Unbit(Bit(x)) == x
  {
    if x & 0x8000 == 0 {
      UnbitUndoesPlainShift(x);
    } else {
      LowBitOfFeedback(x);
      FeedbackTwice(x << 1);
      TopBitReturns(x);
    }
  }

  lemma XorCommutes(x: bv16, y: bv16)
    ensures Xor(x, y) == Xor(y, x)
  {}

  lemma XorAssociates(x: bv16, y: bv16, z: bv16)
    ensures Xor(Xor(x, y), z) == Xor(x, Xor(y, z))
  {}

  lemma XorTwice(x: bv16, y: bv16)
    ensures Xor(Xor(x, y), y) == x
  {}

  lemma XorZero(x: bv16)
    ensures Xor(x, 0) == x
  {}

  lemma BitShifts(x: bv16)
    ensures x & 0x8000 == 0 ==> Bit(x) == x << 1
  {}

  /** A low byte meets no feedback in eight shifts. */
  lemma LowByteShifts(b: bv8)
    ensures Eight(Bit, b as bv16) == (b as bv16) << 8
  {
    var x := b as bv16;
    BitShifts(x);
    BitShifts(x << 1);
    BitShifts(x << 2);
    BitShifts(x << 3);
    BitShifts(x << 4);
    BitShifts(x << 5);
    BitShifts(x << 6);
    BitShifts(x << 7);
  }

  lemma BitDistributes()
    ensures Distributes(Bit, Xor)
  {
    forall x, y ensures Bit(Xor(x, y)) == Xor(Bit(x), Bit(y)) { BitIsLinear(x, y); }
  }

  lemma UnbitUndoes()
    ensures Undoes(Unbit, Bit)
  {
    forall x ensures Unbit(Bit(x)) == x { UnbitUndoesBit(x); }
  }

  lemma XorIsGroup()
    ensures IsGroup(Xor, 0)
  {
    forall x, y ensures Xor(x, y) == Xor(y, x) { XorCommutes(x, y); }
    forall x, y ensures Xor(Xor(x, y), y) == x { XorTwice(x, y); }
    forall x ensures Xor(x, 0) == x { XorZero(x); }
    forall x, y, z ensures Xor(Xor(x, y), z) == Xor(x, Xor(y, z)) { XorAssociates(x, y, z); }
  }

  lemma ShiftLaws()
    ensures Distributes(Shift, Xor) && Undoes(Unshift, Shift)
  {
    BitDistributes();
    UnbitUndoes();
    EightLaws(Bit, Unbit, Shift, Unshift, Xor);
  }

  lemma IsShifted()
    ensures IsParked(R())
  {
    forall j: nat, b: bv8 | j + 1 < 2 ensures R().shift(Park(j + 1, b)) == Park(j, b) { LowByteShifts(b); }
  }

  lemma IsRegister()
    ensures IsLinear(R()) && IsParked(R())
  {
    ShiftLaws();
    XorIsGroup();
    IsShifted();
  }

  lemma PackTwo(w: seq<bv8>)
    requires |w| == 2
    ensures Pack(R(), w) == ((w[0] as bv16) << 8) ^ (w[1] as bv16)
  {
    assert w[..1][..0] == [];
    assert Pack(R(), w[..1]) == Xor(0, Park(0, w[0])) == (w[0] as bv16) << 8;
  }

  lemma TwoBytes(a: bv8, b: bv8)
    ensures High(((a as bv16) << 8) ^ (b as bv16)) == a && Low(((a as bv16) << 8) ^ (b as bv16)) == b
  {}

  lemma PacksTwoApart()
    ensures PacksApart(R())
  {
    forall w, v | |w| == |v| == R().width && Pack(R(), w) == Pack(R(), v) ensures w == v {
      PackTwo(w);
      PackTwo(v);
      TwoBytes(w[0], w[1]);
      TwoBytes(v[0], v[1]);
    }
  }

  lemma BitUndoesPlainShift(x: bv16)
    requires x & 1 == 0
    ensures Bit(x >> 1) == x
  {
    assert (x >> 1) & 0x8000 == 0;
    assert (x >> 1) << 1 == x;
  }

  lemma BitUndoesFeedback(x: bv16)
    requires x & 1 != 0
    ensures Bit(((x ^ 0x8005) >> 1) | 0x8000) == x
  {
    assert (((x ^ 0x8005) >> 1) | 0x8000) & 0x8000 != 0;
    assert (((x ^ 0x8005) >> 1) | 0x8000) << 1 == x ^ 0x8005;
    FeedbackTwice(x);
  }

  lemma BitUndoesUnbit(x: bv16)
    ensures Bit(Unbit(x)) == x
  {
    if x & 1 != 0 {
      BitUndoesFeedback(x);
    } else {
      BitUndoesPlainShift(x);
    }
  }

  // ----- bit by bit

  /** The bits of a byte in the order they enter, most significant first. */
  function ByteBits(b: bv8): seq<bool> {
    [b & 0x80 != 0, b & 0x40 != 0, b & 0x20 != 0, b & 0x10 != 0,
     b & 0x08 != 0, b & 0x04 != 0, b & 0x02 != 0, b & 0x01 != 0]
  }

  function ByteOf(a: bool, b: bool, c: bool, d: bool, e: bool, f: bool, g: bool, h: bool): bv8 {
    (if a then 0x80 else 0) | (if b then 0x40 else 0) | (if c then 0x20 else 0) | (if d then 0x10 else 0)
    | (if e then 0x08 else 0) | (if f then 0x04 else 0) | (if g then 0x02 else 0) | (if h then 0x01 else 0)
  }

  function BitsByte(w: seq<bool>): bv8 {
    if |w| != 8 then 0 else ByteOf(w[0], w[1], w[2], w[3], w[4], w[5], w[6], w[7])
  }

  function P(): Spelling {
    Spelling(ByteBits, BitsByte)
  }

  /** A bit enters where the first of a byte does; later ones lie where undone shifts put them. */
  function ParkBit(j: nat, x: bool): bv16 {
    if j > 0 then Unbit(ParkBit(j - 1, x)) else if x then 0x8000 else 0
  }

  function E(): Register<bv16, bool> {
    Register(Bit, Unbit, Xor, 0, ParkBit, 16)
  }

  lemma SpelledByte(b: bv8)
    ensures BitsByte(ByteBits(b)) == b
  {}

  lemma SpelledBits(w: seq<bool>)
    requires |w| == 8
    ensures ByteBits(BitsByte(w)) == w
  {
    EightElements(w);
    BitsBack(w[0], w[1], w[2], w[3], w[4], w[5], w[6], w[7]);
  }

  lemma BitsBack(a: bool, b: bool, c: bool, d: bool, e: bool, f: bool, g: bool, h: bool)
    ensures ByteBits(ByteOf(a, b, c, d, e, f, g, h)) == [a, b, c, d, e, f, g, h]
  {}

  lemma BytesAreSpelled()
    ensures IsSpelling(P())
  {
    forall b ensures |ByteBits(b)| == 8 && BitsByte(ByteBits(b)) == b { SpelledByte(b); }
    forall w | |w| == 8 ensures ByteBits(BitsByte(w)) == w { SpelledBits(w); }
  }

  lemma ParkedBits(x: bool)
    ensures ParkBit(0, x) == (if x then 0x8000 else 0)
    ensures ParkBit(1, x) == (if x then 0x4000 else 0)
    ensures ParkBit(2, x) == (if x then 0x2000 else 0)
    ensures ParkBit(3, x) == (if x then 0x1000 else 0)
    ensures ParkBit(4, x) == (if x then 0x0800 else 0)
    ensures ParkBit(5, x) == (if x then 0x0400 else 0)
    ensures ParkBit(6, x) == (if x then 0x0200 else 0)
    ensures ParkBit(7, x) == (if x then 0x0100 else 0)
  {}

  lemma BitsAreParked()
    ensures IsParked(E())
  {
    forall j: nat, x: bool | j + 1 < 16 ensures Bit(ParkBit(j + 1, x)) == ParkBit(j, x) {
      BitUndoesUnbit(ParkBit(j, x));
    }
  }

  function One(x: bool, place: bv16): bv16 {
    if x then place else 0
  }

  function Placed(w: seq<bool>): seq<bv16>
    requires |w| == 8
  {
    [One(w[0], 0x8000), One(w[1], 0x4000), One(w[2], 0x2000), One(w[3], 0x1000),
     One(w[4], 0x0800), One(w[5], 0x0400), One(w[6], 0x0200), One(w[7], 0x0100)]
  }

  function Sum(p: seq<bv16>): bv16
    requires |p| == 8
  {
    Xor(Xor(Xor(Xor(Xor(Xor(Xor(Xor(0, p[0]), p[1]), p[2]), p[3]), p[4]), p[5]), p[6]), p[7])
  }

  lemma PlacedBits(w: seq<bool>)
    requires |w| == 8
    ensures forall j: nat | j < 8 :: ParkBit(j, w[j]) == Placed(w)[j]
  {
    forall j: nat | j < 8 ensures ParkBit(j, w[j]) == Placed(w)[j] { ParkedBits(w[j]); }
  }

  lemma PackedBits(w: seq<bool>)
    requires |w| == 8
    ensures Pack(E(), w) == Sum(Placed(w))
  {
    PlacedBits(w);
    PackedAs(E(), w, Placed(w));
  }

  lemma BitsAdd(b: bv8)
    ensures Sum(Placed(ByteBits(b))) == (b as bv16) << 8
  {}

  /** The bits of a byte lie together where the byte does. */
  lemma BitsMakeByte(b: bv8)
    ensures Pack(E(), ByteBits(b)) == (b as bv16) << 8
  {
    PackedBits(ByteBits(b));
    BitsAdd(b);
  }

  lemma ShiftIsEight()
    ensures ShiftsEight(R(), E())
  {}

  lemma BytesArePacked()
    ensures PacksBytes(R(), E(), P())
  {
    forall b ensures Pack(E(), ByteBits(b)) == Park(0, b) { BitsMakeByte(b); }
  }

  lemma BitsAreLinear()
    ensures IsLinear(E())
  {
    BitDistributes();
    UnbitUndoes();
    XorIsGroup();
  }

  lemma BitsRefineBytes()
    ensures Refines(R(), E(), P())
  {
    IsRegister();
    BitsAreLinear();
    BitsAreParked();
    BytesAreSpelled();
    ShiftIsEight();
    BytesArePacked();
  }

  // ----- main results

  /** Any change confined to two adjacent bytes changes the checksum, whatever surrounds them. */
  lemma TwoByteBurstDetected(m: seq<bv8>, n: seq<bv8>, i: nat)
    requires |m| == |n| && m != n
    requires forall j | 0 <= j < |m| && !(i <= j < i + 2) :: m[j] == n[j]
    ensures Crc(m) != Crc(n)
  {
    IsRegister();
    PacksTwoApart();
    BurstDetected(R(), 0, m, n, i);
  }

  /** Any change confined to sixteen adjacent bits, at any bit of the message, changes the checksum. */
  lemma SixteenBitBurstDetected(m: seq<bv8>, n: seq<bv8>, i: nat)
    requires |m| == |n| && m != n && SameOutside(BitsOf(P(), m), BitsOf(P(), n), i, 16)
    ensures Crc(m) != Crc(n)
  {
    BitsRefineBytes();
    PacksTwoApart();
    BitBurstDetected(R(), E(), P(), 0, m, n, i);
  }

  /** Appending its big-endian checksum to any message gives checksum zero. */
  lemma AppendedChecksumGivesZero(m: seq<bv8>)
    ensures Crc(m + [High(Crc(m)), Low(Crc(m))]) == 0
  {
    var c := Crc(m);
    IsRegister();
    PackTwo([High(c), Low(c)]);
    WordOf(c);
    AppendedResidue(R(), 0, m, [High(c), Low(c)], 0);
    BitShifts(0);
    assert R().shift(0) == 0;
    assert Shifts(R(), 0, 1) == 0;
  }

  lemma WordOf(c: bv16)
    ensures ((High(c) as bv16) << 8) ^ (Low(c) as bv16) == c == Xor(c, 0)
  {}

  // ----- the loops

  function Bits(c: bv16, n: nat): bv16
    decreases n
  {
    if n == 0 then c else Bits(Bit(c), n - 1)
  }

  lemma EightBits(c: bv16)
    ensures Bits(c, 8) == Eight(Bit, c)
  {
    UnrollTwo(c, 6);
    UnrollTwo(Bit(Bit(c)), 4);
    UnrollTwo(Bit(Bit(Bit(Bit(c)))), 2);
    UnrollTwo(Bit(Bit(Bit(Bit(Bit(Bit(c)))))), 0);
  }

  lemma UnrollTwo(c: bv16, n: nat)
    ensures Bits(c, n + 2) == Bits(Bit(Bit(c)), n)
    ensures Bits(c, 0) == c
  {}

  lemma OneMoreByte(m: seq<bv8>, k: nat)
    requires k < |m|
    ensures Crc(m[..k + 1]) == Shift(Crc(m[..k]) ^ ((m[k] as bv16) << 8))
  {
    assert m[..k + 1][..k] == m[..k];
  }

  /** The inner loop. */
  method ShiftThrough(entered: bv16) returns (crc: bv16)
    ensures crc == Shift(entered)
  {
    crc := entered;
    EightBits(entered);
    for i := 0 to 8
      invariant Bits(crc, 8 - i) == Bits(entered, 8)
    {
      crc := if crc & 0x8000 != 0 then (crc << 1) ^ 0x8005 else crc << 1;
    }
  }

  method Compute(data: seq<bv8>) returns (crc: bv16)
    ensures crc == Crc(data)
  {
    crc := 0;
    for k := 0 to |data|
      invariant crc == Crc(data[..k])
    {
      OneMoreByte(data, k);
      crc := crc ^ ((data[k] as bv16) << 8);
      crc := ShiftThrough(crc);
    }
    assert data[..|data|] == data;
  }
}
