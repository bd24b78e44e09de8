/** `crc32`: least significant bit first, polynomial 0xEDB88320, register starting at all ones. */
module Crc32 {
  import opened CrcTheory

  /** One bit: shift right, and fold the polynomial in when a one falls out. */
  function Bit(c: bv32): bv32 {
    if c & 1 != 0 then 0xEDB8_8320 ^ (c >> 1) else c >> 1
  }

  function Unbit(c: bv32): bv32 {
    if c & 0x8000_0000 != 0 then ((c ^ 0xEDB8_8320) << 1) | 1 else c << 1
  }

  /** Bytes enter at the low end; the later ones of four lie above the first. */
  function Park(j: nat, b: bv8): bv32 {
    if j == 0 then b as bv32
    else if j == 1 then (b as bv32) << 8
    else if j == 2 then (b as bv32) << 16
    else (b as bv32) << 24
  }

  function Xor(a: bv32, b: bv32): bv32 {
    a ^ b
  }

  function Shift(c: bv32): bv32 {
    Eight(Bit, c)
  }

  function Unshift(c: bv32): bv32 {
    Eight(Unbit, c)
  }

  function R(): Register<bv32, bv8> {
    Register(Shift, Unshift, Xor, 0, Park, 4)
  }

  function Running(m: seq<bv8>): bv32 {
    Fold(R(), 0xFFFF_FFFF, m)
  }

  /** The bit-at-a-time checksum. */
  function Crc(m: seq<bv8>): bv32 {
    Running(m) ^ 0xFFFF_FFFF
  }

  /** The four bytes of a word, the low one first. */
  function LittleEndian(c: bv32): seq<bv8> {
    [(c & 0xFF) as bv8, ((c >> 8) & 0xFF) as bv8, ((c >> 16) & 0xFF) as bv8, (c >> 24) as bv8]
  }

  // ----- the register laws

  lemma LowBit(x: bv32)
    ensures x & 1 == 0 || x & 1 == 1
  {}

  lemma XorShifts(x: bv32, y: bv32)
    ensures (x ^ y) >> 1 == (x >> 1) ^ (y >> 1)
  {}

  lemma XorMasks(x: bv32, y: bv32)
    ensures (x ^ y) & 1 == (x & 1) ^ (y & 1)
  {}

  lemma OneFeedback(x: bv32, y: bv32, p: bv32)
    ensures p ^ (x ^ y) == (p ^ x) ^ y && p ^ (x ^ y) == x ^ (p ^ y)
  {}

  lemma TwoFeedbacks(x: bv32, y: bv32, p: bv32)
    ensures x ^ y == (p ^ x) ^ (p ^ y)
  {}

  lemma BitIsLinear(x: bv32, y: bv32)
    ensures Bit(Xor(x, y)) == Xor(Bit(x), Bit(y))
  {
    LowBit(x);
    LowBit(y);
    XorMasks(x, y);
    XorShifts(x, y);
    OneFeedback(x >> 1, y >> 1, 0xEDB8_8320);
    TwoFeedbacks(x >> 1, y >> 1, 0xEDB8_8320);
  }

  lemma UnbitUndoesPlainShift(x: bv32)
    requires x & 1 == 0
    ensures Unbit(x >> 1) == x
  {
    assert (x >> 1) & 0x8000_0000 == 0;
    assert (x >> 1) << 1 == x;
  }

  lemma HighBitOfFeedback(x: bv32)
    ensures (0xEDB8_8320 ^ (x >> 1)) & 0x8000_0000 != 0
  {}

  lemma FeedbackTwice(x: bv32)
    ensures (0xEDB8_8320 ^ x) ^ 0xEDB8_8320 == x
  {}

  lemma LowBitReturns(x: bv32)
    requires x & 1 != 0
    ensures ((x >> 1) << 1) | 1 == x
  {}

  lemma UnbitUndoesBit(x: bv32)
    ensures Unbit(Bit(x)) == x
  {
    if x & 1 == 0 {
      UnbitUndoesPlainShift(x);
    } else {
      HighBitOfFeedback(x);
      FeedbackTwice(x >> 1);
      LowBitReturns(x);
    }
  }

  lemma XorCommutes(x: bv32, y: bv32)
    ensures Xor(x, y) == Xor(y, x)
  {}

  lemma XorAssociates(x: bv32, y: bv32, z: bv32)
    ensures Xor(Xor(x, y), z) == Xor(x, Xor(y, z))
  {}

  lemma XorTwice(x: bv32, y: bv32)
    ensures Xor(Xor(x, y), y) == x
  {}

  lemma XorZero(x: bv32)
    ensures Xor(x, 0) == x
  {}

  lemma BitDistributes()
    ensures Distributes(Bit, Xor)
  {
    forall x, y ensures Bit(Xor(x, y)) == Xor(Bit(x), Bit(y)) { BitIsLinear(x, y); }
  }

  lemma UnbitUndoes()
    ensures Undoes(Unbit, Bit)
  {
    forall x ensures Unbit(Bit(x)) == x { UnbitUndoesBit(x); }
  }

  lemma XorIsGroup()
    ensures IsGroup(Xor, 0)
  {
    forall x, y ensures Xor(x, y) == Xor(y, x) { XorCommutes(x, y); }
    forall x, y ensures Xor(Xor(x, y), y) == x { XorTwice(x, y); }
    forall x ensures Xor(x, 0) == x { XorZero(x); }
    forall x, y, z ensures Xor(Xor(x, y), z) == Xor(x, Xor(y, z)) { XorAssociates(x, y, z); }
  }

  // ----- eight shifts of a word whose low byte is clear

  lemma BitShifts(x: bv32)
    requires x & 1 == 0
    ensures Bit(x) == x >> 1
  {}

  /** With its low byte clear, a word meets no feedback in eight shifts. */
  lemma ClearLowByteShifts(x: bv32)
    requires x & 0xFF == 0
    ensures Eight(Bit, x) == x >> 8
  {
    BitShifts(x);
    BitShifts(x >> 1);
    BitShifts(x >> 2);
    BitShifts(x >> 3);
    BitShifts(x >> 4);
    BitShifts(x >> 5);
    BitShifts(x >> 6);
    BitShifts(x >> 7);
  }

  lemma ParkMovesDown1(b: bv8)
    ensures Eight(Bit, (b as bv32) << 8) == b as bv32
  {
    var x := (b as bv32) << 8;
    assert x & 0xFF == 0 && x >> 8 == b as bv32;
    ClearLowByteShifts(x);
  }

  lemma ParkMovesDown2(b: bv8)
    ensures Eight(Bit, (b as bv32) << 16) == (b as bv32) << 8
  {
    var x := (b as bv32) << 16;
    assert x & 0xFF == 0 && x >> 8 == (b as bv32) << 8;
    ClearLowByteShifts(x);
  }

  lemma ParkMovesDown3(b: bv8)
    ensures Eight(Bit, (b as bv32) << 24) == (b as bv32) << 16
  {
    var x := (b as bv32) << 24;
    assert x & 0xFF == 0 && x >> 8 == (b as bv32) << 16;
    ClearLowByteShifts(x);
  }

  lemma ParkMovesDown(j: nat, b: bv8)
    requires j < 3
    ensures R().shift(Park(j + 1, b)) == Park(j, b)
  {
    if j == 0 {
      ParkMovesDown1(b);
    } else if j == 1 {
      ParkMovesDown2(b);
    } else {
      ParkMovesDown3(b);
    }
  }

  lemma ShiftLaws()
    ensures Distributes(Shift, Xor) && Undoes(Unshift, Shift)
  {
    BitDistributes();
    UnbitUndoes();
    EightLaws(Bit, Unbit, Shift, Unshift, Xor);
  }

  lemma IsShifted()
    ensures IsParked(R())
  {
    forall j: nat, b: bv8 | j + 1 < 4 ensures R().shift(Park(j + 1, b)) == Park(j, b) { ParkMovesDown(j, b); }
  }

  lemma IsRegister()
    ensures IsLinear(R()) && IsParked(R())
  {
    ShiftLaws();
    XorIsGroup();
    IsShifted();
  }

  // ----- four bytes as one word

  function Word(a: bv8, b: bv8, c: bv8, d: bv8): bv32 {
    (((a as bv32) ^ ((b as bv32) << 8)) ^ ((c as bv32) << 16)) ^ ((d as bv32) << 24)
  }

  lemma ZeroXor(x: bv32)
    ensures Xor(0, x) == x
  {}

  lemma PackFour(w: seq<bv8>)
    requires |w| == 4
    ensures Pack(R(), w) == Word(w[0], w[1], w[2], w[3])
  {
    PackOfFour(R(), w);
    ZeroXor(w[0] as bv32);
  }

  lemma WordBytes(a: bv8, b: bv8, c: bv8, d: bv8)
    ensures LittleEndian(Word(a, b, c, d)) == [a, b, c, d]
  {}

  lemma BytesWord(c: bv32)
    ensures var w := LittleEndian(c); Word(w[0], w[1], w[2], w[3]) == c
  {}

  lemma PacksFourApart()
    ensures PacksApart(R())
  {
    forall w, v | |w| == |v| == 4 && Pack(R(), w) == Pack(R(), v) ensures w == v {
      PackFour(w);
      PackFour(v);
      WordBytes(w[0], w[1], w[2], w[3]);
      WordBytes(v[0], v[1], v[2], v[3]);
      assert w == [w[0], w[1], w[2], w[3]] && v == [v[0], v[1], v[2], v[3]];
    }
  }

  lemma BitUndoesPlainShift(x: bv32)
    requires x & 0x8000_0000 == 0
    ensures Bit(x << 1) == x
  {
    assert (x << 1) & 1 == 0;
    assert (x << 1) >> 1 == x;
  }

  lemma BitUndoesFeedback(x: bv32)
    requires x & 0x8000_0000 != 0
    ensures Bit(((x ^ 0xEDB8_8320) << 1) | 1) == x
  {
    assert (((x ^ 0xEDB8_8320) << 1) | 1) & 1 != 0;
    assert (((x ^ 0xEDB8_8320) << 1) | 1) >> 1 == x ^ 0xEDB8_8320;
    FeedbackFirst(x);
  }

  lemma FeedbackFirst(x: bv32)
    ensures 0xEDB8_8320 ^ (x ^ 0xEDB8_8320) == x
  {}

  lemma BitUndoesUnbit(x: bv32)
    ensures Bit(Unbit(x)) == x
  {
    if x & 0x8000_0000 != 0 {
      BitUndoesFeedback(x);
    } else {
      BitUndoesPlainShift(x);
    }
  }

  // ----- bit by bit

  /** The bits of a byte in the order they enter, least significant first. */
  function ByteBits(b: bv8): seq<bool> {
    [b & 0x01 != 0, b & 0x02 != 0, b & 0x04 != 0, b & 0x08 != 0,
     b & 0x10 != 0, b & 0x20 != 0, b & 0x40 != 0, b & 0x80 != 0]
  }

  function ByteOf(a: bool, b: bool, c: bool, d: bool, e: bool, f: bool, g: bool, h: bool): bv8 {
    (if a then 0x01 else 0) | (if b then 0x02 else 0) | (if c then 0x04 else 0) | (if d then 0x08 else 0)
    | (if e then 0x10 else 0) | (if f then 0x20 else 0) | (if g then 0x40 else 0) | (if h then 0x80 else 0)
  }

  function BitsByte(w: seq<bool>): bv8 {
    if |w| != 8 then 0 else ByteOf(w[0], w[1], w[2], w[3], w[4], w[5], w[6], w[7])
  }

  function P(): Spelling {
    Spelling(ByteBits, BitsByte)
  }

  /** A bit enters where the first of a byte does; later ones lie where undone shifts put them. */
  function ParkBit(j: nat, x: bool): bv32 {
    if j > 0 then Unbit(ParkBit(j - 1, x)) else if x then 1 else 0
  }

  function E(): Register<bv32, bool> {
    Register(Bit, Unbit, Xor, 0, ParkBit, 32)
  }

  lemma SpelledByte(b: bv8)
    ensures BitsByte(ByteBits(b)) == b
  {}

  lemma SpelledBits(w: seq<bool>)
    requires |w| == 8
    ensures ByteBits(BitsByte(w)) == w
  {
    EightElements(w);
    BitsBack(w[0], w[1], w[2], w[3], w[4], w[5], w[6], w[7]);
  }

  lemma BitsBack(a: bool, b: bool, c: bool, d: bool, e: bool, f: bool, g: bool, h: bool)
    ensures ByteBits(ByteOf(a, b, c, d, e, f, g, h)) == [a, b, c, d, e, f, g, h]
  {}

  lemma BytesAreSpelled()
    ensures IsSpelling(P())
  {
    forall b ensures |ByteBits(b)| == 8 && BitsByte(ByteBits(b)) == b { SpelledByte(b); }
    forall w | |w| == 8 ensures ByteBits(BitsByte(w)) == w { SpelledBits(w); }
  }

  lemma ParkedBits(x: bool)
    ensures ParkBit(0, x) == (if x then 0x01 else 0)
    ensures ParkBit(1, x) == (if x then 0x02 else 0)
    ensures ParkBit(2, x) == (if x then 0x04 else 0)
    ensures ParkBit(3, x) == (if x then 0x08 else 0)
    ensures ParkBit(4, x) == (if x then 0x10 else 0)
    ensures ParkBit(5, x) == (if x then 0x20 else 0)
    ensures ParkBit(6, x) == (if x then 0x40 else 0)
    ensures ParkBit(7, x) == (if x then 0x80 else 0)
  {}

  lemma BitsAreParked()
    ensures IsParked(E())
  {
    forall j: nat, x: bool | j + 1 < 32 ensures Bit(ParkBit(j + 1, x)) == ParkBit(j, x) {
      BitUndoesUnbit(ParkBit(j, x));
    }
  }

  function One(x: bool, place: bv32): bv32 {
    if x then place else 0
  }

  function Placed(w: seq<bool>): seq<bv32>
    requires |w| == 8
  {
    [One(w[0], 0x01), One(w[1], 0x02), One(w[2], 0x04), One(w[3], 0x08),
     One(w[4], 0x10), One(w[5], 0x20), One(w[6], 0x40), One(w[7], 0x80)]
  }

  function Sum(p: seq<bv32>): bv32
    requires |p| == 8
  {
    Xor(Xor(Xor(Xor(Xor(Xor(Xor(Xor(0, p[0]), p[1]), p[2]), p[3]), p[4]), p[5]), p[6]), p[7])
  }

  lemma PlacedBits(w: seq<bool>)
    requires |w| == 8
    ensures forall j: nat | j < 8 :: ParkBit(j, w[j]) == Placed(w)[j]
  {
    forall j: nat | j < 8 ensures ParkBit(j, w[j]) == Placed(w)[j] { ParkedBits(w[j]); }
  }

  lemma PackedBits(w: seq<bool>)
    requires |w| == 8
    ensures Pack(E(), w) == Sum(Placed(w))
  {
    PlacedBits(w);
    PackedAs(E(), w, Placed(w));
  }

  lemma BitsAdd(b: bv8)
    ensures Sum(Placed(ByteBits(b))) == b as bv32
  {}

  /** The bits of a byte lie together where the byte does. */
  lemma BitsMakeByte(b: bv8)
    ensures Pack(E(), ByteBits(b)) == b as bv32
  {
    PackedBits(ByteBits(b));
    BitsAdd(b);
  }

  lemma ShiftIsEight()
    ensures ShiftsEight(R(), E())
  {}

  lemma BytesArePacked()
    ensures PacksBytes(R(), E(), P())
  {
    forall b ensures Pack(E(), ByteBits(b)) == Park(0, b) { BitsMakeByte(b); }
  }

  lemma BitsAreLinear()
    ensures IsLinear(E())
  {
    BitDistributes();
    UnbitUndoes();
    XorIsGroup();
  }

  lemma BitsRefineBytes()
    ensures Refines(R(), E(), P())
  {
    IsRegister();
    BitsAreLinear();
    BitsAreParked();
    BytesAreSpelled();
    ShiftIsEight();
    BytesArePacked();
  }

  // ----- main results

  lemma InvertingKeepsApart(x: bv32, y: bv32)
    requires x ^ 0xFFFF_FFFF == y ^ 0xFFFF_FFFF
    ensures x == y
  {}

  /** Any change confined to four adjacent bytes changes the checksum, whatever surrounds them. */
  lemma FourByteBurstDetected(m: seq<bv8>, n: seq<bv8>, i: nat)
    requires |m| == |n| && m != n
    requires forall j | 0 <= j < |m| && !(i <= j < i + 4) :: m[j] == n[j]
    ensures Crc(m) != Crc(n)
  {
    IsRegister();
    PacksFourApart();
    BurstDetected(R(), 0xFFFF_FFFF, m, n, i);
    if Crc(m) == Crc(n) {
      InvertingKeepsApart(Running(m), Running(n));
    }
  }

  /** Any change confined to 32 adjacent bits, at any bit of the message, changes the checksum. */
  lemma ThirtyTwoBitBurstDetected(m: seq<bv8>, n: seq<bv8>, i: nat)
    requires |m| == |n| && m != n && SameOutside(BitsOf(P(), m), BitsOf(P(), n), i, 32)
    ensures Crc(m) != Crc(n)
  {
    BitsRefineBytes();
    PacksFourApart();
    BitBurstDetected(R(), E(), P(), 0xFFFF_FFFF, m, n, i);
    if Crc(m) == Crc(n) {
      InvertingKeepsApart(Running(m), Running(n));
    }
  }

  lemma AllOnesShifted()
    ensures Shifts(R(), 0xFFFF_FFFF, 4) == 0xDEBB_20E3
  {
    assert Eight(Bit, 0xFFFF_FFFF) == 0x2DFD_1072;
  }

  /** Appending its little-endian checksum to any message always gives the same checksum. */
  lemma AppendedChecksumGivesResidue(m: seq<bv8>)
    ensures Crc(m + LittleEndian(Crc(m))) == 0x2144_DF1C
  {
    var w := LittleEndian(Crc(m));
    IsRegister();
    PackFour(w);
    BytesWord(Crc(m));
    AppendedResidue(R(), 0xFFFF_FFFF, m, w, 0xFFFF_FFFF);
    AllOnesShifted();
  }

  // ----- the table

  /** The table's entry for a byte: that byte shifted through. */
  function Entry(b: bv8): bv32 {
    Eight(Bit, b as bv32)
  }

  function LowByte(x: bv32): bv8 {
    (x & 0xFF) as bv8
  }

  function HighBytes(x: bv32): bv32 {
    x >> 8
  }

  function T(): Table<bv32> {
    Table(Entry, LowByte, HighBytes)
  }

  lemma SplitLowByte(x: bv32)
    ensures x == Xor(LowByte(x) as bv32, x & 0xFFFF_FF00)
  {}

  lemma ClearedLowByte(x: bv32)
    ensures (x & 0xFFFF_FF00) & 0xFF == 0 && (x & 0xFFFF_FF00) >> 8 == HighBytes(x)
  {}

  /** Eight shifts of a word are one table lookup and one shift by eight. */
  lemma LinearSplits(f: bv32 -> bv32, x: bv32, y: bv32)
    requires Distributes(f, Xor) && Eight(f, x & 0xFFFF_FF00) == y
    ensures Eight(f, x) == Xor(Eight(f, LowByte(x) as bv32), y)
  {
    SplitLowByte(x);
    EightIsLinear(f, Xor, LowByte(x) as bv32, x & 0xFFFF_FF00);
  }

  lemma ByteByTable(x: bv32)
    ensures R().shift(x) == Xor(Entry(LowByte(x)), HighBytes(x))
  {
    ClearedLowByte(x);
    ClearLowByteShifts(x & 0xFFFF_FF00);
    BitDistributes();
    LinearSplits(Bit, x, HighBytes(x));
  }

  lemma ByteLeavesHighBytes(c: bv32, b: bv8)
    ensures HighBytes(Xor(c, b as bv32)) == HighBytes(c)
  {}

  lemma BitGoesByTable()
    ensures GoesByTable(R(), T())
  {
    forall x ensures R().shift(x) == Xor(Entry(LowByte(x)), HighBytes(x)) { ByteByTable(x); }
    forall x, b ensures HighBytes(Xor(x, Park(0, b))) == HighBytes(x) { ByteLeavesHighBytes(x, b); }
  }

  function Bits(c: bv32, n: nat): bv32
    decreases n
  {
    if n == 0 then c else Bits(Bit(c), n - 1)
  }

  lemma UnrollTwo(c: bv32, n: nat)
    ensures Bits(c, n + 2) == Bits(Bit(Bit(c)), n)
    ensures Bits(c, 0) == c
  {}

  lemma EightBits(c: bv32)
    ensures Bits(c, 8) == Eight(Bit, c)
  {
    UnrollTwo(c, 6);
    UnrollTwo(Bit(Bit(c)), 4);
    UnrollTwo(Bit(Bit(Bit(Bit(c)))), 2);
    UnrollTwo(Bit(Bit(Bit(Bit(Bit(Bit(c)))))), 0);
  }

  method ShiftThrough(b: bv8) returns (c: bv32)
    ensures c == Entry(b)
  {
    c := b as bv32;
    EightBits(c);
    for j := 0 to 8
      invariant Bits(c, 8 - j) == Bits(b as bv32, 8)
    {
      c := if c & 1 != 0 then 0xEDB8_8320 ^ (c >> 1) else c >> 1;
    }
  }

  lemma ByteIndex(b: bv8)
    ensures b as int < 256 && (b as int) as bv8 == b
  {}

  method FillTable(table: array<bv32>)
    requires table.Length == 256
    modifies table
    ensures Holds(table[..], T())
  {
    for i := 0 to 256
      invariant forall k | 0 <= k < i :: table[k] == T().entry(k as bv8)
    {
      table[i] := ShiftThrough(i as bv8);
    }
    forall b: bv8 ensures b as int < 256 && table[..][b as int] == T().entry(b) { ByteIndex(b); }
  }

  method Compute(data: seq<bv8>) returns (crc: bv32)
    ensures crc == Crc(data)
  {
    var table := new bv32[256];
    FillTable(table);
    BitGoesByTable();
    crc := FoldWithArray(R(), T(), table, 0xFFFF_FFFF, data);
    crc := crc ^ 0xFFFF_FFFF;
  }
}
