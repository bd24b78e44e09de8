/** Base64 as written: a 64-bit subtraction that wraps for one byte, and a size that is zero for full groups. */
module Base64 {

  const WORD: int := 0x1_0000_0000_0000_0000

  type Byte = n: nat | n < 256

  type Six = n: nat | n < 64

  // ----- the alphabet

  function Char(i: Six): char {
    if i < 26 then 'A' + i as char
    else if i < 52 then 'a' + (i - 26) as char
    else if i < 62 then '0' + (i - 52) as char
    else if i == 62 then '+'
    else '/'
  }

  /** The place of a character in the alphabet, or -1. */
  function Index(c: char): (i: int)
    ensures -1 <= i < 64
  {
    if 'A' <= c <= 'Z' then c as int - 'A' as int
    else if 'a' <= c <= 'z' then c as int - 'a' as int + 26
    else if '0' <= c <= '9' then c as int - '0' as int + 52
    else if c == '+' then 62
    else if c == '/' then 63
    else -1
  }

  lemma IndexUndoesChar(i: Six)
    ensures Index(Char(i)) == i && Char(i) != '='
  {}

  // ----- encoding

  /** Subtraction of unsigned sizes. */
  function Minus(a: nat, b: nat): nat
    requires b < WORD
  {
    if b <= a then a - b else a - b + WORD
  }

  function At(x: seq<Byte>, i: nat): Byte {
    if i < |x| then x[i] else 0
  }

  /** `n` bytes as one number; bytes past the end count as zero. */
  function Group(x: seq<Byte>, i: nat, n: nat): nat
    decreases n
  {
    if n == 0 then 0 else Group(x, i, n - 1) * 256 + At(x, i + n - 1)
  }

  /** Two to four digits of a group of three bytes. */
  function Quad(c: nat, third: bool, fourth: bool): string {
    [Char(c / 262144 % 64), Char(c / 4096 % 64)]
    + (if third then [Char(c / 64 % 64)] else [])
    + (if fourth then [Char(c % 64)] else [])
  }

  function Quads(x: seq<Byte>, i: nat): string
    decreases |x| - i
  {
    if i >= |x| then []
    else Quad(Group(x, i, 3), i < Minus(|x|, 1), i < Minus(|x|, 2)) + Quads(x, i + 3)
  }

  function Padding(n: nat): string {
    if n % 3 == 1 then "==" else if n % 3 == 2 then "=" else ""
  }

  function Encoded(x: seq<Byte>): string {
    Quads(x, 0) + Padding(|x|)
  }

  method Gather(data: seq<Byte>, i: nat) returns (c: nat)
    ensures c == Group(data, i, 3)
  {
    c := 0;
    for j := 0 to 3
      invariant c == Group(data, i, j)
    {
      c := c * 256;
      if i + j < |data| {
        c := c + data[i + j];
      }
    }
  }

  method Append(out: string, c: nat, third: bool, fourth: bool) returns (more: string)
    ensures more == out + Quad(c, third, fourth)
  {
    more := out + [Char(c / 262144 % 64)];
    more := more + [Char(c / 4096 % 64)];
    if third {
      more := more + [Char(c / 64 % 64)];
    }
    if fourth {
      more := more + [Char(c % 64)];
    }
  }

  method ToBase64(data: seq<Byte>) returns (out: string)
    ensures out == Encoded(data)
  {
    out := "";
    var i: nat, size := 0, |data|;
    while i < size
      invariant out + Quads(data, i) == Quads(data, 0)
      decreases size - i
    {
      var c := Gather(data, i);
      Associates(out, Quad(c, i < Minus(size, 1), i < Minus(size, 2)), Quads(data, i + 3));
      out := Append(out, c, i < Minus(size, 1), i < Minus(size, 2));
      i := i + 3;
    }
    if size % 3 == 1 {
      out := out + "==";
    } else if size % 3 == 2 {
      out := out + "=";
    }
  }

  lemma Associates<T>(a: seq<T>, b: seq<T>, c: seq<T>)
    ensures (a + b) + c == a + (b + c)
  {}

  /** The digits of section 4 of RFC 4648. */
  function Digits(x: seq<Byte>): string {
    if x == [] then []
    else Quad(Group(x, 0, 3), |x| >= 2, |x| >= 3) + if |x| <= 3 then [] else Digits(x[3..])
  }

  /** The encoding of section 4 of RFC 4648. */
  function Standard(x: seq<Byte>): string {
    Digits(x) + Padding(|x|)
  }

  lemma GroupInSuffix(x: seq<Byte>, i: nat)
    requires i <= |x|
    ensures Group(x, i, 3) == Group(x[i..], 0, 3)
  {
    assert forall k: nat | k < 3 :: At(x, i + k) == At(x[i..], k);
    assert Group(x, i, 1) == Group(x[i..], 0, 1);
    assert Group(x, i, 2) == Group(x[i..], 0, 2);
  }

  lemma {:induction false} QuadsAreDigits(x: seq<Byte>, i: nat)
    requires i <= |x| && |x| != 1
    requires |x| - i == 1 ==> i > 0
    ensures Quads(x, i) == Digits(x[i..])
    decreases |x| - i
  {
    if i < |x| {
      GroupInSuffix(x, i);
      if i + 3 <= |x| {
        assert x[i..][3..] == x[i + 3..];
        QuadsAreDigits(x, i + 3);
      }
    }
  }

  lemma Multiples(m: nat, d: int)
    ensures d >= 1 ==> m * d >= m
    ensures d <= -1 ==> m * d + m <= 0
  {}

  lemma DivMod(n: nat, m: nat, q: nat, r: nat)
    requires n == m * q + r && r < m
    ensures n / m == q && n % m == r
  {
    var d := n / m - q;
    assert m * d == r - n % m;
    Multiples(m, d);
  }

  lemma OneByteGroup(x: seq<Byte>)
    requires |x| == 1
    ensures Char(Group(x, 0, 3) % 64) == 'A'
  {
    var b: nat := x[0];
    assert Group(x, 0, 1) == b;
    assert Group(x, 0, 2) == b * 256;
    assert Group(x, 0, 3) == b * 65536 == 64 * (b * 1024);
    DivMod(b * 65536, 64, b * 1024, 0);
  }

  lemma FourthAlone(c: nat)
    ensures Quad(c, false, true) == Quad(c, false, false) + [Char(c % 64)]
  {}

  /** The encoder follows the standard for every length but one, where the wrap adds a digit. */
  lemma EncodesAsStandardIff(x: seq<Byte>)
    ensures Encoded(x) == Standard(x) <==> |x| != 1
    ensures |x| == 1 ==> Encoded(x) == Digits(x) + "A" + Padding(1)
  {
    if |x| == 1 {
      assert Quads(x, 3) == "";
      OneByteGroup(x);
      FourthAlone(Group(x, 0, 3));
      assert Quads(x, 0) == Quad(Group(x, 0, 3), false, true);
      assert Digits(x) == Quad(Group(x, 0, 3), false, false);
    } else {
      assert x[0..] == x;
      QuadsAreDigits(x, 0);
    }
  }

  // ----- decoding

  /** The place of the last character that is no padding, or zero. */
  function LastDigit(from: string): nat
    requires from != []
    ensures LastDigit(from) < |from|
  {
    if |from| > 1 && from[|from| - 1] == '=' then LastDigit(from[..|from| - 1]) else |from| - 1
  }

  function SizeFor(size: nat): nat {
    match size % 4
    case 0 => size / 4 * 3 + 3
    case 1 => size / 4 * 3 + 1
    case 2 => size / 4 * 3 + 2
    case _ => 0
  }

  function Size(from: string): nat {
    if from == [] then 0
    else
      SizeFor(LastDigit(from))
  }

  method SizeOf(from: string) returns (out: nat)
    ensures out == Size(from)
  {
    var size: nat := |from|;
    if size == 0 {
      return 0;
    }
    size := size - 1;
    assert from[..size + 1] == from;
    while size > 0 && from[size] == '='
      invariant size < |from| && LastDigit(from[..size + 1]) == LastDigit(from)
    {
      assert from[..size + 1][..size] == from[..size];
      size := size - 1;
    }
    assert LastDigit(from[..size + 1]) == size;
    out := size / 4 * 3 + 3;
    match size % 4
    case 0 => return out;
    case 1 => return out - 2;
    case 2 => return out - 1;
    case _ => return 0;
  }

  /** The alphabet places of a text; other characters are passed over. */
  function Places(from: string): seq<Six> {
    if from == [] then []
    else if Index(from[0]) < 0 then Places(from[1..])
    else [Index(from[0])] + Places(from[1..])
  }

  type Bits = n: nat | n == 0 || n == 2 || n == 4 || n == 6

  /** The low `bits` bits of a value, and the eight bits above them. */
  function Low(v: nat, bits: Bits): nat {
    if bits == 0 then 0 else if bits == 2 then v % 4 else if bits == 4 then v % 16 else v % 64
  }

  function Top(v: nat, bits: Bits): Byte {
    if bits == 0 then v % 256 else if bits == 2 then v / 4 % 256 else if bits == 4 then v / 16 % 256 else v / 64 % 256
  }

  /** The bytes that six-bit places make, after `bits` bits with the value `rest`. */
  function Bytes(rest: nat, bits: Bits, places: seq<Six>): seq<Byte>
    decreases |places|
  {
    if places == [] then []
    else
      var v := rest * 64 + places[0];
      if bits == 0 then Bytes(Low(v, 6), 6, places[1..])
      else [Top(v, bits - 2)] + Bytes(Low(v, bits - 2), bits - 2, places[1..])
  }

  function Prefix(s: seq<Byte>, n: nat): seq<Byte> {
    if n <= |s| then s[..n] else s
  }

  /** What the decoder writes. */
  function Decoded(from: string, maxsize: nat): seq<Byte> {
    if Size(from) > maxsize then [] else Prefix(Bytes(0, 0, Places(from)), Size(from))
  }

  const WIDTH: int := 0x1_0000_0000

  lemma ShiftLow(val: nat, i: Six)
    ensures (val * 64 + i) % 256 == val % 4 * 64 + i
    ensures (val * 64 + i) % 1024 == val % 16 * 64 + i
    ensures (val * 64 + i) % 4096 == val % 64 * 64 + i
    ensures (val * 64 + i) % 64 == i
  {
    DivMod(val * 64 + i, 256, val / 4, val % 4 * 64 + i);
    DivMod(val * 64 + i, 1024, val / 16, val % 16 * 64 + i);
    DivMod(val * 64 + i, 4096, val / 64, val % 64 * 64 + i);
    DivMod(val * 64 + i, 64, val, i);
  }

  /** Wrapping at the width leaves the low bits alone. */
  lemma WrapLow(n: nat, m: nat, k: nat)
    requires m > 0 && m * k == WIDTH
    ensures n % WIDTH % m == n % m
  {
    var q, r := n / WIDTH, n % WIDTH;
    var a, b := r / m, r % m;
    assert n == m * k * q + m * a + b == m * (k * q + a) + b;
    DivMod(n, m, k * q + a, b);
  }

  lemma MiddleBits4(v: nat)
    ensures v / 4 % 256 == v % 1024 / 4 && v % 4 == v % 1024 % 4
  {
    var h, r := v / 1024, v % 1024;
    var a, b := r / 4, r % 4;
    DivMod(v, 4, 256 * h + a, b);
    DivMod(256 * h + a, 256, h, a);
  }

  lemma MiddleBits16(v: nat)
    ensures v / 16 % 256 == v % 4096 / 16 && v % 16 == v % 4096 % 16
  {
    var h, r := v / 4096, v % 4096;
    var a, b := r / 16, r % 16;
    DivMod(v, 16, 256 * h + a, b);
    DivMod(256 * h + a, 256, h, a);
  }

  lemma ShiftIn2(val: nat, i: Six)
    ensures var v, w := (val * 64 + i) % WIDTH, Low(val, 2) * 64 + i; Top(v, 0) == Top(w, 0)
  {
    ShiftLow(val, i);
    WrapLow(val * 64 + i, 256, 0x100_0000);
  }

  lemma ShiftIn4(val: nat, i: Six)
    ensures var v, w := (val * 64 + i) % WIDTH, Low(val, 4) * 64 + i; Top(v, 2) == Top(w, 2) && Low(v, 2) == Low(w, 2)
  {
    ShiftLow(val, i);
    WrapLow(val * 64 + i, 1024, 0x40_0000);
    MiddleBits4((val * 64 + i) % WIDTH);
    MiddleBits4(val % 16 * 64 + i);
  }

  lemma ShiftIn6(val: nat, i: Six)
    ensures var v, w := (val * 64 + i) % WIDTH, Low(val, 6) * 64 + i; Top(v, 4) == Top(w, 4) && Low(v, 4) == Low(w, 4)
  {
    ShiftLow(val, i);
    WrapLow(val * 64 + i, 4096, 0x10_0000);
    MiddleBits16((val * 64 + i) % WIDTH);
    MiddleBits16(val % 64 * 64 + i);
  }

  lemma ShiftIn0(val: nat, i: Six)
    ensures var v, w := (val * 64 + i) % WIDTH, Low(val, 0) * 64 + i; Low(v, 6) == Low(w, 6)
  {
    ShiftLow(val, i);
    WrapLow(val * 64 + i, 64, 0x400_0000);
  }

  /** One digit shifted into the 32-bit value makes the same bytes as if nothing wrapped. */
  lemma ShiftIn(val: nat, bits: Bits, i: Six, more: seq<Six>)
    ensures var v := (val * 64 + i) % WIDTH;
      Bytes(Low(val, bits), bits, [i] + more)
      == if bits == 0 then Bytes(Low(v, 6), 6, more)
         else [Top(v, bits - 2)] + Bytes(Low(v, bits - 2), bits - 2, more)
  {
    assert ([i] + more)[0] == i && ([i] + more)[1..] == more;
    if bits == 0 {
      ShiftIn0(val, i);
    } else if bits == 2 {
      ShiftIn2(val, i);
    } else if bits == 4 {
      ShiftIn4(val, i);
    } else {
      ShiftIn6(val, i);
    }
  }

  /** Takes one digit in; a byte is full once eight bits are there. */
  method TakeDigit(val: nat, bits: Bits, index: Six, ghost more: seq<Six>)
    returns (val': nat, bits': Bits, full: bool, byte: Byte)
    ensures Bytes(Low(val, bits), bits, [index] + more)
            == var rest := Bytes(Low(val', bits'), bits', more); if full then [byte] + rest else rest
  {
    ShiftIn(val, bits, index, more);
    val' := (val * 64 + index) % WIDTH;
    full, byte := bits + 6 >= 8, 0;
    if full {
      byte := Top(val', bits + 6 - 8);
      bits' := bits + 6 - 8;
    } else {
      bits' := bits + 6;
    }
  }

  method FromBase64(from: string, to: array<Byte>, maxsize: nat) returns (count: nat)
    requires maxsize <= to.Length
    modifies to
    ensures count <= to.Length && to[..count] == Decoded(from, maxsize)
    ensures to[count..] == old(to[count..])
  {
    var out := SizeOf(from);
    if out > maxsize {
      return 0;
    }
    var val: nat, bits: Bits, rest := 0, 0, from;
    count := 0;
    ghost var whole := Bytes(0, 0, Places(from));
    ghost var left := whole;
    while rest != [] && count < out
      invariant count <= out && count <= |whole|
      invariant left == Bytes(Low(val, bits), bits, Places(rest)) && left == whole[count..]
      invariant forall i | 0 <= i < count :: to[i] == whole[i]
      invariant forall i | count <= i < to.Length :: to[i] == old(to[i])
      decreases |rest|
    {
      var index := Index(rest[0]);
      rest := rest[1..];
      if index >= 0 {
        var full, byte;
        val, bits, full, byte := TakeDigit(val, bits, index, Places(rest));
        if full {
          left := NextOf(whole, count, left, byte, Bytes(Low(val, bits), bits, Places(rest)));
          to[count] := byte;
          count := count + 1;
        }
      }
    }
    assert to[..count] == whole[..count];
  }

  lemma NextOf(whole: seq<Byte>, count: nat, left: seq<Byte>, byte: Byte, rest: seq<Byte>) returns (next: seq<Byte>)
    requires count <= |whole| && left == whole[count..] && left == [byte] + rest
    ensures count < |whole| && whole[count] == byte
    ensures next == rest == whole[count + 1..]
  {
    next := rest;
    assert left[0] == byte && left[1..] == rest;
    assert whole[count..][1..] == whole[count + 1..];
  }

  // ----- decoding what was encoded

  /** The four digits of three bytes, each cut out of its neighbours. */
  lemma DigitsOfGroup(a: Byte, b: Byte, c: Byte)
    ensures var n: nat := (a * 256 + b) * 256 + c;
      && n / 262144 % 64 == a / 4
      && n / 4096 % 64 == a % 4 * 16 + b / 16
      && n / 64 % 64 == b % 16 * 4 + c / 64
      && n % 64 == c % 64
  {
    var n: nat := (a * 256 + b) * 256 + c;
    var p: nat, q: nat, r: nat, s: nat, t: nat, u: nat := a / 4, a % 4, b / 16, b % 16, c / 64, c % 64;
    DivMod(n, 262144, p, q * 65536 + b * 256 + c);
    DivMod(p, 64, 0, p);
    DivMod(n, 4096, a * 16 + r, s * 256 + c);
    DivMod(a * 16 + r, 64, p, q * 16 + r);
    DivMod(n, 64, a * 1024 + b * 4 + t, u);
    DivMod(a * 1024 + b * 4 + t, 64, a * 16 + r, s * 4 + t);
  }

  lemma FirstByte(a: Byte, b: Byte, c: Byte, more: seq<Six>)
    ensures Bytes(0, 0, [a / 4] + ([a % 4 * 16 + b / 16] + more)) == [a] + Bytes(b / 16, 4, more)
  {
    var places := [a / 4] + ([a % 4 * 16 + b / 16] + more);
    var p: nat, r: nat := a / 4, b / 16;
    assert places[1..] == [a % 4 * 16 + b / 16] + more && places[1..][1..] == more;
    DivMod(p, 64, 0, p);
    assert Bytes(0, 0, places) == Bytes(p, 6, places[1..]);
    DivMod(p * 64 + (a % 4 * 16 + r), 16, a, r);
    DivMod(a, 256, 0, a);
  }

  lemma SecondByte(b: Byte, c: Byte, more: seq<Six>)
    ensures Bytes(b / 16, 4, [b % 16 * 4 + c / 64] + more) == [b] + Bytes(c / 64, 2, more)
  {
    var t: nat := c / 64;
    assert ([b % 16 * 4 + t] + more)[1..] == more;
    DivMod(b / 16 * 64 + (b % 16 * 4 + t), 4, b, t);
    DivMod(b, 256, 0, b);
  }

  lemma ThirdByte(c: Byte, more: seq<Six>)
    ensures Bytes(c / 64, 2, [c % 64] + more) == [c] + Bytes(0, 0, more)
  {
    assert ([c % 64] + more)[1..] == more;
    DivMod(c, 256, 0, c);
  }

  lemma PlaceOf(i: Six, s: string)
    ensures Places([Char(i)] + s) == [i] + Places(s)
  {
    IndexUndoesChar(i);
    assert ([Char(i)] + s)[1..] == s;
  }

  lemma PlacesOfDigits(n: nat, p: Six, q: Six, r: Six, u: Six, third: bool, fourth: bool, s: string)
    requires n / 262144 % 64 == p && n / 4096 % 64 == q && n / 64 % 64 == r && n % 64 == u
    ensures Places(Quad(n, third, fourth) + s) == [p] + ([q] + When(third, r, When(fourth, u, Places(s))))
  {
    var s3 := When(fourth, Char(u), s);
    var s2 := When(third, Char(r), s3);
    assert Quad(n, third, fourth) + s == [Char(p)] + ([Char(q)] + s2);
    PlaceOf(p, [Char(q)] + s2);
    PlaceOf(q, s2);
    PlaceOf(r, s3);
    PlaceOf(u, s);
  }

  /** `x` before `s`, or `s` alone. */
  function When<T>(c: bool, x: T, s: seq<T>): seq<T> {
    if c then [x] + s else s
  }

  /** The digits of a group, whole or cut short, read back as their places. */
  lemma PlacesOfQuad(a: Byte, b: Byte, c: Byte, third: bool, fourth: bool, s: string)
    ensures Places(Quad((a * 256 + b) * 256 + c, third, fourth) + s)
            == [a / 4] + ([a % 4 * 16 + b / 16]
               + When(third, b % 16 * 4 + c / 64, When(fourth, c % 64, Places(s))))
  {
    DigitsOfGroup(a, b, c);
    PlacesOfDigits((a * 256 + b) * 256 + c, a / 4, a % 4 * 16 + b / 16, b % 16 * 4 + c / 64, c % 64, third, fourth, s);
  }

  lemma GroupOfThree(x: seq<Byte>)
    ensures Group(x, 0, 3) == (At(x, 0) * 256 + At(x, 1)) * 256 + At(x, 2)
  {
    assert Group(x, 0, 1) == At(x, 0);
    assert Group(x, 0, 2) == At(x, 0) * 256 + At(x, 1);
  }

  /** One group decodes to its bytes; the bits left over from a short group make no byte. */
  lemma BytesOfThree(a: Byte, b: Byte, c: Byte, third: bool, fourth: bool, s: string)
    requires (fourth ==> third) && (Places(s) == [] || fourth)
    ensures Bytes(0, 0, Places(Quad((a * 256 + b) * 256 + c, third, fourth) + s))
            == [a] + When(third, b, When(fourth, c, if fourth then Bytes(0, 0, Places(s)) else []))
  {
    PlacesOfQuad(a, b, c, third, fourth, s);
    var p3 := When(fourth, c % 64, Places(s));
    FirstByte(a, b, c, When(third, b % 16 * 4 + c / 64, p3));
    if third {
      SecondByte(b, c, p3);
      if fourth {
        ThirdByte(c, Places(s));
      }
    }
  }

  lemma BytesOfGroup(x: seq<Byte>, third: bool, fourth: bool, s: string)
    requires |x| > 0 && (fourth ==> third) && (Places(s) == [] || fourth)
    ensures Bytes(0, 0, Places(Quad(Group(x, 0, 3), third, fourth) + s))
            == [x[0]] + When(third, At(x, 1), When(fourth, At(x, 2), if fourth then Bytes(0, 0, Places(s)) else []))
  {
    GroupOfThree(x);
    BytesOfThree(At(x, 0), At(x, 1), At(x, 2), third, fourth, s);
  }

  lemma {:induction false} BytesOfDigits(x: seq<Byte>, pad: string)
    requires Places(pad) == []
    ensures Bytes(0, 0, Places(Digits(x) + pad)) == x
  {
    if x == [] {
      assert Digits(x) + pad == pad;
    } else {
      var more := if |x| <= 3 then [] else Digits(x[3..]);
      var quad := Quad(Group(x, 0, 3), |x| >= 2, |x| >= 3);
      assert Digits(x) + pad == quad + (more + pad);
      if |x| <= 3 {
        assert more + pad == pad;
        assert x == [x[0]] + When(|x| >= 2, At(x, 1), When(|x| >= 3, At(x, 2), []));
      } else {
        BytesOfDigits(x[3..], pad);
        assert x == [x[0]] + ([x[1]] + ([x[2]] + x[3..]));
      }
      BytesOfGroup(x, |x| >= 2, |x| >= 3, more + pad);
    }
  }

  // ----- the size

  lemma {:induction false} DigitsAreMany(x: seq<Byte>)
    ensures |Digits(x)| == |x| / 3 * 4 + (if |x| % 3 == 0 then 0 else |x| % 3 + 1)
    ensures '=' !in Digits(x)
  {
    if |x| > 0 {
      QuadHasNoPadding(Group(x, 0, 3), |x| >= 2, |x| >= 3);
      if |x| > 3 {
        DigitsAreMany(x[3..]);
      }
    }
  }

  lemma QuadHasNoPadding(c: nat, third: bool, fourth: bool)
    ensures '=' !in Quad(c, third, fourth)
  {
    IndexUndoesChar(c / 262144 % 64);
    IndexUndoesChar(c / 4096 % 64);
    IndexUndoesChar(c / 64 % 64);
    IndexUndoesChar(c % 64);
  }

  lemma OneMorePad(s: string)
    requires s != []
    ensures LastDigit(s + "=") == LastDigit(s)
  {
    assert (s + "=")[..|s|] == s;
  }

  lemma LastDigitBefore(digits: string, n: nat)
    requires digits != [] && '=' !in digits
    ensures LastDigit(digits + Padding(n)) == |digits| - 1
  {
    OneMorePad(digits);
    OneMorePad(digits + "=");
    assert digits + "==" == (digits + "=") + "=" && digits + "" == digits;
  }

  lemma PaddingHasNoPlaces(n: nat)
    ensures Places(Padding(n)) == []
  {
    assert "=="[1..] == "=" && "="[1..] == "";
  }

  lemma SizeForDigits(n: nat)
    requires n > 0
    ensures SizeFor(n / 3 * 4 + (if n % 3 == 0 then 0 else n % 3 + 1) - 1) == if n % 3 == 0 then 0 else n
  {
    var k := n / 3;
    if n % 3 == 0 {
      DivMod(k * 4 - 1, 4, k - 1, 3);
    } else {
      DivMod(k * 4 + n % 3, 4, k, n % 3);
    }
  }

  /** The size of standard text: right unless the last group is full. */
  lemma SizeOfStandard(x: seq<Byte>)
    ensures Size(Standard(x)) == if |x| % 3 == 0 then 0 else |x|
  {
    if x != [] {
      DigitsAreMany(x);
      LastDigitBefore(Digits(x), |x|);
      SizeForDigits(|x|);
    }
  }

  // ----- main results

  /** Standard text decodes to its bytes exactly when the last group is short, and to nothing otherwise. */
  lemma DecodesStandard(x: seq<Byte>, maxsize: nat)
    ensures Decoded(Standard(x), maxsize) == if |x| % 3 == 0 || |x| > maxsize then [] else x
  {
    SizeOfStandard(x);
    PaddingHasNoPlaces(|x|);
    BytesOfDigits(x, Padding(|x|));
  }

  lemma TwoBytesOfOne(b: Byte)
    ensures Bytes(0, 0, Places(Quad((b * 256 + 0) * 256 + 0, false, true) + Padding(1))) == [b, 0]
  {
    PlacesOfQuad(b, 0, 0, false, true, Padding(1));
    PaddingHasNoPlaces(1);
    var rest: seq<Six> := [0] + [];
    assert Places(Quad((b * 256 + 0) * 256 + 0, false, true) + Padding(1)) == [b / 4] + ([b % 4 * 16 + 0 / 16] + rest);
    FirstByte(b, 0, 0, rest);
    SecondByte(0, 0, []);
  }

  /** A single byte comes back with a zero byte after it. */
  lemma OneByteComesBackAsTwo(x: seq<Byte>, maxsize: nat)
    requires |x| == 1
    ensures Size(Encoded(x)) == 2
    ensures Decoded(Encoded(x), maxsize) == if maxsize >= 2 then [x[0], 0] else []
  {
    var digits := Digits(x) + "A";
    EncodesAsStandardIff(x);
    FourthAlone(Group(x, 0, 3));
    QuadHasNoPadding(Group(x, 0, 3), false, true);
    OneByteGroup(x);
    assert digits == Quad(Group(x, 0, 3), false, true);
    LastDigitBefore(digits, 1);
    GroupOfThree(x);
    TwoBytesOfOne(x[0]);
  }

  /**
   Encoding and decoding give the bytes back exactly for no bytes, or for two and more not in full
   groups that there is room for.
   */
  lemma RoundTripIff(x: seq<Byte>, maxsize: nat)
    ensures Decoded(Encoded(x), maxsize) == x
            <==> |x| == 0 || (|x| >= 2 && |x| % 3 != 0 && |x| <= maxsize)
    ensures |x| % 3 == 0 ==> Decoded(Encoded(x), maxsize) == []
  {
    if |x| == 1 {
      OneByteComesBackAsTwo(x, maxsize);
    } else {
      EncodesAsStandardIff(x);
      DecodesStandard(x, maxsize);
    }
  }
}

/** Hexadecimal text: two lower-case digits a byte, and a decoder that leaves each pair to strtoul. */
module Hex {
  import opened Options

  type Byte = n: nat | n < 256

  type Nibble = n: nat | n < 16

  function Char(i: Nibble): char {
    if i < 10 then '0' + i as char else 'a' + (i - 10) as char
  }

  function Value(c: char): (i: int)
    ensures -1 <= i < 16
  {
    if '0' <= c <= '9' then c as int - '0' as int
    else if 'a' <= c <= 'f' then c as int - 'a' as int + 10
    else if 'A' <= c <= 'F' then c as int - 'A' as int + 10
    else -1
  }

  lemma ValueUndoesChar(i: Nibble)
    ensures Value(Char(i)) == i && Char(i) != NUL
  {}

  const NUL: char := '\0'

  predicate IsSpace(c: char) {
    c == ' ' || '\t' <= c <= '\r'
  }

  // ----- encoding

  function Encoded(x: seq<Byte>): string {
    if x == [] then "" else [Char(x[0] / 16), Char(x[0] % 16)] + Encoded(x[1..])
  }

  method ToHex(from: seq<Byte>) returns (out: string)
    ensures out == Encoded(from)
  {
    out := "";
    for pos := 0 to |from|
      invariant out + Encoded(from[pos..]) == Encoded(from)
    {
      assert from[pos..][1..] == from[pos + 1..];
      out := out + [Char(from[pos] / 16), Char(from[pos] % 16)];
    }
  }

  // ----- decoding

  /**
   strtoul in base sixteen on a string of at most two characters, given as a buffer of two that a
   zero ends early: the value as one byte, or nothing when characters are left over. Leading space,
   a sign and the empty string are all taken.
   */
  function Pair(a: char, b: char): Option<Byte> {
    if a == NUL then Some(0)
    else if b == NUL then (if Value(a) >= 0 then Some(Value(a)) else None)
    else if Value(b) < 0 then None
    else if Value(a) >= 0 then Some(Value(a) * 16 + Value(b))
    else if IsSpace(a) || a == '+' then Some(Value(b))
    else if a == '-' then Some(if Value(b) == 0 then 0 else 256 - Value(b))
    else None
  }

  /** Character `i` of the text, or the one found behind it. */
  function At(from: string, beyond: char, i: nat): char {
    if i < |from| then from[i] else beyond
  }

  /** The bytes of the first `size` characters, up to a pair that is none. */
  function Decoded(from: string, beyond: char, pos: nat, size: nat): seq<Byte>
    decreases size - pos
  {
    if pos >= size then []
    else
      match Pair(At(from, beyond, pos), At(from, beyond, pos + 1))
      case None => []
      case Some(b) => [b] + Decoded(from, beyond, pos + 2, size)
  }

  predicate AllPairs(from: string, beyond: char, pos: nat, size: nat)
    decreases size - pos
  {
    pos >= size
    || (Pair(At(from, beyond, pos), At(from, beyond, pos + 1)).Some? && AllPairs(from, beyond, pos + 2, size))
  }

  function Least(a: nat, b: nat): nat {
    if a <= b then a else b
  }

  /** Writes at most `size` bytes. An odd text lends its last pair the character behind it. */
  method FromHex(from: string, beyond: char, to: array<Byte>, size: nat) returns (count: nat)
    requires size <= to.Length
    modifies to
    ensures var n := Least(|from|, size * 2);
      var bytes := Decoded(from, beyond, 0, n);
      && |bytes| <= size && to[..|bytes|] == bytes
      && (forall i | |bytes| <= i < to.Length :: to[i] == old(to[i]))
      && count == if AllPairs(from, beyond, 0, n) then n / 2 else |bytes|
  {
    var maxsize := Least(|from|, size * 2);
    var pos: nat, next: nat := 0, 0;
    ghost var whole := Decoded(from, beyond, 0, maxsize);
    DecodedIsShort(from, beyond, 0, maxsize);
    while pos < maxsize
      invariant pos == 2 * next && next <= |whole|
      invariant whole[next..] == Decoded(from, beyond, pos, maxsize)
      invariant AllPairs(from, beyond, pos, maxsize) == AllPairs(from, beyond, 0, maxsize)
      invariant forall i | 0 <= i < next :: to[i] == whole[i]
      invariant forall i | next <= i < to.Length :: to[i] == old(to[i])
      decreases maxsize - pos
    {
      var value := Pair(At(from, beyond, pos), At(from, beyond, pos + 1));
      if value.None? {
        assert to[..next] == whole;
        return pos / 2;
      }
      assert whole[next..][0] == whole[next] && whole[next..][1..] == whole[next + 1..];
      to[next] := value.value;
      next := next + 1;
      pos := pos + 2;
    }
    assert to[..next] == whole;
    return maxsize / 2;
  }

  lemma {:induction false} DecodedIsShort(from: string, beyond: char, pos: nat, size: nat)
    requires pos <= size + 1
    ensures |Decoded(from, beyond, pos, size)| <= (size + 1 - pos) / 2
    decreases size + 1 - pos
  {
    if pos < size && Pair(At(from, beyond, pos), At(from, beyond, pos + 1)).Some? {
      DecodedIsShort(from, beyond, pos + 2, size);
    }
  }

  // ----- main results

  lemma {:induction false} EncodedAt(x: seq<Byte>, i: nat)
    requires i < |x|
    ensures |Encoded(x)| == 2 * |x|
    ensures Encoded(x)[2 * i] == Char(x[i] / 16) && Encoded(x)[2 * i + 1] == Char(x[i] % 16)
  {
    if i > 0 {
      EncodedAt(x[1..], i - 1);
    } else if |x| > 1 {
      EncodedAt(x[1..], 0);
    }
  }

  lemma {:induction false} DecodedFrom(x: seq<Byte>, beyond: char, k: nat, size: nat)
    requires k <= size <= |x|
    ensures Decoded(Encoded(x), beyond, 2 * k, 2 * size) == x[k..size]
    ensures AllPairs(Encoded(x), beyond, 2 * k, 2 * size)
    decreases size - k
  {
    if k < size {
      EncodedAt(x, k);
      ValueUndoesChar(x[k] / 16);
      ValueUndoesChar(x[k] % 16);
      DecodedFrom(x, beyond, k + 1, size);
      assert x[k..size] == [x[k]] + x[k + 1..size];
    }
  }

  /** Any bytes come back from their text, as many as there is room for. */
  lemma RoundTrip(x: seq<Byte>, beyond: char, size: nat)
    ensures var n := Least(|Encoded(x)|, size * 2);
      Decoded(Encoded(x), beyond, 0, n) == x[..Least(|x|, size)] && AllPairs(Encoded(x), beyond, 0, n)
  {
    if x != [] {
      EncodedAt(x, 0);
    }
    DecodedFrom(x, beyond, 0, Least(|x|, size));
  }

  predicate IsLenient(a: char, b: char) {
    || a == NUL
    || (Value(a) >= 0 && b == NUL)
    || ((IsSpace(a) || a == '+' || a == '-') && Value(b) >= 0)
  }

  /**
   A pair is accepted without being two hexadecimal digits exactly if it is empty or one digit, each
   ended by a zero, or a space or sign before a digit; a minus sign gives the complement.
   */
  lemma LenientIff(a: char, b: char)
    ensures Pair(a, b).Some? && !(Value(a) >= 0 && Value(b) >= 0)
            <==> IsLenient(a, b)
    ensures Value(a) >= 0 && Value(b) >= 0 ==> Pair(a, b) == Some(Value(a) * 16 + Value(b))
    ensures a == '-' && Value(b) >= 0 ==> Pair(a, b).Some? && (Pair(a, b).value + Value(b)) % 256 == 0
    ensures (IsSpace(a) || a == '+') && Value(b) >= 0 ==> Pair(a, b) == Some(Value(b))
  {}

  /**
   Where a text stops being read: at the first pair that is not accepted. Everything before it is
   decoded, and nothing after it.
   */
  lemma {:induction false} StopsAtBadPair(from: string, beyond: char, pos: nat, bad: nat, size: nat)
    requires pos <= bad < size && (bad - pos) % 2 == 0 && Pair(At(from, beyond, bad), At(from, beyond, bad + 1)) == None
    requires AllPairs(from, beyond, pos, bad)
    ensures |Decoded(from, beyond, pos, size)| == (bad - pos) / 2 && !AllPairs(from, beyond, pos, size)
    decreases bad - pos
  {
    if pos < bad {
      StopsAtBadPair(from, beyond, pos + 2, bad, size);
    }
  }

  /** The decoder also takes signs and spaces, and drops a last odd digit from its count. */
  lemma LenientExamples()
    ensures Decoded("-1+2 3", 'x', 0, 6) == [255, 2, 3]
    ensures Decoded("abc", NUL, 0, 3) == [171, 12]
  {
    assert Decoded("-1+2 3", 'x', 4, 6) == [3];
    assert Decoded("-1+2 3", 'x', 2, 6) == [2, 3];
    assert Decoded("abc", NUL, 2, 3) == [12];
  }
}
