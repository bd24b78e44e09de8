/** Values and durations as text: bounds, signs, units, and fields between colons. */
module Durations {
  import opened Numbers

  datatype Result = Ok(value: int) | Invalid | TooBig | TooSmall

  // ----- powers and counts

  function Power(base: int, exp: nat): int {
    if exp == 0 then 1 else base * Power(base, exp - 1)
  }

  const LONG_MAX: int := 0x7FFF_FFFF_FFFF_FFFF

  /** A signed 64-bit number; arithmetic that leaves the range is undefined. */
  type Long = n: int | -LONG_MAX - 1 <= n <= LONG_MAX

  predicate IsLong(n: int) {
    -LONG_MAX - 1 <= n <= LONG_MAX
  }

  lemma {:induction false} PowerAdds(base: int, a: nat, b: nat)
    ensures Power(base, a + b) == Power(base, a) * Power(base, b)
  {
    if a > 0 {
      PowerAdds(base, a - 1, b);
      Associate(base, Power(base, a - 1), Power(base, b));
    }
  }

  lemma Associate(a: int, b: int, c: int)
    ensures (a * b) * c == a * (b * c)
  {}

  function Abs(n: int): nat {
    if n < 0 then -n else n
  }

  lemma AbsTimes(a: int, b: int)
    ensures Abs(a * b) == Abs(a) * Abs(b)
  {}

  lemma {:induction false} AbsOfPower(base: int, n: nat)
    ensures Abs(Power(base, n)) == Power(Abs(base), n)
  {
    if n > 0 {
      AbsOfPower(base, n - 1);
      AbsTimes(base, Power(base, n - 1));
    }
  }

  lemma Doubles(b: nat, p: nat)
    ensures b >= 2 ==> b * p >= 2 * p
    ensures b <= 1 ==> b * p <= 1 * p
  {}

  /** Powers at least double from two on, and stay at most one below it. */
  lemma {:induction false} PowersGrow(b: nat, a: nat, n: nat)
    requires a <= n
    ensures b >= 2 ==> 1 <= Power(b, a) && (a < n ==> 2 * Power(b, a) <= Power(b, n))
    ensures b <= 1 ==> 0 <= Power(b, a) <= 1
    decreases n + a
  {
    if a < n {
      PowersGrow(b, a, n - 1);
      if Power(b, n - 1) >= 0 {
        Doubles(b, Power(b, n - 1));
      }
    } else if a > 0 {
      PowersGrow(b, a - 1, a - 1);
      if Power(b, a - 1) >= 0 {
        Doubles(b, Power(b, a - 1));
      }
    }
  }

  /** Where a power fits, so do all smaller ones: none of the products on the way overflows. */
  lemma SmallerPowersFit(base: int, a: nat, n: nat)
    requires a <= n && IsLong(Power(base, n))
    ensures IsLong(Power(base, a))
  {
    AbsOfPower(base, a);
    AbsOfPower(base, n);
    PowersGrow(Abs(base), a, n);
  }

  lemma HalveWeight(w: nat, left: nat)
    ensures w * left == 2 * w * (left / 2) + (if left % 2 == 1 then w else 0)
    ensures left >= 1 ==> w * left >= w
  {
    var h, r := left / 2, left % 2;
    assert left == 2 * h + r;
    Product(w, left - 1);
    assert w * (2 * h + r) == 2 * w * h + w * r;
  }

  lemma Product(w: nat, n: int)
    ensures n >= 0 ==> w * n >= 0
    ensures w * (n + 1) == w * n + w
  {}

  /** By repeated squaring, one bit of the exponent a turn, in 64 bits: if the power fits, nothing overflows. */
  method Pow(base: Long, exp: nat) returns (result: Long)
    requires IsLong(Power(base, exp))
    ensures result == Power(base, exp)
  {
    result := 1;
    var square: Long, left := base, exp;
    ghost var done: nat, weight: nat := 0, 1;
    while true
      invariant result == Power(base, done) && done + weight * left == exp
      invariant square == Power(base, weight)
      decreases left
    {
      HalveWeight(weight, left);
      if left % 2 == 1 {
        PowerAdds(base, done, weight);
        SmallerPowersFit(base, done + weight, exp);
        result := result * square;
        done := done + weight;
      }
      left := left / 2;
      if left == 0 {
        break;
      }
      HalveWeight(2 * weight, left);
      PowerAdds(base, weight, weight);
      SmallerPowersFit(base, 2 * weight, exp);
      square := square * square;
      weight := 2 * weight;
    }
  }

  function Count(text: string, code: char): nat {
    if text == "" then 0 else (if text[0] == code then 1 else 0) + Count(text[1..], code)
  }

  method CountOf(text: string, code: char) returns (count: nat)
    ensures count == Count(text, code)
  {
    count := 0;
    for i := 0 to |text|
      invariant count + Count(text[i..], code) == Count(text, code)
    {
      assert text[i..][1..] == text[i + 1..];
      if text[i] == code {
        count := count + 1;
      }
    }
  }

  // ----- values

  const INT_MAX: int := 0x7FFF_FFFF

  type Bound = n: int | -INT_MAX - 1 <= n <= INT_MAX

  /** A bound as the unsigned 64-bit limit it is passed as. */
  function Limit(max: Bound): Word {
    if max >= 0 then max else max + WORD
  }

  /** A 64-bit value cut down to 32 signed bits. */
  function Signed(n: Word): int {
    var low := n % HALF;
    if low <= INT_MAX then low else low - HALF
  }

  function IsNegative(text: string, min: Bound): bool {
    min < 0 && text != "" && text[0] == '-'
  }

  function GetValue(text: string, min: Bound, max: Bound): Result {
    var neg := IsNegative(text, min);
    var body := if neg then text[1..] else text;
    if body == "" || !IsDigit(body[0]) then Invalid
    else
      var (n, rest) := Scan(body, Limit(max));
      if rest != "" && IsDigit(rest[0]) then TooBig
      else if rest != "" then Invalid
      else if neg then (if -Signed(n) < min then TooSmall else Ok(-Signed(n)))
      else if min >= 0 && Signed(n) < min then TooSmall
      else Ok(Signed(n))
  }

  /** The number a text stands for, when it is digits with a minus where one is allowed. */
  ghost predicate Denotes(text: string, min: Bound, v: int) {
    var neg := IsNegative(text, min);
    var body := if neg then text[1..] else text;
    body != "" && AllDigits(body) && (if neg then -v else v) == Number(body)
  }

  lemma SmallIsSigned(n: Word)
    requires n <= INT_MAX
    ensures Signed(n) == n
  {}

  lemma ScanAllOrNot(text: string, max: Word)
    requires text != "" && IsDigit(text[0]) && max * 10 + 10 <= WORD
    ensures var (n, rest) := Scan(text, max);
      && n <= max
      && (rest == "" <==> AllDigits(text) && Number(text) <= max)
      && (rest == "" ==> n == Number(text))
      && (AllDigits(text) && Number(text) > max ==> rest != "" && IsDigit(rest[0]))
  {
    var k := ScanIsLongestInBounds(text, max);
    if AllDigits(text) && Number(text) <= max {
      ScanTakesAll(0, text, "", max);
      assert text + "" == text;
    }
    if AllDigits(text) && Number(text) > max {
      ScanLeavesDigits(0, text, max);
    }
    if Scan(text, max).1 == "" {
      assert text[..k] == text;
    }
  }

  /**
   With a bound that is not negative, a value is returned exactly when the text denotes it, its
   magnitude is at most the upper bound and it is at least the lower one. The upper bound limits
   negative values too.
   */
  lemma ValueIff(text: string, min: Bound, max: Bound, v: int)
    requires max >= 0
    ensures GetValue(text, min, max) == Ok(v) <==>
            Denotes(text, min, v) && min <= v <= max && -v <= max
  {
    var neg := IsNegative(text, min);
    var body := if neg then text[1..] else text;
    if body != "" && IsDigit(body[0]) {
      ScanAllOrNot(body, max);
      SmallIsSigned(Scan(body, max).0);
    }
  }

  /** The bounds are enforced on every text exactly if the upper one is not negative. */
  lemma BoundsEnforcedIff(min: Bound, max: Bound)
    ensures (forall text, v | GetValue(text, min, max) == Ok(v) :: min <= v <= max) <==> max >= 0
  {
    if max >= 0 {
      forall text, v | GetValue(text, min, max) == Ok(v) ensures min <= v <= max {
        ValueIff(text, min, max, v);
      }
    } else {
      NegativeBoundLetsThrough(min, max);
    }
  }

  /** A negative upper bound is passed on as a huge one: even the largest value gets through. */
  lemma NegativeBoundLetsThrough(min: Bound, max: Bound)
    requires max < 0
    ensures GetValue(Decimal(INT_MAX), min, max) == Ok(INT_MAX)
  {
    var text := Decimal(INT_MAX);
    NumberOfDecimal(INT_MAX);
    DecimalStarts(INT_MAX);
    ScanTakesAll(0, text, "", Limit(max));
    assert text + "" == text;
    SmallIsSigned(INT_MAX);
  }

  lemma DecimalStarts(n: nat)
    requires n > 0
    ensures Decimal(n) != "" && IsDigit(Decimal(n)[0])
  {
    NumberOfDecimal(n);
  }

  /** So a negative value within its bounds is refused when the upper bound is nearer to zero. */
  lemma NegativeRefusedExample()
    ensures GetValue("-50", -100, 10) == TooBig
    ensures Denotes("-50", -100, -50)
  {
    var body := "-50"[1..];
    assert body == "50" && body[1..] == "0";
    assert Number(body) == 50;
    ScanAllOrNot(body, 10);
  }

  // ----- durations

  function Lower(c: char): char {
    if 'A' <= c <= 'Z' then c - 'A' + 'a' else c
  }

  /** Seconds in a unit, or zero for a character that is none. */
  function Unit(c: char): nat {
    var u := Lower(c);
    if u == 's' then 1 else if u == 'm' then 60 else if u == 'h' then 3600
    else if u == 'd' then 86400 else if u == 'w' then 604800 else 0
  }

  function Narrow(n: nat): Half {
    n % HALF
  }

  /** A number alone or with a unit, or fields between up to three colons; unsigned 32-bit results. */
  function GetDuration(text: string, ms: bool): Result
    decreases |text|
  {
    if text == "" || !IsDigit(text[0]) then Invalid
    else
      var (value, rest) := Scan(text, INT_MAX);
      ScanShrinks(0, text, INT_MAX);
      if rest != "" && IsDigit(rest[0]) then TooBig
      else if rest == "" || (ms && rest == "ms") then Ok(value)
      else if |rest| == 1 then
        (if Unit(rest[0]) > 0 then Ok(Narrow(value * Unit(rest[0]) * (if ms then 1000 else 1))) else Invalid)
      else if rest[0] == ':' && !ms && Count(rest, ':') < 4 then
        match GetDuration(rest[1..], false)
        case Ok(more) => Ok(Narrow(Narrow(value * Power60(Count(rest, ':'))) + (if more >= 0 then more else 0)))
        case e => e
      else Invalid
  }

  function Power60(k: nat): nat {
    if k == 0 then 1 else 60 * Power60(k - 1)
  }

  lemma Power60IsPower(k: nat)
    ensures Power60(k) == Power(60, k)
  {}

  lemma {:induction false} ScanShrinks(n: Word, text: string, max: Word)
    ensures |ScanFrom(n, text, max).1| <= |text|
    decreases |text|
  {
    if text != "" && IsDigit(text[0]) {
      var more := Wrap(Wrap(n * 10) + Digit(text[0]));
      if more <= max {
        ScanShrinks(more, text[1..], max);
      }
    }
  }

  // ----- fields between colons

  /** A plain field: digits whose number is in bounds. */
  type Field = f: string | f != "" && AllDigits(f) && Number(f) <= INT_MAX witness "0"

  function Fields(fs: seq<Field>): string {
    if fs == [] then "" else if |fs| == 1 then fs[0] else fs[0] + (":" + Fields(fs[1..]))
  }

  /** The base-sixty number the fields continue from `n`. */
  function Horner(n: nat, fs: seq<Field>): nat
    decreases |fs|
  {
    if fs == [] then n else Horner(n * 60 + Number(fs[0]), fs[1..])
  }

  lemma {:induction false} HornerSplits(n: nat, fs: seq<Field>)
    ensures Horner(n, fs) == n * Power60(|fs|) + Horner(0, fs)
    decreases |fs|
  {
    if fs != [] {
      var a := Number(fs[0]);
      HornerSplits(n * 60 + a, fs[1..]);
      HornerSplits(a, fs[1..]);
      Distribute(n, a, Power60(|fs| - 1));
    }
  }

  lemma Distribute(n: nat, a: nat, p: nat)
    ensures (n * 60 + a) * p == n * (60 * p) + a * p
  {}

  lemma {:induction false} NoColons(s: string, more: string)
    requires AllDigits(s)
    ensures Count(s + more, ':') == Count(more, ':')
  {
    if s == "" {
      assert s + more == more;
    } else {
      assert (s + more)[1..] == s[1..] + more;
      NoColons(s[1..], more);
    }
  }

  lemma {:induction false} ColonsOfFields(fs: seq<Field>)
    requires fs != []
    ensures Count(Fields(fs), ':') == |fs| - 1
  {
    if |fs| == 1 {
      NoColons(fs[0], "");
      assert fs[0] + "" == fs[0];
    } else {
      NoColons(fs[0], ":" + Fields(fs[1..]));
      assert (":" + Fields(fs[1..]))[1..] == Fields(fs[1..]);
      ColonsOfFields(fs[1..]);
    }
  }

  /** What the scan makes of a first field. */
  lemma FirstField(f: Field, more: string)
    requires (more == "" || !IsDigit(more[0]))
    ensures Scan(f + more, INT_MAX) == (Number(f), more) && f + more != "" && IsDigit((f + more)[0])
  {
    ScanTakesAll(0, f, more, INT_MAX);
  }

  lemma NarrowSum(a: nat, b: nat)
    ensures Narrow(Narrow(a) + Narrow(b)) == Narrow(a + b)
  {
    var p, q := a / HALF, b / HALF;
    assert a == p * HALF + Narrow(a) && b == q * HALF + Narrow(b);
    var r := (Narrow(a) + Narrow(b)) / HALF;
    assert a + b == (p + q + r) * HALF + Narrow(Narrow(a) + Narrow(b));
  }

  /** One to four plain fields between colons are their base-sixty number, modulo the width. */
  lemma {:induction false} FieldsAreHorner(fs: seq<Field>)
    requires 1 <= |fs| <= 4
    ensures GetDuration(Fields(fs), false) == Ok(Narrow(Horner(0, fs)))
    decreases |fs|
  {
    var f := fs[0];
    if |fs| == 1 {
      FirstField(f, "");
      assert f + "" == f && Horner(Number(f), fs[1..]) == Number(f);
    } else {
      var more := ":" + Fields(fs[1..]);
      FirstField(f, more);
      assert more[1..] == Fields(fs[1..]);
      ColonsOfFields(fs[1..]);
      FieldsAreHorner(fs[1..]);
      MoreThanColon(fs[1..]);
      HornerSplits(Number(f), fs[1..]);
      NarrowSum(Number(f) * Power60(|fs| - 1), Horner(0, fs[1..]));
    }
  }

  lemma MoreThanColon(fs: seq<Field>)
    requires fs != []
    ensures Fields(fs) != ""
  {}

  /** Five fields and more are refused. */
  lemma TooManyFields(fs: seq<Field>)
    requires |fs| >= 5
    ensures GetDuration(Fields(fs), false) == Invalid
  {
    var more := ":" + Fields(fs[1..]);
    FirstField(fs[0], more);
    assert more[1..] == Fields(fs[1..]);
    ColonsOfFields(fs[1..]);
    MoreThanColon(fs[1..]);
  }

  // ----- units

  lemma ZeroFields(f: Field, zeros: nat)
    requires zeros <= 2
    ensures GetDuration(Fields([f] + Zeros(zeros)), false) == Ok(Narrow(Number(f) * Power60(zeros)))
  {
    var fs := [f] + Zeros(zeros);
    assert fs[1..] == Zeros(zeros);
    FieldsAreHorner(fs);
    HornerSplits(Number(f), Zeros(zeros));
    HornerOfZeros(zeros);
  }

  function Zeros(n: nat): seq<Field> {
    if n == 0 then [] else ["0"] + Zeros(n - 1)
  }

  lemma {:induction false} HornerOfZeros(n: nat)
    ensures |Zeros(n)| == n && Horner(0, Zeros(n)) == 0
  {
    if n > 0 {
      HornerOfZeros(n - 1);
      assert Zeros(n)[1..] == Zeros(n - 1);
    }
  }

  lemma WithUnit(f: Field, u: char, ms: bool)
    requires Unit(u) > 0
    ensures GetDuration(f + [u], ms) == Ok(Narrow(Number(f) * Unit(u) * (if ms then 1000 else 1)))
  {
    FirstField(f, [u]);
  }

  /** A number with a unit is what the same number is as a field with that many fields behind it. */
  lemma UnitsAreFields(f: Field)
    ensures GetDuration(f + "s", false) == GetDuration(Fields([f]), false)
    ensures GetDuration(f + "m", false) == GetDuration(Fields([f, "0"]), false)
    ensures GetDuration(f + "h", false) == GetDuration(Fields([f, "0", "0"]), false)
  {
    WithUnit(f, 's', false);
    WithUnit(f, 'm', false);
    WithUnit(f, 'h', false);
    assert [f] + Zeros(0) == [f] && [f] + Zeros(1) == [f, "0"] && [f] + Zeros(2) == [f, "0", "0"];
    ZeroFields(f, 0);
    ZeroFields(f, 1);
    ZeroFields(f, 2);
    assert Power60(1) == 60 && Power60(2) == 3600;
  }

  /** A day is 24 hours, also where the result wraps. */
  lemma DayIsHours(f: Field, hours: Field)
    requires Number(hours) == 24 * Number(f)
    ensures GetDuration(hours + "h", false) == GetDuration(f + "d", false)
  {
    WithUnit(f, 'd', false);
    WithUnit(hours, 'h', false);
  }

  /** A week is seven days. */
  lemma WeekIsDays(f: Field, days: Field)
    requires Number(days) == 7 * Number(f)
    ensures GetDuration(days + "d", false) == GetDuration(f + "w", false)
  {
    WithUnit(f, 'w', false);
    WithUnit(days, 'd', false);
  }

  /** In milliseconds a second is a thousand, "ms" and no unit are the number itself, and fields are refused. */
  lemma Milliseconds(f: Field, g: Field)
    requires Number(g) == 1000 * Number(f)
    ensures GetDuration(f + "s", true) == GetDuration(g + "ms", true) == GetDuration(g + "", true) == Ok(Number(g))
    ensures GetDuration(f + (":" + g), true) == Invalid
  {
    WithUnit(f, 's', true);
    FirstField(g, "ms");
    FirstField(g, "");
    FirstField(f, ":" + g);
  }
}
