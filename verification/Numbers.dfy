/** Decimal numbers in text: scanning them within a bound, and printing them without leading zeros. */
module Numbers {
  import opened Options

  const WORD: int := 0x1_0000_0000_0000_0000
  const HALF: int := 0x1_0000_0000

  type Word = n: nat | n < WORD

  type Half = n: nat | n < HALF

  predicate IsDigit(c: char) {
    '0' <= c <= '9'
  }

  function Digit(c: char): nat
    requires IsDigit(c)
  {
    c as int - '0' as int
  }

  predicate AllDigits(s: string) {
    forall i | 0 <= i < |s| :: IsDigit(s[i])
  }

  /** The number that digits continue from `n`. */
  function NumberFrom(n: nat, s: string): nat
    requires AllDigits(s)
    decreases |s|
  {
    if s == "" then n else NumberFrom(n * 10 + Digit(s[0]), s[1..])
  }

  function Number(s: string): nat
    requires AllDigits(s)
  {
    NumberFrom(0, s)
  }

  // ----- scanning

  function Wrap(n: nat): Word {
    if n < WORD then n else n % WORD
  }

  /** What scanning on from `n` leaves: the value, and the text not taken. */
  function ScanFrom(n: Word, text: string, max: Word): (Word, string)
    decreases |text|
  {
    if text == "" || !IsDigit(text[0]) then (n, text)
    else
      var more := Wrap(Wrap(n * 10) + Digit(text[0]));
      if more > max then (more / 10, text) else ScanFrom(more, text[1..], max)
  }

  function Scan(text: string, max: Word): (Word, string) {
    ScanFrom(0, text, max)
  }

  method ScanValue(text: string, max: Word) returns (value: Word, rest: string)
    ensures (value, rest) == Scan(text, max)
  {
    value, rest := 0, text;
    while rest != "" && IsDigit(rest[0])
      invariant ScanFrom(value, rest, max) == Scan(text, max)
      decreases |rest|
    {
      value := Wrap(value * 10);
      value := Wrap(value + Digit(rest[0]));
      if value > max {
        value := value / 10;
        break;
      }
      rest := rest[1..];
    }
  }

  /** The scan stops at a character that is no digit, or at a digit that would go over the bound. */
  predicate Stops(n: nat, rest: string, max: nat) {
    rest == "" || !IsDigit(rest[0]) || n * 10 + Digit(rest[0]) > max
  }

  lemma {:induction false} ScanTakes(n: Word, text: string, max: Word) returns (k: nat)
    requires n <= max && max * 10 + 10 <= WORD
    ensures k <= |text| && AllDigits(text[..k])
    ensures ScanFrom(n, text, max) == (NumberFrom(n, text[..k]), text[k..])
    ensures NumberFrom(n, text[..k]) <= max && Stops(NumberFrom(n, text[..k]), text[k..], max)
    decreases |text|
  {
    if text == "" || !IsDigit(text[0]) || n * 10 + Digit(text[0]) > max {
      k := 0;
    } else {
      var j := ScanTakes(n * 10 + Digit(text[0]), text[1..], max);
      k := j + 1;
      assert text[..k] == [text[0]] + text[1..][..j];
      assert text[..k][1..] == text[1..][..j];
      assert text[k..] == text[1..][j..];
    }
  }

  /** The scan takes the longest run of digits whose number is in bounds, and gives that number. */
  ghost predicate TakesLongest(text: string, max: Word) {
    exists k: nat | k <= |text| && AllDigits(text[..k]) ::
      Scan(text, max) == (Number(text[..k]), text[k..])
      && Number(text[..k]) <= max && Stops(Number(text[..k]), text[k..], max)
  }

  lemma ScanIsLongestInBounds(text: string, max: Word) returns (k: nat)
    requires max * 10 + 10 <= WORD
    ensures k <= |text| && AllDigits(text[..k]) && Scan(text, max) == (Number(text[..k]), text[k..])
    ensures Number(text[..k]) <= max && Stops(Number(text[..k]), text[k..], max)
    ensures TakesLongest(text, max)
  {
    k := ScanTakes(0, text, max);
  }

  /** Digits whose number stays in bounds are taken whatever follows. */
  lemma {:induction false} ScanPasses(n: Word, text: string, more: string, max: Word)
    requires AllDigits(text) && NumberFrom(n, text) <= max
    ensures ScanFrom(n, text + more, max) == ScanFrom(NumberFrom(n, text), more, max)
    decreases |text|
  {
    if text == "" {
      assert text + more == more;
    } else {
      NumberGrows(n * 10 + Digit(text[0]), text[1..]);
      assert (text + more)[1..] == text[1..] + more;
      ScanPasses(n * 10 + Digit(text[0]), text[1..], more, max);
    }
  }

  /** All digits, in bounds: the scan takes everything. */
  lemma ScanTakesAll(n: Word, text: string, more: string, max: Word)
    requires AllDigits(text) && NumberFrom(n, text) <= max
    requires more == "" || !IsDigit(more[0])
    ensures ScanFrom(n, text + more, max) == (NumberFrom(n, text), more)
  {
    ScanPasses(n, text, more, max);
  }

  /** The decimal digits of a number, zero as nothing. */
  function Decimal(n: nat): string {
    if n == 0 then "" else Decimal(n / 10) + [DigitChar(n % 10)]
  }

  lemma {:induction false} NumberAppends(n: nat, s: string, d: nat)
    requires AllDigits(s) && d < 10
    ensures AllDigits(s + [DigitChar(d)]) && NumberFrom(n, s + [DigitChar(d)]) == NumberFrom(n, s) * 10 + d
    decreases |s|
  {
    if s == "" {
      assert s + [DigitChar(d)] == [DigitChar(d)];
    } else {
      assert (s + [DigitChar(d)])[1..] == s[1..] + [DigitChar(d)];
      NumberAppends(n * 10 + Digit(s[0]), s[1..], d);
    }
  }

  lemma {:induction false} NumberOfDecimal(n: nat)
    ensures AllDigits(Decimal(n)) && Number(Decimal(n)) == n
  {
    if n > 0 {
      NumberOfDecimal(n / 10);
      NumberAppends(0, Decimal(n / 10), n % 10);
    }
  }

  lemma DecimalSplits(q: nat, d: nat)
    requires d < 10 && q > 0
    ensures Decimal(q * 10 + d) == Decimal(q) + [DigitChar(d)]
  {
    assert (q * 10 + d) / 10 == q && (q * 10 + d) % 10 == d;
  }

  lemma LastDigitWraps(q: Word, max: Word)
    requires q * 10 + 6 == WORD
    ensures ScanFrom(q, [DigitChar(6)], max) == (0, "")
  {
    assert [DigitChar(6)][1..] == "";
  }

  lemma WrongWhenAllTaken(text: string, n: Word, max: Word)
    requires AllDigits(text) && Number(text) != n && Scan(text, max) == (n, "")
    ensures !TakesLongest(text, max)
  {
    forall k: nat | k <= |text| && text[k..] == "" ensures text[..k] == text {}
  }

  /** Under a larger bound the digits of 2^64 are all taken, and give zero. */
  lemma LargeBoundWraps(max: Word)
    requires max * 10 + 10 > WORD
    ensures Scan(Decimal(WORD), max) == (0, "") && !TakesLongest(Decimal(WORD), max)
  {
    var q: Word := 1_844_674_407_370_955_161;
    DecimalSplits(q, 6);
    NumberOfDecimal(q);
    ScanPasses(0, Decimal(q), [DigitChar(6)], max);
    LastDigitWraps(q, max);
    NumberOfDecimal(WORD);
    WrongWhenAllTaken(Decimal(WORD), 0, max);
  }

  /** The scan takes the longest run in bounds from every text exactly if its last product cannot wrap. */
  lemma ScanIsLongestIff(max: Word)
    ensures (forall text :: TakesLongest(text, max)) <==> max * 10 + 10 <= WORD
  {
    if max * 10 + 10 <= WORD {
      forall text ensures TakesLongest(text, max) {
        var k := ScanIsLongestInBounds(text, max);
      }
    } else {
      LargeBoundWraps(max);
    }
  }

  lemma {:induction false} NumberGrows(n: nat, s: string)
    requires AllDigits(s)
    ensures NumberFrom(n, s) >= n
    decreases |s|
  {
    if s != "" {
      NumberGrows(n * 10 + Digit(s[0]), s[1..]);
    }
  }

  /** Digits whose number is too big are not all taken. */
  lemma {:induction false} ScanLeavesDigits(n: Word, text: string, max: Word)
    requires AllDigits(text) && NumberFrom(n, text) > max && n <= max && max * 10 + 10 <= WORD
    ensures ScanFrom(n, text, max).1 != "" && IsDigit(ScanFrom(n, text, max).1[0])
    decreases |text|
  {
    if n * 10 + Digit(text[0]) <= max {
      ScanLeavesDigits(n * 10 + Digit(text[0]), text[1..], max);
    }
  }

  // ----- printing

  function PowerOfTen(k: nat): nat {
    if k == 0 then 1 else PowerOfTen(k - 1) * 10
  }

  /** The power of ten as 32 bits hold it. */
  function PowerHeld(k: nat): Half {
    if k == 0 then 1 else PowerHeld(k - 1) * 10 % HALF
  }

  function DigitChar(d: nat): char {
    (('0' as int + d) % 256) as char
  }

  /** The leading digit of a value below ten times `m`, and what is left; with `m` zero there is none. */
  function Lead(m: nat, value: nat): nat {
    if m > 0 then value / m else 0
  }

  function Left(m: nat, value: nat): (r: nat)
    ensures r <= value
  {
    if m > 0 then value % m else value
  }

  /** The digits written for `value`, from the one worth a tenth of `max` on. */
  function Written(max: Half, value: Half, zero: bool): string
    decreases max
  {
    if max == 0 then ""
    else
      var m := max / 10;
      var dig := Lead(m, value);
      var rest := if m == 1 then "" else Written(m, Left(m, value), zero || dig > 0);
      if dig > 0 || zero then [DigitChar(dig)] + rest else rest
  }

  /** How often the power is multiplied: once less than the size, which wraps below zero. */
  function Factors(size: nat): nat {
    if size == 0 then WORD - 1 else size - 1
  }

  /** The text put in a buffer of `size` characters, or nothing when it would not fit. */
  function Printed(size: nat, value: Half): Option<string> {
    var max := PowerHeld(Factors(size));
    if value >= max then None else Some(Written(max, value, false))
  }

  lemma {:induction false} PowerIsHeld(k: nat)
    requires k <= 9
    ensures PowerHeld(k) == PowerOfTen(k) <= 1_000_000_000
    ensures PowerOfTen(k) == [1, 10, 100, 1000, 10_000, 100_000, 1_000_000, 10_000_000, 100_000_000, 1_000_000_000][k]
  {
    if k > 0 {
      PowerIsHeld(k - 1);
    }
  }

  lemma SplitDigit(m: nat, value: nat)
    requires m > 0 && value < m * 10
    ensures Lead(m, value) < 10 && Left(m, value) < m
    ensures value == Lead(m, value) * m + Left(m, value)
  {}

  lemma NumberOfDigit(n: nat, dig: nat, s: string)
    requires dig < 10 && AllDigits(s)
    ensures AllDigits([DigitChar(dig)] + s)
    ensures NumberFrom(n, [DigitChar(dig)] + s) == NumberFrom(n * 10 + dig, s)
  {
    assert ([DigitChar(dig)] + s)[1..] == s;
  }

  /** Continuing `n`, the digits written for a value below a power of ten make the number they should. */
  ghost predicate Continues(n: nat, k: nat, value: Half, zero: bool, s: string) {
    && |s| <= k && AllDigits(s)
    && NumberFrom(n, s) == (if zero then n * PowerOfTen(k) else 0) + value
    && (!zero && s != "" ==> s[0] != '0')
  }

  lemma WrittenMore(k: nat, value: Half, zero: bool, n: nat, s: string)
    requires 0 < k && value < PowerOfTen(k) && (zero || n == 0)
    requires var m := PowerOfTen(k - 1);
      m > 0 && Left(m, value) < HALF
      && var dig := Lead(m, value);
         Continues(if zero || dig > 0 then n * 10 + dig else 0, k - 1, Left(m, value), zero || dig > 0, s)
    ensures var dig := Lead(PowerOfTen(k - 1), value);
      Continues(n, k, value, zero, if dig > 0 || zero then [DigitChar(dig)] + s else s)
  {
    var m := PowerOfTen(k - 1);
    var dig := Lead(m, value);
    SplitDigit(m, value);
    if dig > 0 || zero {
      NumberOfDigit(n, dig, s);
      Regroup(n, dig, m, Left(m, value));
    }
  }

  function AfterLead(m: Half, value: Half, going: bool): string {
    if m == 1 then "" else Written(m, Left(m, value), going)
  }

  lemma WrittenFrom(m: Half, max: Half, value: Half, zero: bool)
    requires 0 < max && m == max / 10
    ensures var going := zero || Lead(m, value) > 0;
      Written(max, value, zero)
      == if going then [DigitChar(Lead(m, value))] + AfterLead(m, value, going) else AfterLead(m, value, going)
  {}

  lemma TenthOfPower(k: nat)
    requires k > 0
    ensures PowerOfTen(k) / 10 == PowerOfTen(k - 1)
  {}

  lemma {:induction false} WrittenIsNumber(k: nat, value: Half, zero: bool, n: nat)
    requires k <= 9 && value < PowerOfTen(k) && (if zero then k > 0 else n == 0)
    ensures PowerOfTen(k) < HALF && Continues(n, k, value, zero, Written(PowerOfTen(k), value, zero))
  {
    PowerIsHeld(k);
    if k > 0 {
      PowerIsHeld(k - 1);
      var m := PowerOfTen(k - 1);
      var going := zero || Lead(m, value) > 0;
      var n' := if going then n * 10 + Lead(m, value) else 0;
      SplitDigit(m, value);
      if k == 1 {
        assert Continues(n', 0, Left(m, value), going, "");
      } else {
        WrittenIsNumber(k - 1, Left(m, value), going, n');
      }
      TenthOfPower(k);
      assert m == 1 <==> k == 1;
      WrittenMore(k, value, zero, n, AfterLead(m, value, going));
      WrittenFrom(m, PowerOfTen(k), value, zero);
    }
  }

  lemma Regroup(n: nat, dig: nat, m: nat, rest: nat)
    ensures (n * 10 + dig) * m + rest == n * (m * 10) + (dig * m + rest)
  {}

  /** A text that says what was to be printed. */
  predicate Says(s: string, value: nat) {
    AllDigits(s) && Number(s) == value
  }

  /** Up to size ten, what is printed says the value, without leading zeros, zero as nothing. */
  lemma SmallSizesSay(size: nat, value: Half)
    requires 1 <= size <= 10 && Printed(size, value).Some?
    ensures var s := Printed(size, value).value; Says(s, value) && |s| < size && (s != "" ==> s[0] != '0')
  {
    PowerIsHeld(size - 1);
    WrittenIsNumber(size - 1, value, false, 0);
  }

  /** Printed by a size that can be trusted, a number scanned again is itself. */
  lemma PrintThenScan(size: nat, value: Half, max: Word)
    requires (size <= 10 || size >= 33) && Printed(size, value).Some? && value <= max
    ensures Scan(Printed(size, value).value, max) == (value, "")
  {
    PrintsRight(size, value);
    var s := Printed(size, value).value;
    ScanTakesAll(0, s, "", max);
    assert s + "" == s;
  }

  /**
   Values below the power of ten as held are printed: up to size ten those that have fewer digits
   than the size, and from 33 on, as for size zero, none at all.
   */
  lemma PrintedIffFits(size: nat, value: Half)
    ensures Printed(size, value).Some? <==> value < PowerHeld(Factors(size))
    ensures 1 <= size <= 10 ==> PowerHeld(Factors(size)) == PowerOfTen(size - 1)
    ensures size == 0 || size >= 33 ==> Printed(size, value) == None
  {
    if size == 0 || size >= 33 {
      LargePowersVanish(Factors(size));
    } else if size <= 10 {
      PowerIsHeld(size - 1);
    }
  }

  // ----- sizes above ten

  /** The powers that no longer fit. */
  function HeldValue(k: nat): Half {
    match k
    case 10 => 1_410_065_408
    case 11 => 1_215_752_192
    case 12 => 3_567_587_328
    case 13 => 1_316_134_912
    case 14 => 276_447_232
    case 15 => 2_764_472_320
    case 16 => 1_874_919_424
    case 17 => 1_569_325_056
    case 18 => 2_808_348_672
    case 19 => 2_313_682_944
    case 20 => 1_661_992_960
    case 21 => 3_735_027_712
    case 22 => 2_990_538_752
    case 23 => 4_135_583_744
    case 24 => 2_701_131_776
    case 25 => 1_241_513_984
    case 26 => 3_825_205_248
    case 27 => 3_892_314_112
    case 28 => 268_435_456
    case 29 => 2_684_354_560
    case 30 => 1_073_741_824
    case 31 => 2_147_483_648
    case _ => 0
  }

  lemma NextHeldValue(k: nat)
    requires 10 <= k <= 31
    ensures HeldValue(k) * 10 % HALF == HeldValue(k + 1)
  {}

  lemma TenthPowerHeld()
    ensures PowerHeld(10) == HeldValue(10)
  {
    PowerIsHeld(9);
  }

  lemma NextPowerHeld(k: nat)
    ensures PowerHeld(k + 1) == PowerHeld(k) * 10 % HALF
  {}

  lemma {:induction false} PowerIsHeldValue(k: nat)
    requires 10 <= k <= 32
    ensures PowerHeld(k) == HeldValue(k)
  {
    if k == 10 {
      TenthPowerHeld();
    } else {
      PowerIsHeldValue(k - 1);
      NextHeldValue(k - 1);
      NextPowerHeld(k - 1);
    }
  }

  lemma {:induction false} LargePowersVanish(k: nat)
    requires k >= 32
    ensures PowerHeld(k) == 0
  {
    if k == 32 {
      PowerIsHeldValue(32);
    } else {
      LargePowersVanish(k - 1);
    }
  }

  /** A power of nine or ten digits that does not start like a power of ten. */
  predicate Misleads(p: Half) {
    101_000_000 <= p < 920_000_000 || 1_010_000_000 <= p
  }

  lemma HeldPowersMislead(k: nat)
    requires 10 <= k <= 31
    ensures Misleads(PowerHeld(k))
  {
    PowerIsHeldValue(k);
  }

  /** The leading three or four digits of a number, at most 1009. */
  function Leading(n: nat): nat {
    if n < 1010 then n else Leading(n / 10)
  }

  lemma LeadingOf(p: Half)
    requires Misleads(p)
    ensures 101 <= Leading(p) <= 919
  {
    var p3 := p / 10 / 10 / 10;
    var p6 := p3 / 10 / 10 / 10;
    assert Leading(p) == Leading(p / 10) == Leading(p / 10 / 10) == Leading(p3);
    assert Leading(p3) == Leading(p3 / 10) == Leading(p3 / 10 / 10) == Leading(p6);
  }

  /** Nothing is written for a hundred before the divisor is down to two or three digits. */
  lemma HundredWaits(max: Half)
    requires max >= 1010
    ensures Written(max, 100, false) == Written(max / 10, 100, false)
  {
    SmallLead(max / 10);
    WrittenFrom(max / 10, max, 100, false);
  }

  lemma SmallLead(m: nat)
    requires m > 100
    ensures Lead(m, 100) == 0 && Left(m, 100) == 100
  {}

  lemma {:induction false} HundredFromLeading(max: Half)
    ensures Leading(max) < HALF && Written(max, 100, false) == Written(Leading(max), 100, false)
  {
    if max >= 1010 {
      HundredWaits(max);
      HundredFromLeading(max / 10);
    }
  }

  lemma LastTwoDigits(m: Half, rest: Half)
    requires 10 <= m <= 91
    ensures Written(m, rest, true) == [DigitChar(Lead(m / 10, rest))] + if m / 10 == 1 then "" else "0"
  {
    var m' := m / 10;
    WrittenFrom(m', m, rest, true);
    if m' != 1 {
      WrittenFrom(0, m', Left(m', rest), true);
    }
  }

  lemma HundredDoesNotComeOut(m: nat, c: nat, rest: nat, d: nat)
    requires 10 <= m <= 91 && c * m + rest == 100 && rest < m && d == Lead(m / 10, rest)
    ensures c < 10 ==> (if m / 10 == 1 then 10 * c + d else 100 * c + 10 * d) != 100
  {
    LeadBounds(m / 10, rest);
    if m / 10 == 1 {
      Product(c, m - 10);
    } else {
      assert c == 0 ==> c * m == 0;
    }
  }

  lemma LeadBounds(m: nat, value: nat)
    ensures Lead(m, value) <= value
    ensures m == 1 ==> Lead(m, value) == value
    ensures 0 < m <= value ==> Lead(m, value) >= 1
  {
    if m > 0 {
      var q := value / m;
      assert value == m * q + value % m;
      Product(q, m - 1);
    }
  }

  lemma Product(c: nat, n: nat)
    ensures c >= 1 && n >= 1 ==> c * n >= 1
    ensures n == 0 || c == 0 ==> c * n == 0
    ensures c * (n + 1) == c + c * n && c * (n + 10) == 10 * c + c * n
  {}

  /** What a text of one or two digits, and perhaps a zero, can say. */
  lemma ReadsAs(c: nat, d: nat, zero: bool, v: nat)
    requires c <= 100 && d <= 100
    ensures Says([DigitChar(c)] + ([DigitChar(d)] + if zero then "0" else ""), v) ==>
              c < 10 && d < 10 && v == if zero then 100 * c + 10 * d else 10 * c + d
  {
    var zeros := if zero then "0" else "";
    var s := [DigitChar(c)] + ([DigitChar(d)] + zeros);
    if Says(s, v) {
      assert IsDigit(s[0]) && IsDigit(s[1]);
      NumberOfDigit(c, d, zeros);
      NumberOfDigit(0, c, [DigitChar(d)] + zeros);
    }
  }

  lemma HundredSplits(m: Half)
    requires 10 <= m <= 91
    ensures var c, rest := Lead(m, 100), Left(m, 100);
      1 <= c <= 100 && c * m + rest == 100 && rest < m
  {
    LeadBounds(m, 100);
  }

  lemma HundredIsWritten(max: Half)
    requires 101 <= max <= 919
    ensures var m := max / 10;
      var c, d := Lead(m, 100), Lead(m / 10, Left(m, 100));
      Written(max, 100, false) == [DigitChar(c)] + ([DigitChar(d)] + if m / 10 != 1 then "0" else "")
  {
    var m := max / 10;
    HundredSplits(m);
    WrittenFrom(m, max, 100, false);
    LastTwoDigits(m, Left(m, 100));
  }

  /** Divided by what starts like that, a hundred does not come out. */
  lemma HundredGoesWrong(max: Half)
    requires 101 <= max <= 919
    ensures !Says(Written(max, 100, false), 100)
  {
    var m := max / 10;
    HundredIsWritten(max);
    HundredSplits(m);
    HundredNotRead(m, Lead(m, 100), Left(m, 100), Lead(m / 10, Left(m, 100)));
  }

  lemma HundredNotRead(m: nat, c: nat, rest: nat, d: nat)
    requires 10 <= m <= 91 && c <= 100 && c * m + rest == 100 && rest < m && d == Lead(m / 10, rest)
    ensures !Says([DigitChar(c)] + ([DigitChar(d)] + if m / 10 != 1 then "0" else ""), 100)
  {
    LeadBounds(m / 10, rest);
    HundredDoesNotComeOut(m, c, rest, d);
    ReadsAs(c, d, m / 10 != 1, 100);
  }

  /** So it is printed at each of these sizes, but not as a hundred. */
  lemma HundredIsMisprinted(size: nat)
    requires 11 <= size <= 32
    ensures Printed(size, 100).Some? && !Says(Printed(size, 100).value, 100)
  {
    var p := PowerHeld(size - 1);
    HeldPowersMislead(size - 1);
    HundredFromLeading(p);
    LeadingOf(p);
    HundredGoesWrong(Leading(p));
  }

  lemma PrintsRight(size: nat, value: Half)
    requires size <= 10 || size >= 33
    ensures Printed(size, value).Some? ==> Says(Printed(size, value).value, value)
  {
    PrintedIffFits(size, value);
    if Printed(size, value).Some? {
      SmallSizesSay(size, value);
    }
  }

  /** Every value that is printed is printed right exactly for sizes up to ten and from 33 on. */
  lemma PrintsRightIff(size: nat)
    ensures (forall value: Half | Printed(size, value).Some? :: Says(Printed(size, value).value, value))
            <==> size <= 10 || size >= 33
  {
    if size <= 10 || size >= 33 {
      forall value: Half | Printed(size, value).Some? ensures Says(Printed(size, value).value, value) {
        PrintsRight(size, value);
      }
    } else {
      HundredIsMisprinted(size);
    }
  }

  lemma {:induction false} WrittenIsShort(max: Half, value: Half, zero: bool, k: nat)
    requires max < PowerOfTen(k)
    ensures |Written(max, value, zero)| <= k
    decreases max
  {
    if max > 0 {
      var m := max / 10;
      if m != 1 {
        WrittenIsShort(m, Left(m, value), zero || Lead(m, value) > 0, k - 1);
      }
    }
  }

  /** What is written, with the zero that ends it, fits the buffer. */
  lemma PrintedFits(size: nat, value: Half)
    ensures Printed(size, value).Some? ==> |Printed(size, value).value| < size
  {
    if size <= 10 {
      PrintedIffFits(size, value);
      if Printed(size, value).Some? {
        SmallSizesSay(size, value);
      }
    } else {
      PowerIsHeld(9);
      assert PowerOfTen(10) == 10_000_000_000;
      WrittenIsShort(PowerHeld(size - 1), value, false, 10);
    }
  }

  method PowerFor(size: nat) returns (max: Half)
    ensures max == PowerHeld(Factors(size))
  {
    max := 1;
    for k := 0 to Factors(size)
      invariant max == PowerHeld(k)
    {
      max := max * 10 % HALF;
    }
  }

  method DivideBy(m: Half, value: Half) returns (dig: nat, left: Half)
    ensures dig == Lead(m, value) && left == Left(m, value)
  {
    dig, left := 0, value;
    if m > 0 {
      dig := value / m;
      left := value % m;
    }
  }

  /** Takes the leading digit of a value; `tail` is what remains to be written. */
  method TakeDigit(max: Half, value: Half, ghost zero: bool) returns (m: Half, dig: nat, left: Half, ghost tail: string)
    requires max > 0
    ensures m < max && tail == if m == 1 then "" else Written(m, left, zero || dig > 0)
    ensures Written(max, value, zero) == if zero || dig > 0 then [DigitChar(dig)] + tail else tail
  {
    m := max / 10;
    dig, left := DivideBy(m, value);
    WrittenFrom(m, max, value, zero);
    tail := AfterLead(m, value, zero || dig > 0);
  }

  method WriteDigits(target: array<char>, power: Half, value: Half) returns (at: nat)
    requires |Written(power, value, false)| <= target.Length
    modifies target
    ensures at == |Written(power, value, false)| && target[..at] == Written(power, value, false)
    ensures forall i | at <= i < target.Length :: target[i] == old(target[i])
  {
    ghost var whole := Written(power, value, false);
    ghost var tail := whole;
    var max, left, zero := power, value, false;
    at := 0;
    while max > 0
      invariant at <= |whole| && whole[at..] == tail && tail == Written(max, left, zero)
      invariant forall i | 0 <= i < at :: target[i] == whole[i]
      invariant forall i | at <= i < target.Length :: target[i] == old(target[i])
      decreases max
    {
      var dig;
      max, dig, left, tail := TakeDigit(max, left, zero);
      if dig > 0 || zero {
        NextOf(whole, at, DigitChar(dig), tail);
        target[at] := DigitChar(dig);
        at := at + 1;
        zero := true;
      }
      if max == 1 {
        break;
      }
    }
    assert tail == "" && target[..at] == whole;
  }

  method PrintValue(target: array<char>, size: nat, value: Half) returns (ok: bool)
    requires size <= target.Length
    modifies target
    ensures ok <==> Printed(size, value).Some?
    ensures ok ==>
              var s := Printed(size, value).value;
              |s| < size && target[..|s|] == s && target[|s|] == '\0'
    ensures forall i | 0 <= i < target.Length && (!ok || i > |Printed(size, value).value|) :: target[i] == old(target[i])
  {
    var max := PowerFor(size);
    if value >= max {
      return false;
    }
    PrintedFits(size, value);
    var at := WriteDigits(target, max, value);
    ghost var written := target[..at];
    target[at] := '\0';
    assert target[..at] == written;
    return true;
  }

  lemma NextOf(whole: string, at: nat, c: char, tail: string)
    requires at <= |whole| && whole[at..] == [c] + tail
    ensures at < |whole| && whole[at] == c && whole[at + 1..] == tail
  {
    assert whole[at..][0] == c && whole[at..][1..] == tail;
  }
}
