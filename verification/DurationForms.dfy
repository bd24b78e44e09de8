/** Exactly which texts are durations, and of how much. */
module DurationForms {
  import opened Numbers
  import opened Durations

  ghost predicate IsPlain(text: string, v: nat) {
    exists f: Field :: text == f && v == Number(f)
  }

  ghost predicate IsMilliseconds(text: string, v: nat) {
    exists f: Field :: text == f + "ms" && v == Number(f)
  }

  ghost predicate IsUnits(text: string, ms: bool, v: nat) {
    exists f: Field, u: char :: Unit(u) > 0 && text == f + [u] && v == Worth(f, u, ms)
  }

  /** A number of units, cut to 32 bits. */
  function Worth(f: Field, u: char, ms: bool): nat {
    Narrow(Number(f) * Unit(u) * if ms then 1000 else 1)
  }

  /** A number alone, with a unit, or where milliseconds are asked for, with "ms". */
  ghost predicate IsPart(text: string, ms: bool, v: nat) {
    IsPlain(text, v) || (ms && IsMilliseconds(text, v)) || IsUnits(text, ms, v)
  }

  /** Fields with a colon behind each. */
  function Leading(fs: seq<Field>): string {
    if fs == [] then "" else fs[0] + (":" + Leading(fs[1..]))
  }

  /** Up to three fields with colons, then a part; the fields weigh sixty times as much from each to the one before. */
  ghost predicate IsDuration(text: string, v: nat, fs: seq<Field>, last: string, w: nat) {
    |fs| <= 3 && text == Leading(fs) + last && IsPart(last, false, w) && v == Narrow(Horner(0, fs) * 60 + w)
  }

  /** What the scan takes, if it leaves no digit, is a field. */
  lemma ScannedField(text: string) returns (f: Field)
    requires text != "" && IsDigit(text[0])
    requires var rest := Scan(text, INT_MAX).1; rest == "" || !IsDigit(rest[0])
    ensures Scan(text, INT_MAX).0 == Number(f) && text == f + Scan(text, INT_MAX).1
  {
    var k := ScanIsLongestInBounds(text, INT_MAX);
    assert text == text[..k] + text[k..];
    f := text[..k];
  }

  lemma {:induction false} LeadingColons(fs: seq<Field>, last: string)
    ensures Count(Leading(fs) + last, ':') == |fs| + Count(last, ':')
  {
    if fs == [] {
      assert Leading(fs) + last == last;
    } else {
      var more := Leading(fs[1..]) + last;
      LeadingColons(fs[1..], last);
      assert Leading(fs) + last == fs[0] + (":" + more);
      NoColons(fs[0], ":" + more);
      assert (":" + more)[1..] == more;
    }
  }

  lemma UnitsHaveNoColon(f: Field, u: char)
    requires Unit(u) > 0
    ensures Count(f + [u], ':') == 0
  {
    NoColons(f, [u]);
    assert [u][1..] == "";
  }

  lemma PartsHaveNoColon(text: string, v: nat)
    requires IsPart(text, false, v)
    ensures Count(text, ':') == 0 && text != ""
  {
    if IsPlain(text, v) {
      NoColons(text, "");
      assert text + "" == text;
    } else {
      var f: Field, u: char :| Unit(u) > 0 && text == f + [u] && v == Worth(f, u, false);
      UnitsHaveNoColon(f, u);
    }
  }

  /** A part is read as what it is worth. */
  lemma PartReads(text: string, ms: bool, v: nat)
    requires IsPart(text, ms, v)
    ensures GetDuration(text, ms) == Ok(v)
  {
    if IsPlain(text, v) {
      FirstField(text, "");
      assert text + "" == text;
    } else if ms && IsMilliseconds(text, v) {
      var f: Field :| text == f + "ms" && v == Number(f);
      FirstField(f, "ms");
    } else {
      var f: Field, u: char :| Unit(u) > 0 && text == f + [u] && v == Worth(f, u, ms);
      WithUnit(f, u, ms);
    }
  }

  lemma ReadsPart(text: string, ms: bool, v: int)
    requires GetDuration(text, ms) == Ok(v)
    requires var rest := Scan(text, INT_MAX).1; rest == "" || rest[0] != ':' || ms || |rest| == 1
    ensures v >= 0 && IsPart(text, ms, v)
  {
    var (n, rest) := Scan(text, INT_MAX);
    var f := ScannedField(text);
    if rest == "" {
      assert f + "" == f;
      assert IsPlain(text, v);
    } else if ms && rest == "ms" {
      assert IsMilliseconds(text, v);
    } else {
      assert rest == [rest[0]];
      assert v == Worth(f, rest[0], ms);
      assert IsUnits(text, ms, v);
    }
  }

  lemma Weighs(n: nat, p: nat, q: nat, w: nat)
    ensures n * (60 * p) + (q * 60 + w) == (n * p + q) * 60 + w
  {}

  lemma HornerInFront(f: Field, fs: seq<Field>)
    ensures Horner(0, [f] + fs) == Number(f) * Power60(|fs|) + Horner(0, fs)
  {
    HornerSplits(Number(f), fs);
    assert ([f] + fs)[1..] == fs;
    assert Horner(0, [f] + fs) == Horner(0 * 60 + Number(f), fs);
  }

  /** One field more in front adds its number times sixty for each colon behind it. */
  lemma OneMoreField(f: Field, fs: seq<Field>, w: nat)
    ensures Narrow(Narrow(Number(f) * Power60(|fs| + 1)) + Narrow(Horner(0, fs) * 60 + w))
            == Narrow(Horner(0, [f] + fs) * 60 + w)
  {
    HornerInFront(f, fs);
    Weighs(Number(f), Power60(|fs|), Horner(0, fs), w);
    NarrowTotal(Number(f) * Power60(|fs| + 1), Horner(0, fs) * 60 + w, Horner(0, [f] + fs) * 60 + w);
  }

  lemma NarrowTotal(a: nat, b: nat, total: nat)
    requires a + b == total
    ensures Narrow(Narrow(a) + Narrow(b)) == Narrow(total)
  {
    NarrowSum(a, b);
  }

  lemma {:induction false} DurationReads(text: string, v: nat, fs: seq<Field>, last: string, w: nat)
    requires IsDuration(text, v, fs, last, w)
    ensures GetDuration(text, false) == Ok(v)
    decreases |fs|
  {
    PartsHaveNoColon(last, w);
    PartReads(last, false, w);
    if fs == [] {
      assert Leading(fs) + last == last;
      PartFits(last, w);
    } else {
      var more := Leading(fs[1..]) + last;
      var v' := Narrow(Horner(0, fs[1..]) * 60 + w);
      assert text == fs[0] + (":" + more);
      LeadingColons(fs[1..], last);
      DurationReads(more, v', fs[1..], last, w);
      OneMoreField(fs[0], fs[1..], w);
      assert [fs[0]] + fs[1..] == fs;
      FieldThenMore(fs[0], more, v');
    }
  }

  lemma FieldThenMore(f: Field, more: string, v: nat)
    requires GetDuration(more, false) == Ok(v) && Count(more, ':') < 3
    ensures GetDuration(f + (":" + more), false) == Ok(Narrow(Narrow(Number(f) * Power60(Count(more, ':') + 1)) + v))
  {
    FirstField(f, ":" + more);
    assert (":" + more)[1..] == more;
    assert |":" + more| > 1;
  }

  lemma PartFits(text: string, w: nat)
    requires IsPart(text, false, w)
    ensures Narrow(w) == w
  {}

  lemma OnlyPart(text: string, v: int)
    requires v >= 0 && IsPart(text, false, v)
    ensures IsDuration(text, v, [], text, v) && Count(text, ':') == 0
  {
    assert Leading([]) + text == text;
    PartFits(text, v);
    PartsHaveNoColon(text, v);
  }

  lemma LeadingInFront(f: Field, gs: seq<Field>, last: string)
    ensures Leading([f] + gs) + last == f + (":" + (Leading(gs) + last))
  {
    assert ([f] + gs)[1..] == gs;
  }

  lemma ColonsInFront(f: Field, more: string)
    ensures Count(":" + more, ':') == Count(more, ':') + 1 && Count(f + (":" + more), ':') == Count(more, ':') + 1
  {
    assert (":" + more)[1..] == more;
    NoColons(f, ":" + more);
  }

  lemma FieldInFront(f: Field, more: string, v: nat, gs: seq<Field>, last: string, w: nat)
    requires IsDuration(more, v, gs, last, w) && |gs| < 3
    ensures IsDuration(f + (":" + more), Narrow(Narrow(Number(f) * Power60(|gs| + 1)) + v), [f] + gs, last, w)
  {
    LeadingInFront(f, gs, last);
    OneMoreField(f, gs, w);
  }

  lemma {:induction false} ReadsDuration(text: string, v: int) returns (fs: seq<Field>, last: string, w: nat)
    requires GetDuration(text, false) == Ok(v)
    ensures v >= 0 && IsDuration(text, v, fs, last, w)
    ensures Count(text, ':') == |fs|
    decreases |text|
  {
    var (n, rest) := Scan(text, INT_MAX);
    if rest == "" || rest[0] != ':' || |rest| == 1 {
      ReadsPart(text, false, v);
      OnlyPart(text, v);
      fs, last, w := [], text, v;
    } else {
      var f := ScannedField(text);
      var more := rest[1..];
      assert rest == ":" + more;
      ColonsInFront(f, more);
      fs, last, w := ReadsDuration(more, GetDuration(more, false).value);
      FieldInFront(f, more, GetDuration(more, false).value, fs, last, w);
      fs := [f] + fs;
    }
  }

  /** In seconds, a text is a duration exactly if it is up to three fields with colons and then a number, with a unit or not. */
  lemma SecondsIff(text: string, v: nat)
    ensures GetDuration(text, false) == Ok(v) <==> exists fs, last, w :: IsDuration(text, v, fs, last, w)
  {
    if GetDuration(text, false) == Ok(v) {
      var fs, last, w := ReadsDuration(text, v);
    }
    if fs, last, w :| IsDuration(text, v, fs, last, w) {
      DurationReads(text, v, fs, last, w);
    }
  }

  /** In milliseconds, exactly if it is one number, with a unit or not. */
  lemma MillisecondsIff(text: string, v: nat)
    ensures GetDuration(text, true) == Ok(v) <==> IsPart(text, true, v)
  {
    if GetDuration(text, true) == Ok(v) {
      ReadsPart(text, true, v);
    }
    if IsPart(text, true, v) {
      PartReads(text, true, v);
    }
  }
}
