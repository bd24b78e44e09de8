/**
 Checksums as remainders. A polynomial over two elements is the list of its coefficients, the highest
 first; the generator is given without its leading one. A register of the kind of `CrcTheory` whose
 shift follows a generator computes the remainder of what its bits spell.
 */
module CrcDivision {
  import opened CrcTheory

  function Zeros(n: nat): (z: seq<bool>)
    ensures |z| == n && forall i | 0 <= i < n :: !z[i]
  {
    seq(n, _ => false)
  }

  function Ones(n: nat): (z: seq<bool>)
    ensures |z| == n && forall i | 0 <= i < n :: z[i]
  {
    seq(n, _ => true)
  }

  /** `b` added to the first coefficients of `a`. */
  function Add(a: seq<bool>, b: seq<bool>): (r: seq<bool>)
    ensures |r| == |a|
    ensures forall i | 0 <= i < |a| :: r[i] == if i < |b| then a[i] != b[i] else a[i]
  {
    seq(|a|, i requires 0 <= i < |a| => if i < |b| then a[i] != b[i] else a[i])
  }

  /** `b` added to the last coefficients of `a`. */
  function AddLow(a: seq<bool>, b: seq<bool>): (r: seq<bool>)
    requires |b| <= |a|
    ensures |r| == |a|
    ensures forall i | 0 <= i < |a| :: r[i] == if i < |a| - |b| then a[i] else a[i] != b[i - (|a| - |b|)]
  {
    seq(|a|, i requires 0 <= i < |a| => if i < |a| - |b| then a[i] else a[i] != b[i - (|a| - |b|)])
  }

  /** What long division by the generator leaves. */
  function Remainder(g: seq<bool>, d: seq<bool>): (r: seq<bool>)
    requires |g| > 0
    ensures |d| >= |g| ==> |r| == |g|
    decreases |d|
  {
    if |d| <= |g| then d
    else if d[0] then Remainder(g, Add(d[1..], g))
    else Remainder(g, d[1..])
  }

  /** The product of a polynomial and the generator. */
  function Product(q: seq<bool>, g: seq<bool>): (p: seq<bool>)
    ensures |p| == |q| + |g|
    decreases |q|
  {
    if q == [] then Zeros(|g|)
    else [q[0]] + if q[0] then Add(Product(q[1..], g), g) else Product(q[1..], g)
  }

  // ----- long division leaves the remainder

  lemma AddTwice(a: seq<bool>, b: seq<bool>)
    ensures Add(Add(a, b), b) == a
  {}

  lemma AddsCommute(p: seq<bool>, g: seq<bool>, r: seq<bool>)
    requires |g| <= |p| && |r| <= |p|
    ensures Add(AddLow(p, r), g) == AddLow(Add(p, g), r)
  {}

  lemma AddLowAfter(b: bool, p: seq<bool>, r: seq<bool>)
    requires |r| <= |p|
    ensures AddLow([b] + p, r) == [b] + AddLow(p, r)
  {}

  ghost predicate IsQuotient(g: seq<bool>, d: seq<bool>, q: seq<bool>, r: seq<bool>) {
    |r| == |g| && d == AddLow(Product(q, g), r)
  }

  lemma {:induction false} DivisionHasQuotient(g: seq<bool>, d: seq<bool>) returns (q: seq<bool>)
    requires 0 < |g| <= |d|
    ensures IsQuotient(g, d, q, Remainder(g, d))
    decreases |d|
  {
    if |d| == |g| {
      q := [];
    } else {
      var tail := if d[0] then Add(d[1..], g) else d[1..];
      var q' := DivisionHasQuotient(g, tail);
      var p, r := Product(q', g), Remainder(g, d);
      q := [d[0]] + q';
      assert q[1..] == q';
      if d[0] {
        AddTwice(d[1..], g);
        AddsCommute(p, g, r);
      }
      AddLowAfter(d[0], if d[0] then Add(p, g) else p, r);
      assert d == [d[0]] + d[1..];
    }
  }

  lemma {:induction false} QuotientGivesRemainder(g: seq<bool>, d: seq<bool>, q: seq<bool>, r: seq<bool>)
    requires |g| > 0 && IsQuotient(g, d, q, r)
    ensures Remainder(g, d) == r
    decreases |q|
  {
    if q != [] {
      var p := Product(q[1..], g);
      var tail := AddLow(p, r);
      AddLowAfter(q[0], if q[0] then Add(p, g) else p, r);
      if q[0] {
        AddsCommute(p, g, r);
        AddTwice(tail, g);
      }
      QuotientGivesRemainder(g, tail, q[1..], r);
    }
  }

  /** Long division leaves `r` exactly if the dividend is some multiple of the generator and `r`, which is shorter. */
  lemma RemainderIff(g: seq<bool>, d: seq<bool>, r: seq<bool>)
    requires 0 < |g| <= |d|
    ensures Remainder(g, d) == r <==> exists q :: IsQuotient(g, d, q, r)
  {
    var q := DivisionHasQuotient(g, d);
    if q' :| IsQuotient(g, d, q', r) {
      QuotientGivesRemainder(g, d, q', r);
    }
  }

  // ----- the coefficients of a word

  /** Coefficients met one place after the other add up if those in front do. */
  lemma {:induction false} PlacesAdd<R(!new)>(at: (R, nat) -> bool, next: R -> R, xor: (R, R) -> R, c: R, d: R, k: nat)
    requires forall x, n: nat :: at(x, n + 1) == at(next(x), n)
    requires forall x, y :: at(xor(x, y), 0) == (at(x, 0) != at(y, 0))
    requires forall x, y :: next(xor(x, y)) == xor(next(x), next(y))
    ensures at(xor(c, d), k) == (at(c, k) != at(d, k))
    decreases k
  {
    if k > 0 {
      var n: nat := k - 1;
      PlacesAdd(at, next, xor, next(c), next(d), n);
      assert at(xor(c, d), n + 1) == at(next(xor(c, d)), n);
      assert at(c, n + 1) == at(next(c), n) && at(d, n + 1) == at(next(d), n);
    }
  }

  function Iterate<R>(f: R -> R, c: R, n: nat): R
    decreases n
  {
    if n == 0 then c else Iterate(f, f(c), n - 1)
  }

  lemma {:induction false} IterateAdd<R>(f: R -> R, c: R, m: nat, n: nat)
    ensures Iterate(f, c, m + n) == Iterate(f, Iterate(f, c, m), n)
    decreases m
  {
    if m > 0 {
      IterateAdd(f, f(c), m - 1, n);
    }
  }

  lemma Unrolls<R>(f: R -> R, c: R)
    ensures Iterate(f, c, 0) == c && Iterate(f, c, 1) == f(c) && Iterate(f, c, 2) == f(f(c))
    ensures Iterate(f, c, 3) == f(f(f(c))) && Iterate(f, c, 4) == f(f(f(f(c))))
  {
    assert Iterate(f, f(c), 1) == f(f(c)) && Iterate(f, f(f(c)), 1) == f(f(f(c))) && Iterate(f, f(f(f(c))), 1) == f(f(f(f(c))));
    assert Iterate(f, f(c), 2) == f(f(f(c))) && Iterate(f, f(f(c)), 2) == f(f(f(f(c))));
    assert Iterate(f, f(c), 3) == f(f(f(f(c))));
  }

  /** A register that goes through the values `v` one symbol at a time ends at the last of them. */
  lemma {:induction false} FoldFollows<R, S>(a: Register<R, S>, v: seq<R>, m: seq<S>)
    requires |v| == |m| + 1 && forall i | 0 <= i < |m| :: Step(a, v[i], m[i]) == v[i + 1]
    ensures Fold(a, v[0], m) == v[|m|]
    decreases |m|
  {
    if m != [] {
      FoldFollows(a, v[..|m|], m[..|m| - 1]);
    }
  }

  // ----- registers divide

  /** One step of a register that holds the coefficients `w`. */
  function ShiftBits(g: seq<bool>, w: seq<bool>): seq<bool> {
    if w == [] then []
    else if w[0] then Add(w[1..] + [false], g)
    else w[1..] + [false]
  }

  /** `spell` gives the coefficients a register holds, and its shift follows the generator. */
  ghost predicate Divides<R(!new)>(e: Register<R, bool>, spell: R -> seq<bool>, g: seq<bool>) {
    && |g| > 0
    && (forall c :: |spell(c)| == |g|)
    && (forall c, d :: spell(e.xor(c, d)) == Add(spell(c), spell(d)))
    && (forall x :: spell(e.park(0, x)) == [x] + Zeros(|g| - 1))
    && (forall c :: spell(e.shift(c)) == ShiftBits(g, spell(c)))
  }

  lemma AddFirst(x: bool, m: seq<bool>, w: seq<bool>)
    requires w != []
    ensures Add([x] + m, w) == [x != w[0]] + Add(m, w[1..])
  {}

  lemma AddNothing(m: seq<bool>, w: seq<bool>, n: nat)
    ensures Add(m, w + Zeros(n)) == Add(m, w)
  {}

  lemma AddAssociates(a: seq<bool>, b: seq<bool>, c: seq<bool>)
    requires |b| == |c| <= |a|
    ensures Add(Add(a, b), c) == Add(a, Add(b, c))
  {}

  lemma ZerosAdded(a: seq<bool>, n: nat)
    requires n <= |a|
    ensures Add(a, Zeros(n)) == a
  {}

  lemma BitEnters(g: seq<bool>, w: seq<bool>, x: bool)
    requires |w| == |g| > 0
    ensures var t := w[1..] + [false];
      ShiftBits(g, Add(w, [x] + Zeros(|g| - 1))) == if x != w[0] then Add(t, g) else t
  {
    var u, z := w[1..], Zeros(|g| - 1);
    AddFirst(w[0], u, [x] + z);
    assert w == [w[0]] + u && ([x] + z)[1..] == z;
    ZerosAdded(u, |g| - 1);
    assert ([w[0] != x] + u)[1..] == u;
  }

  lemma BitLeaves(g: seq<bool>, w: seq<bool>, x: bool, m: seq<bool>)
    requires |w| == |g| > 0 && |m| >= |g|
    ensures var t := w[1..] + [false];
      Remainder(g, Add([x] + m, w)) == Remainder(g, if x != w[0] then Add(Add(m, t), g) else Add(m, t))
  {
    var d := Add([x] + m, w);
    AddFirst(x, m, w);
    AddNothing(m, w[1..], 1);
    assert Zeros(1) == [false];
    assert d[1..] == Add(m, w[1..] + [false]);
  }

  /** The register with the next bit added in holds the same coefficients as the dividend in front. */
  lemma DivisionStep(g: seq<bool>, w: seq<bool>, x: bool, m: seq<bool>)
    requires |w| == |g| > 0 && |m| >= |g|
    ensures Remainder(g, Add([x] + m, w)) == Remainder(g, Add(m, ShiftBits(g, Add(w, [x] + Zeros(|g| - 1)))))
  {
    BitEnters(g, w, x);
    BitLeaves(g, w, x, m);
    AddAssociates(m, w[1..] + [false], g);
  }

  /**
   A register that starts at `c` and takes the bits of a message ends at the remainder of the message
   with as many zeros appended as the register is wide and the coefficients of `c` added in front.
   */
  lemma {:induction false} FoldDivides<R(!new)>(
      e: Register<R, bool>, spell: R -> seq<bool>, g: seq<bool>, c: R, m: seq<bool>)
    requires Divides(e, spell, g)
    ensures spell(Fold(e, c, m)) == Remainder(g, Add(m + Zeros(|g|), spell(c)))
    decreases |m|
  {
    if m == [] {
      assert Add(m + Zeros(|g|), spell(c)) == spell(c);
    } else {
      var x, rest := m[0], m[1..];
      assert m == [x] + rest && [x][..0] == [];
      FoldSplits(e, c, [x], rest);
      assert Fold(e, c, [x]) == Step(e, c, x);
      FoldDivides(e, spell, g, Step(e, c, x), rest);
      DivisionStep(g, spell(c), x, rest + Zeros(|g|));
      assert m + Zeros(|g|) == [x] + (rest + Zeros(|g|));
    }
  }
}
