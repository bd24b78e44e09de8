/**
 What makes a shift-register checksum detect bursts: shifting is linear and can be undone. The
 register, its shift and the place where message symbols enter are parameters, so the results hold
 for both checksums below, with whole bytes or single bits as the symbols.
 */
module CrcTheory {

  /**
   A register of type R that takes symbols of type S: `shift` moves it on by one symbol, `unshift`
   undoes that, and a symbol is added at `park(0, x)` just before a shift. `park(j, x)` is the value
   that `j` shifts bring to `park(0, x)`, for `j` below the register's width in symbols.
   */
  datatype Register<!R, !S> = Register(
    shift: R -> R, unshift: R -> R, xor: (R, R) -> R, zero: R, park: (nat, S) -> R, width: nat)

  function Eight<R>(f: R -> R, c: R): R {
    f(f(f(f(f(f(f(f(c))))))))
  }

  function Shifts<R, S>(a: Register<R, S>, c: R, n: nat): R {
    if n == 0 then c else a.shift(Shifts(a, c, n - 1))
  }

  function Step<R, S>(a: Register<R, S>, c: R, x: S): R {
    a.shift(a.xor(c, a.park(0, x)))
  }

  /** The register after a message; the last symbol is taken last. */
  function Fold<R, S>(a: Register<R, S>, c: R, m: seq<S>): R {
    if m == [] then c else Step(a, Fold(a, c, m[..|m| - 1]), m[|m| - 1])
  }

  /** A short message as one value of the register. */
  function Pack<R, S>(a: Register<R, S>, w: seq<S>): R {
    if w == [] then a.zero else a.xor(Pack(a, w[..|w| - 1]), a.park(|w| - 1, w[|w| - 1]))
  }

  ghost predicate IsGroup<R(!new)>(xor: (R, R) -> R, zero: R) {
    && (forall x, y :: xor(x, y) == xor(y, x))
    && (forall x, y, z :: xor(xor(x, y), z) == xor(x, xor(y, z)))
    && (forall x, y :: xor(xor(x, y), y) == x)
    && (forall x :: xor(x, zero) == x)
  }

  ghost predicate Distributes<R(!new)>(f: R -> R, xor: (R, R) -> R) {
    forall x, y :: f(xor(x, y)) == xor(f(x), f(y))
  }

  ghost predicate Undoes<R(!new)>(g: R -> R, f: R -> R) {
    forall x :: g(f(x)) == x
  }

  ghost predicate IsLinear<R(!new), S(!new)>(a: Register<R, S>) {
    Distributes(a.shift, a.xor) && Undoes(a.unshift, a.shift) && IsGroup(a.xor, a.zero)
  }

  ghost predicate IsParked<R(!new), S(!new)>(a: Register<R, S>) {
    && a.width > 0
    && forall j: nat, b: S | j + 1 < a.width :: a.shift(a.park(j + 1, b)) == a.park(j, b)
  }

  // ----- the step

  lemma EightIsLinear<R(!new)>(f: R -> R, xor: (R, R) -> R, x: R, y: R)
    requires Distributes(f, xor)
    ensures Eight(f, xor(x, y)) == xor(Eight(f, x), Eight(f, y))
  {}

  lemma EightIsUndone<R(!new)>(f: R -> R, g: R -> R, x: R)
    requires Undoes(g, f)
    ensures Eight(g, Eight(f, x)) == x
  {}

  lemma {:induction false} ShiftsAreLinear<R(!new), S(!new)>(a: Register<R, S>, x: R, y: R, n: nat)
    requires IsLinear(a)
    ensures Shifts(a, a.xor(x, y), n) == a.xor(Shifts(a, x, n), Shifts(a, y, n))
  {
    if n > 0 {
      ShiftsAreLinear(a, x, y, n - 1);
      assert a.shift(a.xor(Shifts(a, x, n - 1), Shifts(a, y, n - 1)))
             == a.xor(a.shift(Shifts(a, x, n - 1)), a.shift(Shifts(a, y, n - 1)));
    }
  }

  lemma ShiftIsInjective<R(!new), S(!new)>(a: Register<R, S>, x: R, y: R)
    requires IsLinear(a) && a.shift(x) == a.shift(y)
    ensures x == y
  {
    assert a.unshift(a.shift(x)) == x && a.unshift(a.shift(y)) == y;
  }

  lemma {:induction false} ShiftsAreInjective<R(!new), S(!new)>(a: Register<R, S>, x: R, y: R, n: nat)
    requires IsLinear(a) && Shifts(a, x, n) == Shifts(a, y, n)
    ensures x == y
  {
    if n > 0 {
      var x', y' := Shifts(a, x, n - 1), Shifts(a, y, n - 1);
      assert a.shift(x') == a.shift(y');
      ShiftIsInjective(a, x', y');
      ShiftsAreInjective(a, x, y, n - 1);
    }
  }

  lemma XorIsInjective<R(!new), S(!new)>(a: Register<R, S>, x: R, y: R, s: R)
    requires IsLinear(a) && a.xor(x, s) == a.xor(y, s)
    ensures x == y
  {
    assert a.xor(a.xor(x, s), s) == x && a.xor(a.xor(y, s), s) == y;
  }

  // ----- messages

  lemma {:induction false} FoldSplits<R, S>(a: Register<R, S>, c: R, m: seq<S>, n: seq<S>)
    ensures Fold(a, c, m + n) == Fold(a, Fold(a, c, m), n)
    decreases |n|
  {
    if n == [] {
      assert m + n == m;
    } else {
      var k := |n| - 1;
      assert (m + n)[..|m + n| - 1] == m + n[..k];
      FoldSplits(a, c, m, n[..k]);
    }
  }

  /** Different registers stay different under the same message. */
  lemma {:induction false} FoldIsInjective<R(!new), S(!new)>(a: Register<R, S>, c: R, d: R, m: seq<S>)
    requires IsLinear(a) && Fold(a, c, m) == Fold(a, d, m)
    ensures c == d
    decreases |m|
  {
    if m != [] {
      var k := |m| - 1;
      var x, y, s := Fold(a, c, m[..k]), Fold(a, d, m[..k]), a.park(0, m[k]);
      ShiftIsInjective(a, a.xor(x, s), a.xor(y, s));
      XorIsInjective(a, x, y, s);
      FoldIsInjective(a, c, d, m[..k]);
    }
  }

  lemma {:induction false} ParkedSymbol<R(!new), S(!new)>(a: Register<R, S>, j: nat, b: S)
    requires IsParked(a) && j < a.width
    ensures Shifts(a, a.park(j, b), j) == a.park(0, b)
  {
    if j > 0 {
      ShiftInside(a, a.park(j, b), j - 1);
      assert a.shift(a.park(j - 1 + 1, b)) == a.park(j - 1, b);
      ParkedSymbol(a, j - 1, b);
    }
  }

  lemma {:induction false} ShiftInside<R, S>(a: Register<R, S>, c: R, n: nat)
    ensures Shifts(a, c, n + 1) == Shifts(a, a.shift(c), n)
  {
    if n > 0 {
      ShiftInside(a, c, n - 1);
    }
  }

  /** A message that fits the register acts as adding its packed form and shifting it through. */
  lemma {:induction false} FoldPacked<R(!new), S(!new)>(a: Register<R, S>, c: R, w: seq<S>)
    requires IsLinear(a) && IsParked(a) && |w| <= a.width
    ensures Fold(a, c, w) == Shifts(a, a.xor(c, Pack(a, w)), |w|)
    decreases |w|
  {
    if w != [] {
      var k := |w| - 1;
      var u, b := w[..k], w[k];
      FoldPacked(a, c, u);
      ParkedSymbol(a, k, b);
      ShiftsAreLinear(a, a.xor(c, Pack(a, u)), a.park(k, b), k);
      assert a.xor(a.xor(c, Pack(a, u)), a.park(k, b)) == a.xor(c, a.xor(Pack(a, u), a.park(k, b)));
    }
  }

  lemma PackOfFour<R, S>(a: Register<R, S>, w: seq<S>)
    requires |w| == 4
    ensures Pack(a, w) == a.xor(a.xor(a.xor(a.xor(a.zero, a.park(0, w[0])), a.park(1, w[1])), a.park(2, w[2])),
                                a.park(3, w[3]))
  {
    assert w[..3][..2] == w[..2] && w[..2][..1] == w[..1] && w[..1][..0] == [];
    assert Pack(a, w[..1]) == a.xor(a.zero, a.park(0, w[0]));
    assert Pack(a, w[..2]) == a.xor(Pack(a, w[..1]), a.park(1, w[1]));
    assert Pack(a, w[..3]) == a.xor(Pack(a, w[..2]), a.park(2, w[2]));
  }

  ghost predicate PacksApart<R(!new), S(!new)>(a: Register<R, S>) {
    forall w, v | |w| == |v| == a.width && Pack(a, w) == Pack(a, v) :: w == v
  }

  lemma WindowDetected<R(!new), S(!new)>(a: Register<R, S>, c: R, pre: seq<S>, w: seq<S>, v: seq<S>, post: seq<S>)
    requires IsLinear(a) && IsParked(a) && PacksApart(a)
    requires |w| == |v| == a.width && Fold(a, c, pre + w + post) == Fold(a, c, pre + v + post)
    ensures w == v
  {
    var d := Fold(a, c, pre);
    FoldSplits(a, c, pre + w, post);
    FoldSplits(a, c, pre + v, post);
    FoldIsInjective(a, Fold(a, c, pre + w), Fold(a, c, pre + v), post);
    FoldSplits(a, c, pre, w);
    FoldSplits(a, c, pre, v);
    FoldPacked(a, d, w);
    FoldPacked(a, d, v);
    ShiftsAreInjective(a, a.xor(d, Pack(a, w)), a.xor(d, Pack(a, v)), a.width);
    assert a.xor(d, Pack(a, w)) == a.xor(Pack(a, w), d) && a.xor(d, Pack(a, v)) == a.xor(Pack(a, v), d);
    XorIsInjective(a, Pack(a, w), Pack(a, v), d);
  }

  /** Any change confined to `width` adjacent symbols changes the register, whatever surrounds them. */
  lemma BurstDetected<R(!new), S(!new)>(a: Register<R, S>, c: R, m: seq<S>, n: seq<S>, i: nat)
    requires IsLinear(a) && IsParked(a) && PacksApart(a)
    requires |m| == |n| && m != n
    requires forall j | 0 <= j < |m| && !(i <= j < i + a.width) :: m[j] == n[j]
    ensures Fold(a, c, m) != Fold(a, c, n)
  {
    if |m| < a.width {
      var pad := seq(a.width - |m|, _ => m[0]);
      FoldSplits(a, c, m, pad);
      FoldSplits(a, c, n, pad);
      assert (m + pad)[..|m|] == m && (n + pad)[..|m|] == n;
      FullBurstDetected(a, c, m + pad, n + pad, 0);
    } else {
      FullBurstDetected(a, c, m, n, if i + a.width <= |m| then i else |m| - a.width);
    }
  }

  lemma ThreeParts<S>(m: seq<S>, k: nat, e: nat)
    requires k <= e <= |m|
    ensures m == m[..k] + m[k..e] + m[e..]
  {}

  lemma FullBurstDetected<R(!new), S(!new)>(a: Register<R, S>, c: R, m: seq<S>, n: seq<S>, k: nat)
    requires IsLinear(a) && IsParked(a) && PacksApart(a)
    requires |m| == |n| && m != n && k + a.width <= |m|
    requires forall j | 0 <= j < |m| && !(k <= j < k + a.width) :: m[j] == n[j]
    ensures Fold(a, c, m) != Fold(a, c, n)
  {
    var e := k + a.width;
    ThreeParts(m, k, e);
    ThreeParts(n, k, e);
    assert m[..k] == n[..k] && m[e..] == n[e..];
    if Fold(a, c, m) == Fold(a, c, n) {
      WindowDetected(a, c, m[..k], m[k..e], n[k..e], m[e..]);
    }
  }

  /** Appending symbols that pack to the register combined with `r` leaves what `r` becomes. */
  lemma AppendedResidue<R(!new), S(!new)>(a: Register<R, S>, c: R, m: seq<S>, w: seq<S>, r: R)
    requires IsLinear(a) && IsParked(a) && |w| == a.width
    requires Pack(a, w) == a.xor(Fold(a, c, m), r)
    ensures Fold(a, c, m + w) == Shifts(a, r, a.width)
  {
    var d := Fold(a, c, m);
    FoldSplits(a, c, m, w);
    FoldPacked(a, d, w);
    assert a.xor(d, a.xor(d, r)) == a.xor(a.xor(r, d), d) == r;
  }

  // ----- eight at a time, and bit by bit

  lemma EightLaws<R(!new)>(f: R -> R, g: R -> R, f8: R -> R, g8: R -> R, xor: (R, R) -> R)
    requires Distributes(f, xor) && Undoes(g, f)
    requires (forall x :: f8(x) == Eight(f, x)) && (forall x :: g8(x) == Eight(g, x))
    ensures Distributes(f8, xor) && Undoes(g8, f8)
  {
    forall x, y ensures f8(xor(x, y)) == xor(f8(x), f8(y)) { EightIsLinear(f, xor, x, y); }
    forall x ensures g8(f8(x)) == x { EightIsUndone(f, g, x); }
  }

  /** How a byte is spelled in bits, and read back. */
  datatype Spelling = Spelling(bits: bv8 -> seq<bool>, byte: seq<bool> -> bv8)

  function BitsOf(p: Spelling, m: seq<bv8>): seq<bool> {
    if m == [] then [] else BitsOf(p, m[..|m| - 1]) + p.bits(m[|m| - 1])
  }

  function BytesOf(p: Spelling, w: seq<bool>): seq<bv8> {
    if |w| < 8 then [] else BytesOf(p, w[..|w| - 8]) + [p.byte(w[|w| - 8..])]
  }

  ghost predicate IsSpelling(p: Spelling) {
    && (forall b :: |p.bits(b)| == 8)
    && (forall b :: p.byte(p.bits(b)) == b)
    && (forall w | |w| == 8 :: p.bits(p.byte(w)) == w)
  }

  /** The register `e` takes bit by bit what `a` takes byte by byte. */
  ghost predicate Refines<R(!new)>(a: Register<R, bv8>, e: Register<R, bool>, p: Spelling) {
    && IsLinear(a) && IsParked(a) && IsLinear(e) && IsParked(e) && IsSpelling(p)
    && a.xor == e.xor && a.zero == e.zero && e.width == 8 * a.width
    && ShiftsEight(a, e) && PacksBytes(a, e, p)
  }

  ghost predicate ShiftsEight<R(!new)>(a: Register<R, bv8>, e: Register<R, bool>) {
    forall x :: a.shift(x) == Eight(e.shift, x)
  }

  ghost predicate PacksBytes<R(!new)>(a: Register<R, bv8>, e: Register<R, bool>, p: Spelling) {
    forall b :: Pack(e, p.bits(b)) == a.park(0, b)
  }

  lemma ShiftsOfFour<R>(e: Register<R, bool>, c: R)
    ensures Shifts(e, c, 4) == e.shift(e.shift(e.shift(e.shift(c))))
  {
    assert Shifts(e, c, 1) == e.shift(c);
    assert Shifts(e, c, 2) == e.shift(e.shift(c));
    assert Shifts(e, c, 3) == e.shift(e.shift(e.shift(c)));
  }

  lemma ShiftsOfEight<R>(e: Register<R, bool>, c: R)
    ensures Shifts(e, c, 8) == Eight(e.shift, c)
  {
    ShiftsAdd(e, c, 4, 4);
    ShiftsOfFour(e, c);
    ShiftsOfFour(e, Shifts(e, c, 4));
  }

  lemma {:induction false} ShiftsAdd<R, S>(a: Register<R, S>, c: R, m: nat, n: nat)
    ensures Shifts(a, c, m + n) == Shifts(a, Shifts(a, c, m), n)
    decreases n
  {
    if n > 0 {
      ShiftsAdd(a, c, m, n - 1);
    }
  }

  lemma StepIsBits<R(!new)>(a: Register<R, bv8>, e: Register<R, bool>, p: Spelling, c: R, b: bv8)
    requires Refines(a, e, p)
    ensures Fold(e, c, p.bits(b)) == Step(a, c, b)
  {
    FoldPacked(e, c, p.bits(b));
    ShiftsOfEight(e, e.xor(c, Pack(e, p.bits(b))));
  }

  /** A message's bytes leave the register as its bits do. */
  lemma {:induction false} FoldIsBits<R(!new)>(a: Register<R, bv8>, e: Register<R, bool>, p: Spelling, c: R, m: seq<bv8>)
    requires Refines(a, e, p)
    ensures Fold(e, c, BitsOf(p, m)) == Fold(a, c, m)
    decreases |m|
  {
    if m != [] {
      var k := |m| - 1;
      FoldIsBits(a, e, p, c, m[..k]);
      FoldSplits(e, c, BitsOf(p, m[..k]), p.bits(m[k]));
      StepIsBits(a, e, p, Fold(a, c, m[..k]), m[k]);
    }
  }

  lemma EightElements<T>(w: seq<T>)
    requires |w| == 8
    ensures w == [w[0], w[1], w[2], w[3], w[4], w[5], w[6], w[7]]
  {}

  lemma EightBitsEach(p: Spelling, b: bv8)
    requires IsSpelling(p)
    ensures |p.bits(b)| == 8
  {}

  lemma {:induction false} BitsAreMany(p: Spelling, m: seq<bv8>)
    requires IsSpelling(p)
    ensures |BitsOf(p, m)| == 8 * |m|
    decreases |m|
  {
    if m != [] {
      BitsAreMany(p, m[..|m| - 1]);
      EightBitsEach(p, m[|m| - 1]);
    }
  }

  lemma {:induction false} BytesSpelled(p: Spelling, w: seq<bool>, n: nat)
    requires IsSpelling(p) && |w| == 8 * n
    ensures |BytesOf(p, w)| == n && BitsOf(p, BytesOf(p, w)) == w
    decreases n
  {
    if n > 0 {
      var u, last := w[..|w| - 8], w[|w| - 8..];
      BytesSpelled(p, u, n - 1);
      assert BytesOf(p, w)[..n - 1] == BytesOf(p, u) && p.bits(p.byte(last)) == last;
      assert w == u + last;
    }
  }

  lemma {:induction false} BitsAreApart(p: Spelling, m: seq<bv8>, n: seq<bv8>)
    requires IsSpelling(p) && |m| == |n| && BitsOf(p, m) == BitsOf(p, n)
    ensures m == n
    decreases |m|
  {
    if m != [] {
      var k := |m| - 1;
      BitsAreMany(p, m[..k]);
      BitsAreMany(p, n[..k]);
      TailsAreEqual(BitsOf(p, m[..k]), p.bits(m[k]), BitsOf(p, n[..k]), p.bits(n[k]));
      BitsAreApart(p, m[..k], n[..k]);
      assert p.byte(p.bits(m[k])) == m[k] && p.byte(p.bits(n[k])) == n[k];
      assert m == m[..k] + [m[k]] && n == n[..k] + [n[k]];
    }
  }

  lemma TailsAreEqual<T>(a: seq<T>, b: seq<T>, c: seq<T>, d: seq<T>)
    requires |a| == |c| && a + b == c + d
    ensures a == c && b == d
  {
    assert (a + b)[..|a|] == a && (c + d)[..|c|] == c;
    assert (a + b)[|a|..] == b && (c + d)[|c|..] == d;
  }

  /** If the bytes that fill the register pack apart, so do the bits. */
  lemma BitsPackApart<R(!new)>(a: Register<R, bv8>, e: Register<R, bool>, p: Spelling)
    requires Refines(a, e, p) && PacksApart(a)
    ensures PacksApart(e)
  {
    forall w, v | |w| == |v| == e.width && Pack(e, w) == Pack(e, v) ensures w == v {
      var x, y := BytesOf(p, w), BytesOf(p, v);
      BytesSpelled(p, w, a.width);
      BytesSpelled(p, v, a.width);
      FoldPacked(e, e.zero, w);
      FoldPacked(e, e.zero, v);
      FoldIsBits(a, e, p, a.zero, x);
      FoldIsBits(a, e, p, a.zero, y);
      FoldPacked(a, a.zero, x);
      FoldPacked(a, a.zero, y);
      ShiftsAreInjective(a, a.xor(a.zero, Pack(a, x)), a.xor(a.zero, Pack(a, y)), a.width);
      assert a.xor(a.zero, Pack(a, x)) == a.xor(Pack(a, x), a.zero) == Pack(a, x);
      assert a.xor(a.zero, Pack(a, y)) == a.xor(Pack(a, y), a.zero) == Pack(a, y);
    }
  }

  /** Any change confined to as many adjacent bits as the register has, at any bit, changes the register. */
  lemma BitBurstDetected<R(!new)>(
      a: Register<R, bv8>, e: Register<R, bool>, p: Spelling, c: R, m: seq<bv8>, n: seq<bv8>, i: nat)
    requires Refines(a, e, p) && PacksApart(a) && |m| == |n| && m != n
    requires SameOutside(BitsOf(p, m), BitsOf(p, n), i, e.width)
    ensures Fold(a, c, m) != Fold(a, c, n)
  {
    BitsPackApart(a, e, p);
    BitsAreMany(p, m);
    BitsAreMany(p, n);
    if BitsOf(p, m) == BitsOf(p, n) {
      BitsAreApart(p, m, n);
    } else {
      BurstDetected(e, c, BitsOf(p, m), BitsOf(p, n), i);
      FoldIsBits(a, e, p, c, m);
      FoldIsBits(a, e, p, c, n);
    }
  }

  predicate SameOutside(x: seq<bool>, y: seq<bool>, i: nat, width: nat) {
    |x| == |y| && forall j | 0 <= j < |x| && !(i <= j < i + width) :: x[j] == y[j]
  }

  /** Eight parked bits, given as the values they are. */
  lemma PackedAs<R>(a: Register<R, bool>, w: seq<bool>, ps: seq<R>)
    requires |w| == |ps| == 8 && forall j: nat | j < 8 :: a.park(j, w[j]) == ps[j]
    ensures Pack(a, w)
            == a.xor(a.xor(a.xor(a.xor(a.xor(a.xor(a.xor(a.xor(a.zero, ps[0]), ps[1]), ps[2]), ps[3]), ps[4]), ps[5]), ps[6]), ps[7])
  {
    PackOfEight(a, w);
  }

  lemma PackOfEight<R>(a: Register<R, bool>, w: seq<bool>)
    requires |w| == 8
    ensures Pack(a, w)
            == a.xor(a.xor(a.xor(a.xor(Pack(a, w[..4]), a.park(4, w[4])), a.park(5, w[5])), a.park(6, w[6])), a.park(7, w[7]))
    ensures Pack(a, w[..4])
            == a.xor(a.xor(a.xor(a.xor(a.zero, a.park(0, w[0])), a.park(1, w[1])), a.park(2, w[2])), a.park(3, w[3]))
  {
    PackOfFour(a, w[..4]);
    assert w[..7][..6] == w[..6] && w[..6][..5] == w[..5] && w[..5][..4] == w[..4];
    assert Pack(a, w[..5]) == a.xor(Pack(a, w[..4]), a.park(4, w[4]));
    assert Pack(a, w[..6]) == a.xor(Pack(a, w[..5]), a.park(5, w[5]));
    assert Pack(a, w[..7]) == a.xor(Pack(a, w[..6]), a.park(6, w[6]));
  }

  // ----- a byte at a time, by table

  /** A byte's worth of shifting is a table entry for the low byte combined with the rest. */
  datatype Table<!R> = Table(entry: bv8 -> R, low: R -> bv8, rest: R -> R)

  ghost predicate GoesByTable<R(!new)>(a: Register<R, bv8>, t: Table<R>) {
    && (forall x :: a.shift(x) == a.xor(t.entry(t.low(x)), t.rest(x)))
    && (forall x, b :: t.rest(a.xor(x, a.park(0, b))) == t.rest(x))
  }

  function TableStep<R>(a: Register<R, bv8>, t: Table<R>, c: R, b: bv8): R {
    a.xor(t.entry(t.low(a.xor(c, a.park(0, b)))), t.rest(c))
  }

  lemma FoldByTable<R(!new)>(a: Register<R, bv8>, t: Table<R>, c: R, m: seq<bv8>, k: nat)
    requires GoesByTable(a, t) && k < |m|
    ensures Fold(a, c, m[..k + 1]) == TableStep(a, t, Fold(a, c, m[..k]), m[k])
  {
    assert m[..k + 1][..k] == m[..k];
  }

  ghost predicate Holds<R(!new)>(table: seq<R>, t: Table<R>) {
    |table| == 256 && forall b: bv8 {:trigger t.entry(b)} :: b as int < 256 && table[b as int] == t.entry(b)
  }

  /** The loop over a message by lookups in an array that holds the table. */
  method FoldWithArray<R(!new)>(a: Register<R, bv8>, t: Table<R>, table: array<R>, c: R, m: seq<bv8>) returns (r: R)
    requires GoesByTable(a, t) && Holds(table[..], t)
    ensures r == Fold(a, c, m)
  {
    r := c;
    for i := 0 to |m|
      invariant r == Fold(a, c, m[..i])
    {
      FoldByTable(a, t, c, m, i);
      var index := t.low(a.xor(r, a.park(0, m[i])));
      assert table[..][index as int] == t.entry(index);
      r := a.xor(table[index as int], t.rest(r));
    }
    assert m[..|m|] == m;
  }
}
