/** The slots a fixed pool hands out: fresh ones in order, and freed ones again. */
module PoolSlots {
  import opened Options

  const WORD: int := 0x1_0000_0000_0000_0000

  type Count = n: nat | n < WORD

  function Unsigned(n: int): Count {
    if 0 <= n < WORD then n else n % WORD
  }

  /** The pool's own fields; a slot is its distance from the start of the storage. */
  datatype State = State(storage: bool, size: Count, used: Count, free: seq<int>)
  {
    /** What get gives: the first freed slot, else the next fresh one. */
    function Next(): Option<int> {
      if free != [] then Some(free[0])
      else if storage && used < size then Some(used)
      else None
    }

    function Taken(): State {
      if free != [] then this.(free := free[1..])
      else if storage && used < size then this.(used := used + 1)
      else this
    }

    function Released(slot: int): State {
      this.(free := free + [slot])
    }

    function Reused(slot: int): State {
      this.(free := [slot] + free)
    }

    function Cleared(): State {
      this.(used := 0, free := [])
    }

    /** How many slots the pool counts as handed out, and how many it counts as left; both unsigned. */
    function Size(): Count {
      Unsigned(used - |free|)
    }

    function Free(): Count {
      Unsigned(size - used + |free|)
    }

    predicate Empty() {
      !storage || (used >= size && free == [])
    }
  }

  datatype Event = Take | Release(slot: int) | Reuse(slot: int) | Clear

  /** The pool and the slots its clients hold. */
  datatype Run = Run(pool: State, held: set<int>)

  /** Clients give back only what they hold. */
  predicate Allowed(r: Run, e: Event) {
    match e
    case Release(slot) => slot in r.held
    case Reuse(slot) => slot in r.held
    case _ => true
  }

  function Step(r: Run, e: Event): Run {
    match e
    case Take => Run(r.pool.Taken(), if r.pool.Next().Some? then r.held + {r.pool.Next().value} else r.held)
    case Release(slot) => Run(r.pool.Released(slot), r.held - {slot})
    case Reuse(slot) => Run(r.pool.Reused(slot), r.held - {slot})
    case Clear => Run(r.pool.Cleared(), {})
  }

  function Start(size: Count): Run {
    Run(State(true, size, 0, []), {})
  }

  function After(size: Count, es: seq<Event>): Run {
    if es == [] then Start(size) else Step(After(size, es[..|es| - 1]), es[|es| - 1])
  }

  predicate Disciplined(size: Count, es: seq<Event>) {
    es == [] || (Disciplined(size, es[..|es| - 1]) && Allowed(After(size, es[..|es| - 1]), es[|es| - 1]))
  }

  /** Each slot used so far is either held or free, once. */
  ghost predicate Inv(r: Run) {
    && r.pool.storage && r.pool.used <= r.pool.size
    && |r.held| + |r.pool.free| == r.pool.used
    && (forall x :: 0 <= x < r.pool.used <==> x in r.held || x in r.pool.free)
    && (forall x | x in r.pool.free :: x !in r.held)
    && (forall i, j | 0 <= i < j < |r.pool.free| :: r.pool.free[i] != r.pool.free[j])
  }

  lemma TakeKeepsInv(r: Run)
    requires Inv(r)
    ensures Inv(Step(r, Take))
  {
    var free := r.pool.free;
    if free != [] {
      var rest := free[1..];
      assert free == [free[0]] + rest;
      assert forall x :: x in free <==> x == free[0] || x in rest;
      assert forall i | 0 <= i < |rest| :: rest[i] == free[i + 1];
    }
  }

  lemma ReleaseKeepsInv(r: Run, slot: int)
    requires Inv(r) && slot in r.held
    ensures Inv(Step(r, Release(slot)))
  {
    assert Step(r, Release(slot)).pool.free[|r.pool.free|] == slot;
  }

  lemma ReuseKeepsInv(r: Run, slot: int)
    requires Inv(r) && slot in r.held
    ensures Inv(Step(r, Reuse(slot)))
  {
    var free := r.pool.free;
    var free' := Step(r, Reuse(slot)).pool.free;
    assert free'[0] == slot && free'[1..] == free;
    forall i, j | 0 <= i < j < |free'| ensures free'[i] != free'[j] {
      assert free'[j] == free[j - 1];
      assert i > 0 ==> free'[i] == free[i - 1];
    }
  }

  lemma StepKeepsInv(r: Run, e: Event)
    requires Inv(r) && Allowed(r, e)
    ensures Inv(Step(r, e)) && Step(r, e).pool.size == r.pool.size
  {
    match e {
      case Take => TakeKeepsInv(r);
      case Release(slot) => ReleaseKeepsInv(r, slot);
      case Reuse(slot) => ReuseKeepsInv(r, slot);
      case Clear =>
    }
  }

  lemma {:induction false} RunKeepsInv(size: Count, es: seq<Event>)
    requires Disciplined(size, es)
    ensures Inv(After(size, es)) && After(size, es).pool.size == size
    decreases |es|
  {
    if es != [] {
      RunKeepsInv(size, es[..|es| - 1]);
      StepKeepsInv(After(size, es[..|es| - 1]), es[|es| - 1]);
    }
  }

  // ----- main results

  /** While clients release only what they hold, no slot is handed out that someone holds. */
  lemma NeverHandsOutAHeldSlot(size: Count, es: seq<Event>)
    requires Disciplined(size, es) && After(size, es).pool.Next().Some?
    ensures After(size, es).pool.Next().value !in After(size, es).held
    ensures 0 <= After(size, es).pool.Next().value < size
  {
    RunKeepsInv(size, es);
  }

  /** Held and free slots add up to the pool, and the counts say how many there are. */
  lemma SlotsAreConserved(size: Count, es: seq<Event>)
    requires Disciplined(size, es)
    ensures var r := After(size, es);
      r.pool.Size() == |r.held| && r.pool.Size() + r.pool.Free() == size
  {
    RunKeepsInv(size, es);
  }

  /** get fails exactly when every slot is held, which is what empty tells. */
  lemma ExhaustedIffAllHeld(size: Count, es: seq<Event>)
    requires Disciplined(size, es)
    ensures var r := After(size, es);
      (r.pool.Next().None? <==> |r.held| == size) && (r.pool.Empty() <==> r.pool.Next().None?)
  {
    RunKeepsInv(size, es);
  }

  /** The slots that `n` calls of get give. */
  function Takes(p: State, n: nat): seq<Option<int>>
    decreases n
  {
    if n == 0 then [] else [p.Next()] + Takes(p.Taken(), n - 1)
  }

  function Each(xs: seq<int>): seq<Option<int>> {
    if xs == [] then [] else [Some(xs[0])] + Each(xs[1..])
  }

  lemma {:induction false} TakesGiveTheFreed(p: State)
    ensures Takes(p, |p.free|) == Each(p.free)
    decreases |p.free|
  {
    if p.free != [] {
      TakesGiveTheFreed(p.Taken());
    }
  }

  lemma {:induction false} EachOfTwo(xs: seq<int>, ys: seq<int>)
    ensures Each(xs + ys) == Each(xs) + Each(ys)
  {
    if xs == [] {
      assert xs + ys == ys;
    } else {
      assert (xs + ys)[1..] == xs[1..] + ys;
      EachOfTwo(xs[1..], ys);
    }
  }

  /** Released slots come back in the order of their release, reused ones at once. */
  lemma FreedComeBackInOrder(p: State, slot: int)
    ensures Takes(p.Released(slot), |p.free| + 1) == Takes(p, |p.free|) + [Some(slot)]
    ensures Takes(p.Reused(slot), |p.free| + 1) == [Some(slot)] + Takes(p, |p.free|)
    ensures p.Reused(slot).Taken() == p
  {
    TakesGiveTheFreed(p);
    TakesGiveTheFreed(p.Released(slot));
    TakesGiveTheFreed(p.Reused(slot));
    EachOfTwo(p.free, [slot]);
    EachOfTwo([slot], p.free);
  }

  /** A slot released twice is handed out twice, and the count of slots handed out wraps. */
  lemma DoubleReleaseExample()
    ensures var r := After(1, [Take, Release(0), Release(0)]);
      && !Disciplined(1, [Take, Release(0), Release(0)])
      && r.pool.Size() == WORD - 1
      && Takes(r.pool, 2) == [Some(0), Some(0)]
  {
    var es := [Take, Release(0), Release(0)];
    assert es[..2] == [Take, Release(0)] && es[..2][..1] == [Take] && es[..2][..1][..0] == [];
    var r1 := After(1, es[..2][..1]);
    assert After(1, []) == Start(1);
    assert r1.pool == State(true, 1, 1, []) && r1.held == {0};
    var r2 := After(1, es[..2]);
    assert r2.pool == State(true, 1, 1, [0]) && r2.held == {};
    var r3 := After(1, es);
    assert r3.pool.free == [0, 0];
    TakesGiveTheFreed(r3.pool);
    assert r3.pool.free[1..] == [0];
    assert Each([0, 0]) == [Some(0)] + Each([0, 0][1..]);
  }
}

module Pool {
  import opened Options
  import opened PoolSlots

  class Pool {
    const storage: bool
    const size: Count
    var used: Count
    var free: seq<int>

    function Abstract(): State
      reads this
    {
      State(storage, size, used, free)
    }

    constructor (storage: bool, size: Count)
      ensures Abstract() == State(storage, size, 0, [])
    {
      this.storage, this.size, used, free := storage, size, 0, [];
    }

    /** No slot stands for the exception when the pool is exhausted. */
    method Get() returns (slot: Option<int>)
      modifies this
      ensures slot == old(Abstract()).Next() && Abstract() == old(Abstract()).Taken()
    {
      if free != [] {
        slot := Some(free[0]);
        free := free[1..];
      } else if storage && used < size {
        slot := Some(used);
        used := used + 1;
      } else {
        slot := None;
      }
    }

    method GetOr(orElse: int) returns (slot: int)
      modifies this
      ensures slot == (match old(Abstract()).Next() case Some(x) => x case None => orElse)
      ensures Abstract() == old(Abstract()).Taken()
    {
      if free != [] {
        slot := free[0];
        free := free[1..];
        return;
      }
      if storage && used < size {
        slot := used;
        used := used + 1;
        return;
      }
      slot := orElse;
    }

    method Release(slot: int)
      modifies this
      ensures Abstract() == old(Abstract()).Released(slot)
    {
      free := free + [slot];
    }

    method Reuse(slot: int)
      modifies this
      ensures Abstract() == old(Abstract()).Reused(slot)
    {
      free := [slot] + free;
    }

    method Clear()
      modifies this
      ensures Abstract() == old(Abstract()).Cleared()
    {
      used, free := 0, [];
    }
  }
}
