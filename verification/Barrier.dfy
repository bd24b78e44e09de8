/**
 `barrier_t` used through `wait`: threads arrive, the one that completes a generation of `limit`
 arrivals passes and wakes the others. `arrivals`, `generation` and the generation in a ticket are
 history: they count without bound what the object only keeps in 32 bits.
 */
module BarrierProtocol {

  type Thread = nat

  const MODULUS := 0x1_0000_0000

  datatype Ticket = Ticket(sequence: nat, generation: nat)

  datatype State = State(
    count: nat,                    // count_
    sequence: nat,                 // sequence_
    limit: nat,                    // limit_
    waiting: map<Thread, Ticket>,  // threads inside wait, with the sequence they captured
    arrivals: nat,                 // calls of wait that were counted
    generation: nat)               // completed generations

  datatype Event =
    | Arrive(t: Thread, passed: bool)
    | Leave(t: Thread)

  function Successor(n: nat): nat {
    if n + 1 == MODULUS then 0 else n + 1
  }

  // ----- the lock-held regions

  function Arrived(s: State, t: Thread): (State, bool) {
    if s.count == 0 then (s, true)
    else if s.count == 1 then
      (s.(count := s.limit, sequence := Successor(s.sequence), arrivals := s.arrivals + 1, generation := s.generation + 1), true)
    else
      (s.(count := s.count - 1, arrivals := s.arrivals + 1, waiting := s.waiting[t := Ticket(s.sequence, s.generation)]), false)
  }

  /** The wait condition: the sequence is no longer the captured one. */
  predicate MayLeave(s: State, t: Thread) {
    t in s.waiting && s.waiting[t].sequence != s.sequence
  }

  // ----- runs

  ghost predicate Init(s: State) {
    s.limit < MODULUS && s == State(s.limit, 0, s.limit, map[], 0, 0)
  }

  ghost predicate Next(s: State, e: Event, s': State) {
    match e
    case Arrive(t, passed) => t !in s.waiting && (s', passed) == Arrived(s, t)
    case Leave(t) => MayLeave(s, t) && s' == s.(waiting := s.waiting - {t})
  }

  ghost predicate IsRun(ss: seq<State>, es: seq<Event>) {
    && |ss| == |es| + 1
    && Init(ss[0])
    && forall i {:trigger es[i]} | 0 <= i < |es| :: Next(ss[i], es[i], ss[i + 1])
  }

  // ----- what every step keeps

  /** The threads waiting for the generation that is not complete yet. */
  ghost function Current(s: State): set<Thread> {
    set t | t in s.waiting && s.waiting[t].generation == s.generation
  }

  ghost predicate Inv(s: State) {
    && 0 < s.count <= s.limit < MODULUS
    && s.arrivals == s.generation * s.limit + (s.limit - s.count)
    && s.sequence == s.generation % MODULUS
    && |Current(s)| == s.limit - s.count
    && forall t | t in s.waiting ::
         s.waiting[t].generation <= s.generation && s.waiting[t].sequence == s.waiting[t].generation % MODULUS
  }

  lemma CurrentAfterArrival(s: State, e: Event, s': State)
    requires Inv(s) && Next(s, e, s')
    ensures |Current(s')| == s'.limit - s'.count
  {
    match e {
      case Arrive(t, passed) =>
        if passed {
          assert Current(s') == {};
        } else {
          assert Current(s') == Current(s) + {t};
        }
      case Leave(t) =>
        assert Current(s') == Current(s);
    }
  }

  lemma SuccessorIsModular(n: nat)
    ensures Successor(n % MODULUS) == (n + 1) % MODULUS
  {}

  lemma ArrivalsStep(generation: nat, limit: nat)
    ensures (generation + 1) * limit == generation * limit + limit
  {}

  lemma StepKeepsInv(s: State, e: Event, s': State)
    requires Inv(s) && Next(s, e, s')
    ensures Inv(s')
  {
    CurrentAfterArrival(s, e, s');
    ArrivalsStep(s.generation, s.limit);
    SuccessorIsModular(s.generation);
  }

  lemma {:induction false} RunKeepsInv(ss: seq<State>, es: seq<Event>, i: nat)
    requires IsRun(ss, es) && i <= |es| && ss[0].limit > 0
    ensures Inv(ss[i]) && ss[i].limit == ss[0].limit
  {
    if i == 0 {
      assert Current(ss[0]) == {};
    } else {
      RunKeepsInv(ss, es, i - 1);
      StepKeepsInv(ss[i - 1], es[i - 1], ss[i]);
    }
  }

  // ----- main results

  lemma QuotientIs(a: nat, n: nat, q: nat, r: nat)
    requires r < n && a == q * n + r
    ensures a / n == q && a % n == r
  {
    var d: int := a / n - q;
    assert d * n == (a / n) * n - q * n;
    assert d >= 1 ==> d * n >= n;
    assert d <= -1 ==> d * n + n <= 0;
  }

  /**
   After A arrivals with limit L > 0, count_ is L - A mod L, sequence_ is A div L in 32 bits, and
   exactly A mod L threads wait for the generation in progress.
   */
  lemma CountsFollowArrivals(ss: seq<State>, es: seq<Event>, i: nat)
    requires IsRun(ss, es) && i <= |es| && ss[0].limit > 0
    ensures ss[i].generation == ss[i].arrivals / ss[0].limit
    ensures ss[i].count == ss[0].limit - ss[i].arrivals % ss[0].limit
    ensures ss[i].sequence == ss[i].arrivals / ss[0].limit % MODULUS
    ensures |Current(ss[i])| == ss[i].arrivals % ss[0].limit
  {
    RunKeepsInv(ss, es, i);
    QuotientIs(ss[i].arrivals, ss[0].limit, ss[i].generation, ss[0].limit - ss[i].count);
  }

  /** No thread of generation g leaves before arrival (g + 1) * L. */
  lemma NobodyLeavesEarly(ss: seq<State>, es: seq<Event>, i: nat, t: Thread)
    requires IsRun(ss, es) && i < |es| && es[i] == Leave(t) && ss[0].limit > 0
    ensures t in ss[i].waiting
    ensures ss[i].arrivals >= (ss[i].waiting[t].generation + 1) * ss[0].limit
  {
    RunKeepsInv(ss, es, i);
    assert Next(ss[i], es[i], ss[i + 1]);
    TimesKeepsOrder(ss[i].waiting[t].generation + 1, ss[i].generation, ss[0].limit);
  }

  lemma TimesKeepsOrder(a: nat, b: nat, n: nat)
    requires a <= b
    ensures a * n <= b * n
  {}

  /** The arrival that passes completes its generation, and every thread waiting in it may leave at once. */
  lemma PassingFreesTheGeneration(ss: seq<State>, es: seq<Event>, i: nat)
    requires IsRun(ss, es) && i < |es| && es[i].Arrive? && ss[0].limit > 0
    ensures es[i].passed <==> ss[i + 1].arrivals % ss[0].limit == 0
    ensures es[i].passed ==> |Current(ss[i])| == ss[0].limit - 1 && forall t | t in Current(ss[i]) :: MayLeave(ss[i + 1], t)
    ensures !es[i].passed ==> es[i].t in ss[i + 1].waiting && !MayLeave(ss[i + 1], es[i].t)
  {
    RunKeepsInv(ss, es, i);
    CountsFollowArrivals(ss, es, i + 1);
    RunKeepsInv(ss, es, i + 1);
    assert Next(ss[i], es[i], ss[i + 1]);
  }

  /**
   A waiting thread may leave exactly when the number of generations completed differs from its
   own in the 32 bits kept: at once after its generation, but not while exactly a multiple of
   2^32 of them have gone by.
   */
  lemma MayLeaveIff(ss: seq<State>, es: seq<Event>, i: nat, t: Thread)
    requires IsRun(ss, es) && i <= |es| && ss[0].limit > 0 && t in ss[i].waiting
    ensures MayLeave(ss[i], t) <==>
            (ss[i].arrivals / ss[0].limit - ss[i].waiting[t].generation) % MODULUS != 0
  {
    RunKeepsInv(ss, es, i);
    CountsFollowArrivals(ss, es, i);
    SameResidue(ss[i].generation, ss[i].waiting[t].generation);
  }

  lemma SameResidue(a: nat, b: nat)
    requires b <= a
    ensures (a - b) % MODULUS == 0 <==> a % MODULUS == b % MODULUS
  {}

  /** A barrier with limit zero lets everyone through. */
  lemma {:induction false} ZeroLimitNeverBlocks(ss: seq<State>, es: seq<Event>, i: nat)
    requires IsRun(ss, es) && i <= |es| && ss[0].limit == 0
    ensures ss[i] == ss[0]
    ensures i < |es| ==> es[i].Arrive? && es[i].passed
  {
    if i > 0 {
      ZeroLimitNeverBlocks(ss, es, i - 1);
    }
  }
}

/** The object: one method per lock-held region, each tied to the protocol's function. */
module Barrier {
  import opened BarrierProtocol

  class Barrier {
    var count: nat
    var sequence: nat
    var limit: nat
    ghost var waiting: map<Thread, Ticket>
    ghost var arrivals: nat
    ghost var generation: nat

    ghost function Abstract(): State
      reads this
    {
      State(count, sequence, limit, waiting, arrivals, generation)
    }

    constructor (limit: nat)
      requires limit < MODULUS
      ensures Init(Abstract()) && this.limit == limit
    {
      count, sequence, this.limit, waiting, arrivals, generation := limit, 0, limit, map[], 0, 0;
    }

    /** wait up to its block: the captured sequence if the thread has to block. */
    method Arrive(t: Thread) returns (passed: bool, captured: nat)
      requires t !in waiting
      modifies this
      ensures Next(old(Abstract()), Event.Arrive(t, passed), Abstract())
      ensures !passed ==> t in waiting && waiting[t].sequence == captured
    {
      captured := sequence;
      if count == 0 {
        return true, captured;
      }
      arrivals := arrivals + 1;
      count := count - 1;
      if count == 0 {
        sequence := Successor(sequence);
        generation := generation + 1;
        count := limit;
        return true, captured;
      }
      waiting := waiting[t := Ticket(captured, generation)];
      passed := false;
    }
  }
}
