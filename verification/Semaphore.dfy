/**
 `semaphore_t`: a counting semaphore that remembers which threads hold it. Every lock-held region
 is one step; a queued thread may re-test its wait condition at any time, as after a spurious
 wakeup, and a timed one may give up at any time.
 */
module SemaphoreProtocol {
  import opened Options

  const MODULUS := 0x1_0000_0000
  /** The count that means cancelled: all bits set. */
  const CANCELLED := 0xFFFF_FFFF

  /** Thread identities; a process has fewer of them than an unsigned can count. */
  type Thread = t: nat | t < CANCELLED

  datatype Form = Acquire | TryAcquire | TryTimed

  datatype Outcome = Admitted | Refused | Thrown

  datatype State = State(
    count: nat,                  // count_
    active: nat,                 // active_
    holders: set<Thread>,        // threads_
    queued: map<Thread, Form>,   // threads inside an acquire wait
    draining: set<Thread>)       // threads inside wait()

  datatype Event =
    | Enter(t: Thread, form: Form, result: Option<Outcome>)  // None: the thread queues
    | Wake(t: Thread, outcome: Outcome)                      // a queued thread sees active_ <= count_
    | Timeout(t: Thread)                                     // a timed one gives up
    | Release(t: Thread)
    | Reset
    | WaitBegin(t: Thread, returned: bool)
    | WaitEnd(t: Thread)
    | Resize(count: nat)

  function Increment(n: nat): nat {
    if n + 1 == MODULUS then 0 else n + 1
  }

  function Decrement(n: nat): nat {
    if n == 0 then MODULUS - 1 else n - 1
  }

  // ----- the lock-held regions

  function InitialCount(count: nat, hardware: nat): nat {
    if count > 0 then count else if hardware > 0 then hardware else 1
  }

  /** A thread whose wait condition holds: it is cancelled or becomes a holder. */
  function Passed(s: State, t: Thread, form: Form): (State, Outcome) {
    if s.count == CANCELLED then
      (s.(active := Decrement(s.active)), if form.TryAcquire? then Refused else Thrown)
    else (s.(holders := s.holders + {t}), Admitted)
  }

  function Entered(s: State, t: Thread, form: Form): (State, Option<Outcome>) {
    if t in s.holders then (s, Some(if form.Acquire? then Thrown else Refused))
    else
      var s1 := s.(active := Increment(s.active));
      if s1.active <= s1.count then
        var (s2, outcome) := Passed(s1, t, form);
        (s2, Some(outcome))
      else (s1.(queued := s1.queued[t := form]), None)
  }

  function Woken(s: State, t: Thread): (State, Outcome)
    requires t in s.queued
  {
    Passed(s.(queued := s.queued - {t}), t, s.queued[t])
  }

  function TimedOut(s: State, t: Thread): State {
    s.(queued := s.queued - {t}, active := Decrement(s.active))
  }

  function Released(s: State, t: Thread): State {
    if t !in s.holders then s
    else s.(holders := s.holders - {t}, active := if s.active > 0 then Decrement(s.active) else s.active)
  }

  /** wait(): a holder returns at once; anyone else cancels the semaphore and waits for active_ == 0. */
  function Waited(s: State, t: Thread): (State, bool) {
    if t in s.holders then (s, true)
    else
      var s1 := s.(count := CANCELLED);
      if s.active == 0 then (s1, true) else (s1.(draining := s1.draining + {t}), false)
  }

  // ----- runs

  ghost predicate Init(s: State) {
    0 < s.count < MODULUS && s == State(s.count, 0, {}, map[], {})
  }

  /** A thread inside a wait does nothing else. */
  predicate IsFree(s: State, t: Thread) {
    t !in s.queued && t !in s.draining
  }

  ghost predicate Next(s: State, e: Event, s': State) {
    match e
    case Enter(t, form, result) => IsFree(s, t) && (s', result) == Entered(s, t, form)
    case Wake(t, result) => t in s.queued && s.active <= s.count && (s', result) == Woken(s, t)
    case Timeout(t) => t in s.queued && s.queued[t].TryTimed? && s.active > s.count && s' == TimedOut(s, t)
    case Release(t) => IsFree(s, t) && s' == Released(s, t)
    case Reset => s' == s.(count := CANCELLED)
    case WaitBegin(t, returned) => IsFree(s, t) && (s', returned) == Waited(s, t)
    case WaitEnd(t) => t in s.draining && s.active == 0 && s' == s.(draining := s.draining - {t})
    case Resize(count) => count < MODULUS && s' == s.(count := count)
  }

  ghost predicate IsRun(ss: seq<State>, es: seq<Event>) {
    && |ss| == |es| + 1
    && Init(ss[0])
    && forall i {:trigger es[i]} | 0 <= i < |es| :: Next(ss[i], es[i], ss[i + 1])
  }

  predicate Admits(e: Event) {
    match e
    case Enter(_, _, Some(Admitted)) => true
    case Wake(_, Admitted) => true
    case _ => false
  }

  // ----- what every step keeps

  ghost predicate Inv(s: State) {
    && s.count < MODULUS
    && s.holders !! s.queued.Keys
    && s.active == |s.holders| + |s.queued|
  }

  lemma {:induction false} BoundedSet(s: set<Thread>, n: nat)
    requires forall t | t in s :: t < n
    ensures |s| <= n
  {
    if n == 0 {
      assert s == {};
    } else {
      var m: int := n - 1;
      var rest := set t | t in s && t != m;
      BoundedSet(rest, n - 1);
      if m < CANCELLED {
        assert s <= rest + {m};
      } else {
        assert s <= rest;
      }
      SubsetSize(s, rest, n);
    }
  }

  lemma SubsetSize(s: set<Thread>, rest: set<Thread>, n: nat)
    requires n > 0 && |rest| <= n - 1 && rest <= s && forall t | t in s && t !in rest :: t == n - 1
    ensures |s| <= n
  {
    if t :| t in s && t !in rest {
      assert s == rest + {t};
    } else {
      assert s == rest;
    }
  }

  /** active_ never wraps: there are not enough threads. */
  lemma ActiveInRange(s: State)
    requires Inv(s)
    ensures s.active <= CANCELLED
    ensures forall t: Thread | t !in s.holders && t !in s.queued :: s.active < CANCELLED
  {
    var all := s.holders + s.queued.Keys;
    BoundedSet(all, CANCELLED);
    assert |all| == |s.holders| + |s.queued.Keys|;
    assert |s.queued.Keys| == |s.queued|;
    forall t: Thread | t !in s.holders && t !in s.queued ensures s.active < CANCELLED {
      RoomForOneMore(all, t);
    }
  }

  lemma RoomForOneMore(all: set<Thread>, t: Thread)
    requires t !in all
    ensures |all| < CANCELLED
  {
    BoundedSet(all + {t}, CANCELLED);
    assert |all + {t}| == |all| + 1;
  }

  lemma PassKeepsInv(s: State, t: Thread, form: Form)
    requires s.count < MODULUS && s.holders !! s.queued.Keys && t !in s.holders && t !in s.queued
    requires s.active == |s.holders| + |s.queued| + 1 <= CANCELLED
    ensures Inv(Passed(s, t, form).0)
  {}

  lemma StepKeepsInv(s: State, e: Event, s': State)
    requires Inv(s) && Next(s, e, s')
    ensures Inv(s')
  {
    ActiveInRange(s);
    match e {
      case Enter(t, form, result) =>
        if t !in s.holders {
          PassKeepsInv(s.(active := s.active + 1), t, form);
        }
      case Wake(t, result) =>
        assert (s.queued - {t}).Keys == s.queued.Keys - {t};
        assert |s.queued - {t}| == |s.queued| - 1;
        PassKeepsInv(s.(queued := s.queued - {t}), t, s.queued[t]);
      case Timeout(t) =>
        assert (s.queued - {t}).Keys == s.queued.Keys - {t};
        assert |s.queued - {t}| == |s.queued| - 1;
      case _ =>
    }
  }

  // ----- main results

  /** On every run active_ counts exactly the holders and the queued threads, and never wraps. */
  lemma {:induction false} ActiveIsHoldersPlusQueued(ss: seq<State>, es: seq<Event>, i: nat)
    requires IsRun(ss, es) && i <= |es|
    ensures ss[i].active == |ss[i].holders| + |ss[i].queued| <= CANCELLED
    ensures Inv(ss[i])
  {
    if i > 0 {
      ActiveIsHoldersPlusQueued(ss, es, i - 1);
      StepKeepsInv(ss[i - 1], es[i - 1], ss[i]);
    }
    ActiveInRange(ss[i]);
  }

  /** A thread is admitted only when it and everyone holding or queued fit within the count. */
  lemma AdmissionRespectsCount(ss: seq<State>, es: seq<Event>, i: nat)
    requires IsRun(ss, es) && i < |es| && Admits(es[i])
    ensures es[i].t in ss[i + 1].holders && es[i].t !in ss[i].holders
    ensures |ss[i + 1].holders| + |ss[i + 1].queued| <= ss[i + 1].count < CANCELLED
  {
    ActiveIsHoldersPlusQueued(ss, es, i);
    ActiveIsHoldersPlusQueued(ss, es, i + 1);
    assert Next(ss[i], es[i], ss[i + 1]);
  }

  /** As long as no resize lowers the count, there are never more holders than the count. */
  lemma {:induction false} HoldersWithinCount(ss: seq<State>, es: seq<Event>, i: nat)
    requires IsRun(ss, es) && i <= |es|
    requires forall k | 0 <= k < i && es[k].Resize? :: ss[k].count <= es[k].count
    ensures |ss[i].holders| <= ss[i].count
  {
    if i > 0 {
      HoldersWithinCount(ss, es, i - 1);
      ActiveIsHoldersPlusQueued(ss, es, i - 1);
      ActiveIsHoldersPlusQueued(ss, es, i);
      HoldersStayWithin(ss[i - 1], es[i - 1], ss[i]);
    }
  }

  lemma HoldersStayWithin(s: State, e: Event, s': State)
    requires Inv(s) && Inv(s') && Next(s, e, s') && |s.holders| <= s.count
    requires e.Resize? ==> s.count <= e.count
    ensures |s'.holders| <= s'.count
  {
    if Admits(e) {
      ActiveInRange(s);
    } else {
      HoldersDoNotGrow(s, e, s');
    }
  }

  lemma HoldersDoNotGrow(s: State, e: Event, s': State)
    requires Inv(s) && Next(s, e, s') && !Admits(e)
    ensures s'.holders <= s.holders && |s'.holders| <= |s.holders|
    ensures e.Resize? || s'.count == s.count || s'.count == CANCELLED
  {
    assert s'.holders <= s.holders;
    if t :| t in s.holders && t !in s'.holders {
      assert s'.holders == s.holders - {t};
    }
  }

  /** A reset, or a wait by a thread that holds nothing, cancels the semaphore. */
  ghost predicate Cancels(s: State, e: Event) {
    e.Reset? || (e.WaitBegin? && e.t !in s.holders)
  }

  /** Once cancelled and until a resize, nobody is admitted any more. */
  lemma {:induction false} NobodyAdmittedAfterCancel(ss: seq<State>, es: seq<Event>, i: nat, j: nat)
    requires IsRun(ss, es) && i < j <= |es| && Cancels(ss[i], es[i])
    requires forall k | i < k < j :: !es[k].Resize?
    ensures ss[j].count == CANCELLED
    ensures j < |es| ==> !Admits(es[j])
    decreases j - i
  {
    assert Next(ss[i], es[i], ss[i + 1]);
    if i + 1 < j {
      NobodyAdmittedAfterCancel(ss, es, i, j - 1);
      ActiveIsHoldersPlusQueued(ss, es, j - 1);
      HoldersDoNotGrow(ss[j - 1], es[j - 1], ss[j]);
    }
    if j < |es| && Admits(es[j]) {
      AdmissionRespectsCount(ss, es, j);
    }
  }

  /** When wait returns to a thread that holds nothing, there is no holder and no queued thread. */
  lemma WaitReturnsWhenDrained(ss: seq<State>, es: seq<Event>, i: nat)
    requires IsRun(ss, es) && i < |es|
    requires es[i].WaitEnd? || (es[i].WaitBegin? && es[i].returned && es[i].t !in ss[i].holders)
    ensures ss[i + 1].active == 0 && ss[i + 1].holders == {} && ss[i + 1].queued == map[]
  {
    ActiveIsHoldersPlusQueued(ss, es, i);
    assert Next(ss[i], es[i], ss[i + 1]);
    assert |ss[i].holders| == 0 && |ss[i].queued| == 0;
  }

  // ----- what the events so far say of the semaphore

  /** The thread was admitted, and has not released since. */
  ghost predicate HoldsSince(es: seq<Event>, i: nat, t: Thread)
    requires i <= |es|
  {
    exists k | 0 <= k < i :: Admits(es[k]) && es[k].t == t && forall m | k < m < i :: es[m] != Release(t)
  }

  /** The thread entered in that form and was not let in, and has neither woken nor given up since. */
  ghost predicate QueuesSince(es: seq<Event>, i: nat, t: Thread, form: Form)
    requires i <= |es|
  {
    exists k | 0 <= k < i :: es[k] == Enter(t, form, None) && forall m | k < m < i :: !LeavesQueue(es[m], t)
  }

  ghost predicate LeavesQueue(e: Event, t: Thread) {
    (e.Wake? || e.Timeout?) && e.t == t
  }

  /** The last resize sets the count, unless a reset or the wait of a thread that holds nothing came later. */
  ghost function CountSince(initial: nat, es: seq<Event>, i: nat): nat
    requires i <= |es|
  {
    if i == 0 then initial
    else
      match es[i - 1]
      case Resize(count) => count
      case Reset => CANCELLED
      case WaitBegin(t, _) => if HoldsSince(es, i - 1, t) then CountSince(initial, es, i - 1) else CANCELLED
      case _ => CountSince(initial, es, i - 1)
  }

  lemma HoldsSinceStep(es: seq<Event>, i: nat, t: Thread)
    requires 0 < i <= |es|
    ensures HoldsSince(es, i, t)
            <==> (Admits(es[i - 1]) && es[i - 1].t == t) || (HoldsSince(es, i - 1, t) && es[i - 1] != Release(t))
  {
    if k :| 0 <= k < i - 1 && Admits(es[k]) && es[k].t == t && forall m | k < m < i - 1 :: es[m] != Release(t) {
      assert es[i - 1] != Release(t) ==> forall m | k < m < i :: es[m] != Release(t);
    }
  }

  lemma QueuesSinceStep(es: seq<Event>, i: nat, t: Thread, form: Form)
    requires 0 < i <= |es|
    ensures QueuesSince(es, i, t, form)
            <==> es[i - 1] == Enter(t, form, None) || (QueuesSince(es, i - 1, t, form) && !LeavesQueue(es[i - 1], t))
  {
    if k :| 0 <= k < i - 1 && es[k] == Enter(t, form, None) && forall m | k < m < i - 1 :: !LeavesQueue(es[m], t) {
      assert !LeavesQueue(es[i - 1], t) ==> forall m | k < m < i :: !LeavesQueue(es[m], t);
    }
  }

  lemma {:induction false} HoldersFollowEvents(ss: seq<State>, es: seq<Event>, i: nat, t: Thread)
    requires IsRun(ss, es) && i <= |es|
    ensures t in ss[i].holders <==> HoldsSince(es, i, t)
  {
    if i > 0 {
      HoldersFollowEvents(ss, es, i - 1, t);
      assert Next(ss[i - 1], es[i - 1], ss[i]);
      HoldsSinceStep(es, i, t);
    }
  }

  lemma {:induction false} QueueFollowsEvents(ss: seq<State>, es: seq<Event>, i: nat, t: Thread, form: Form)
    requires IsRun(ss, es) && i <= |es|
    ensures t in ss[i].queued && ss[i].queued[t] == form <==> QueuesSince(es, i, t, form)
  {
    if i > 0 {
      QueueFollowsEvents(ss, es, i - 1, t, form);
      assert Next(ss[i - 1], es[i - 1], ss[i]);
      QueuesSinceStep(es, i, t, form);
    }
  }

  lemma {:induction false} CountFollowsEvents(ss: seq<State>, es: seq<Event>, i: nat)
    requires IsRun(ss, es) && i <= |es|
    ensures ss[i].count == CountSince(ss[0].count, es, i)
  {
    if i > 0 {
      CountFollowsEvents(ss, es, i - 1);
      assert Next(ss[i - 1], es[i - 1], ss[i]);
      if es[i - 1].WaitBegin? {
        HoldersFollowEvents(ss, es, i - 1, es[i - 1].t);
      }
    }
  }

  /** In every run the holders, the queue and the count are what the admissions, releases, entries and resizes say. */
  lemma StateFollowsEvents(ss: seq<State>, es: seq<Event>, i: nat)
    requires IsRun(ss, es) && i <= |es|
    ensures forall t :: t in ss[i].holders <==> HoldsSince(es, i, t)
    ensures forall t, form :: t in ss[i].queued && ss[i].queued[t] == form <==> QueuesSince(es, i, t, form)
    ensures ss[i].count == CountSince(ss[0].count, es, i)
  {
    forall t ensures t in ss[i].holders <==> HoldsSince(es, i, t) { HoldersFollowEvents(ss, es, i, t); }
    forall t, form ensures t in ss[i].queued && ss[i].queued[t] == form <==> QueuesSince(es, i, t, form) {
      QueueFollowsEvents(ss, es, i, t, form);
    }
    CountFollowsEvents(ss, es, i);
  }

  /** What an entry comes to, as the callers see it: a holder gets nothing more, and only a full semaphore queues. */
  lemma EntryAnswersIff(ss: seq<State>, es: seq<Event>, i: nat)
    requires IsRun(ss, es) && i < |es| && es[i].Enter?
    ensures var fits := |ss[i].holders| + |ss[i].queued| < ss[i].count;
      var holds, off := HoldsSince(es, i, es[i].t), CountSince(ss[0].count, es, i) == CANCELLED;
      && (es[i].result == None <==> !holds && !fits)
      && (es[i].result == Some(Admitted) <==> !holds && fits && !off)
      && (es[i].result == Some(Thrown) <==> if holds then es[i].form.Acquire? else fits && off && !es[i].form.TryAcquire?)
      && (es[i].result == Some(Refused) <==> if holds then !es[i].form.Acquire? else fits && off && es[i].form.TryAcquire?)
  {
    HoldersFollowEvents(ss, es, i, es[i].t);
    CountFollowsEvents(ss, es, i);
    ActiveIsHoldersPlusQueued(ss, es, i);
    ActiveInRange(ss[i]);
    assert Next(ss[i], es[i], ss[i + 1]);
  }

  /** How the wait of a queued thread can end: in when all fit, cancelled when cancelled, timed out only when not all fit. */
  lemma WaitEndsIff(ss: seq<State>, es: seq<Event>, t: Thread, form: Form, outcome: Outcome)
    requires IsRun(ss, es) && QueuesSince(es, |es|, t, form)
    ensures var s := ss[|es|];
      var fit, off := |s.holders| + |s.queued| <= s.count, CountSince(ss[0].count, es, |es|) == CANCELLED;
      && ((exists s' :: Next(s, Wake(t, outcome), s'))
          <==> fit && outcome == if !off then Admitted else if form.TryAcquire? then Refused else Thrown)
      && ((exists s' :: Next(s, Timeout(t), s')) <==> form.TryTimed? && !fit)
  {
    var s := ss[|es|];
    QueueFollowsEvents(ss, es, |es|, t, form);
    CountFollowsEvents(ss, es, |es|);
    ActiveIsHoldersPlusQueued(ss, es, |es|);
    if s.active <= s.count && outcome == Woken(s, t).1 {
      assert Next(s, Wake(t, outcome), Woken(s, t).0);
    }
    if form.TryTimed? && s.active > s.count {
      assert Next(s, Timeout(t), TimedOut(s, t));
    }
  }

  /** wait() returns at once to a holder, and to another exactly when nobody holds or queues; else it waits for that. */
  lemma WaitReturnsIff(ss: seq<State>, es: seq<Event>, i: nat)
    requires IsRun(ss, es) && i < |es| && es[i].WaitBegin?
    ensures es[i].returned <==> HoldsSince(es, i, es[i].t) || (ss[i].holders == {} && ss[i].queued == map[])
  {
    HoldersFollowEvents(ss, es, i, es[i].t);
    ActiveIsHoldersPlusQueued(ss, es, i);
    assert Next(ss[i], es[i], ss[i + 1]);
  }

  /** A wait() that did not return at once may return exactly when nobody holds or queues. */
  lemma WaiterMayLeaveIff(ss: seq<State>, es: seq<Event>, i: nat, t: Thread)
    requires IsRun(ss, es) && i < |es| && es[i] == WaitBegin(t, false)
    requires forall k | i < k < |es| :: es[k] != WaitEnd(t)
    ensures var s := ss[|es|];
      (exists s' :: Next(s, WaitEnd(t), s')) <==> s.holders == {} && s.queued == map[]
  {
    var s := ss[|es|];
    assert Next(ss[i], es[i], ss[i + 1]);
    StaysDraining(ss, es, i + 1, |es|, t);
    ActiveIsHoldersPlusQueued(ss, es, |es|);
    if s.active == 0 {
      assert Next(s, WaitEnd(t), s.(draining := s.draining - {t}));
    }
  }

  lemma {:induction false} StaysDraining(ss: seq<State>, es: seq<Event>, i: nat, j: nat, t: Thread)
    requires IsRun(ss, es) && i <= j <= |es| && t in ss[i].draining
    requires forall k | i <= k < j :: es[k] != WaitEnd(t)
    ensures t in ss[j].draining
    decreases j - i
  {
    if i < j {
      StaysDraining(ss, es, i, j - 1, t);
      assert Next(ss[j - 1], es[j - 1], ss[j]);
    }
  }

  // ----- threads that can never advance

  /** A queued thread can advance exactly when everyone holding or queued fits within the count. */
  lemma QueuedAdvancesIff(ss: seq<State>, es: seq<Event>, t: Thread)
    requires IsRun(ss, es) && t in ss[|es|].queued
    ensures var s := ss[|es|];
      (exists r, s' :: Next(s, Wake(t, r), s')) <==> |s.holders| + |s.queued| <= s.count
  {
    var s := ss[|es|];
    ActiveIsHoldersPlusQueued(ss, es, |es|);
    if s.active <= s.count {
      assert Next(s, Wake(t, Woken(s, t).1), Woken(s, t).0);
    }
  }

  ghost predicate WaitsForever(s: State, ts: set<Thread>) {
    ts <= s.queued.Keys && forall t | t in ts :: !s.queued[t].TryTimed?
  }

  /**
   More untimed waiters than the count strand each other: active_ counts them all, so even with
   no holder left nobody, new threads included, is ever admitted until a reset, wait or resize.
   */
  lemma {:induction false} StrandedTogether(ss: seq<State>, es: seq<Event>, i: nat, j: nat, ts: set<Thread>)
    requires IsRun(ss, es) && i <= j <= |es|
    requires WaitsForever(ss[i], ts) && |ts| > ss[i].count
    requires forall k | i <= k < j :: !es[k].Resize? && !Cancels(ss[k], es[k])
    ensures WaitsForever(ss[j], ts) && ss[j].count == ss[i].count
    ensures j < |es| ==> !Admits(es[j])
    decreases j - i
  {
    if i < j {
      StrandedTogether(ss, es, i, j - 1, ts);
      ActiveIsHoldersPlusQueued(ss, es, j - 1);
      StrandedStep(ss[j - 1], es[j - 1], ss[j], ts);
    }
    ActiveIsHoldersPlusQueued(ss, es, j);
    SubsetCardinality(ts, ss[j].queued.Keys);
    ActiveInRange(ss[j]);
    assert |ss[j].queued.Keys| == |ss[j].queued|;
  }

  lemma {:induction false} SubsetCardinality(a: set<Thread>, b: set<Thread>)
    requires a <= b
    ensures |a| <= |b|
  {
    if a != {} {
      var x :| x in a;
      SubsetCardinality(a - {x}, b - {x});
    }
  }

  lemma StrandedStep(s: State, e: Event, s': State, ts: set<Thread>)
    requires Inv(s) && Next(s, e, s') && WaitsForever(s, ts) && |ts| > s.count
    requires !e.Resize? && !Cancels(s, e)
    ensures WaitsForever(s', ts) && s'.count == s.count
  {
    SubsetCardinality(ts, s.queued.Keys);
    assert |s.queued.Keys| == |s.queued|;
    ActiveInRange(s);
  }

  // ----- exactly when somebody can still be admitted

  /** A step that is no resize, no reset and no wait by a thread that holds nothing. */
  ghost predicate PlainStep(s: State, e: Event, s': State) {
    Next(s, e, s') && !e.Resize? && !Cancels(s, e)
  }

  /** `es` takes `s` through `ss` in plain steps. */
  ghost predicate Continues(s: State, ss: seq<State>, es: seq<Event>) {
    && |ss| == |es| + 1
    && ss[0] == s
    && forall i {:trigger es[i]} | 0 <= i < |es| :: PlainStep(ss[i], es[i], ss[i + 1])
  }

  /** Some continuation ends with somebody's admission. */
  ghost predicate CanAdmit(s: State) {
    exists ss, es :: Continues(s, ss, es) && es != [] && Admits(es[|es| - 1])
  }

  function Untimed(s: State): set<Thread> {
    set t | t in s.queued && !s.queued[t].TryTimed?
  }

  ghost predicate Blocked(s: State) {
    s.count == 0 || s.count == CANCELLED || |Untimed(s)| > s.count
  }

  lemma UntimedAreQueued(s: State)
    ensures Untimed(s) <= s.queued.Keys && |Untimed(s)| <= |s.queued|
  {
    SubsetCardinality(Untimed(s), s.queued.Keys);
    assert |s.queued.Keys| == |s.queued|;
  }

  lemma BlockedStep(s: State, e: Event, s': State)
    requires Inv(s) && Blocked(s) && PlainStep(s, e, s')
    ensures Inv(s') && Blocked(s') && !Admits(e)
  {
    StepKeepsInv(s, e, s');
    ActiveInRange(s);
    UntimedAreQueued(s);
    if 0 < s.count < CANCELLED {
      assert Untimed(s) <= Untimed(s');
      SubsetCardinality(Untimed(s), Untimed(s'));
    }
  }

  lemma {:induction false} BlockedForGood(s: State, ss: seq<State>, es: seq<Event>)
    requires Inv(s) && Blocked(s) && Continues(s, ss, es)
    ensures forall e | e in es :: !Admits(e)
    decreases |es|
  {
    if es != [] {
      var e, s' := es[0], ss[1];
      BlockedStep(s, e, s');
      ContinuesOn(s, ss, es);
      BlockedForGood(s', ss[1..], es[1..]);
      assert es == [e] + es[1..];
    }
  }

  lemma ContinuesOn(s: State, ss: seq<State>, es: seq<Event>)
    requires Continues(s, ss, es) && es != []
    ensures Continues(ss[1], ss[1..], es[1..])
  {
    forall i | 0 <= i < |es[1..]| ensures PlainStep(ss[1..][i], es[1..][i], ss[1..][i + 1]) {
      assert es[1..][i] == es[i + 1];
    }
  }

  lemma Prepend(s: State, e: Event, s': State)
    requires PlainStep(s, e, s') && (Admits(e) || CanAdmit(s'))
    ensures CanAdmit(s)
  {
    if Admits(e) {
      assert Continues(s, [s, s'], [e]) && [e][|[e]| - 1] == e;
    } else {
      var ss, es :| Continues(s', ss, es) && es != [] && Admits(es[|es| - 1]);
      ContinuesBefore(s, e, ss, es);
      assert ([e] + es)[|es|] == es[|es| - 1];
    }
  }

  lemma ContinuesBefore(s: State, e: Event, ss: seq<State>, es: seq<Event>)
    requires ss != [] && PlainStep(s, e, ss[0]) && Continues(ss[0], ss, es)
    ensures Continues(s, [s] + ss, [e] + es)
  {
    var more, all := [e] + es, [s] + ss;
    forall i | 0 <= i < |more| ensures PlainStep(all[i], more[i], all[i + 1]) {
      if i > 0 {
        assert more[i] == es[i - 1] && all[i] == ss[i - 1] && all[i + 1] == ss[i];
      }
    }
  }

  /** A thread inside wait() holds nothing and is in no other wait. */
  ghost predicate Apart(s: State) {
    s.holders !! s.draining && s.queued.Keys !! s.draining
  }

  lemma {:induction false} RunKeepsApart(ss: seq<State>, es: seq<Event>, i: nat)
    requires IsRun(ss, es) && i <= |es|
    ensures Apart(ss[i])
  {
    if i > 0 {
      RunKeepsApart(ss, es, i - 1);
      assert Next(ss[i - 1], es[i - 1], ss[i]);
    }
  }

  /** With no holder and nobody queued, a thread gets in at once, or when its wait() has ended. */
  lemma EmptyAdmits(s: State)
    requires Inv(s) && Apart(s) && 0 < s.count < CANCELLED && s.holders == {} && s.queued == map[]
    ensures CanAdmit(s)
  {
    var t: Thread := 0;
    var s1 := s.(draining := s.draining - {t});
    var (s2, outcome) := Entered(s1, t, Acquire);
    Prepend(s1, Enter(t, Acquire, outcome), s2);
    if t in s.draining {
      Prepend(s, WaitEnd(t), s1);
    } else {
      assert s1 == s;
    }
  }

  lemma ReleaseOne(s: State, t: Thread) returns (s': State)
    requires Inv(s) && Apart(s) && t in s.holders
    ensures Next(s, Release(t), s') && Inv(s') && Apart(s') && s'.count == s.count
    ensures Untimed(s') == Untimed(s) && s'.queued == s.queued && |s'.holders| == |s.holders| - 1
  {
    s' := Released(s, t);
    StepKeepsInv(s, Release(t), s');
    assert |s.holders - {t}| == |s.holders| - 1;
  }

  lemma TimeOutOne(s: State) returns (t: Thread, s': State)
    requires Inv(s) && Apart(s) && s.holders == {} && |Untimed(s)| <= s.count < s.active
    ensures Next(s, Timeout(t), s') && Inv(s') && Apart(s') && s'.count == s.count
    ensures Untimed(s') == Untimed(s) && s'.holders == {} && |s'.queued| == |s.queued| - 1
  {
    assert |s.queued.Keys| == |s.queued| > |Untimed(s)|;
    if s.queued.Keys <= Untimed(s) {
      SubsetCardinality(s.queued.Keys, Untimed(s));
    }
    t :| t in s.queued && t !in Untimed(s);
    s' := TimedOut(s, t);
    StepKeepsInv(s, Timeout(t), s');
    assert |s.queued - {t}| == |s.queued| - 1 by { assert (s.queued - {t}).Keys == s.queued.Keys - {t}; }
  }

  /** The holders release, the timed waiters in excess give up, and the next waiter gets in. */
  lemma {:induction false} UnblockedAdmits(s: State)
    requires Inv(s) && Apart(s) && 0 < s.count < CANCELLED && |Untimed(s)| <= s.count
    ensures CanAdmit(s)
    decreases |s.holders| + |s.queued|
  {
    if h :| h in s.holders {
      var s' := ReleaseOne(s, h);
      UnblockedAdmits(s');
      Prepend(s, Release(h), s');
    } else if s.active > s.count {
      var t, s' := TimeOutOne(s);
      UnblockedAdmits(s');
      Prepend(s, Timeout(t), s');
    } else if t :| t in s.queued {
      Prepend(s, Wake(t, Woken(s, t).1), Woken(s, t).0);
    } else {
      EmptyAdmits(s);
    }
  }

  /**
   Somebody can still get in without a resize exactly when the count is neither zero nor cancelled
   and the untimed waiters do not outnumber it.
   */
  lemma AdmissionPossibleIff(ss: seq<State>, es: seq<Event>)
    requires IsRun(ss, es)
    ensures var s := ss[|es|]; CanAdmit(s) <==> 0 < s.count < CANCELLED && |Untimed(s)| <= s.count
  {
    var s := ss[|es|];
    ActiveIsHoldersPlusQueued(ss, es, |es|);
    RunKeepsApart(ss, es, |es|);
    if 0 < s.count < CANCELLED && |Untimed(s)| <= s.count {
      UnblockedAdmits(s);
    } else if CanAdmit(s) {
      var more, fs :| Continues(s, more, fs) && fs != [] && Admits(fs[|fs| - 1]);
      BlockedForGood(s, more, fs);
    }
  }

  /** It happens: a binary semaphore, two threads queueing behind the holder, and its release. */
  lemma ReleaseStrandsTwoWaiters()
    ensures var s0 := State(1, 0, {}, map[], {});
            var s1 := State(1, 1, {0}, map[], {});
            var s2 := State(1, 2, {0}, map[1 := Acquire], {});
            var s3 := State(1, 3, {0}, map[1 := Acquire, 2 := Acquire], {});
            var s4 := State(1, 2, {}, map[1 := Acquire, 2 := Acquire], {});
            && IsRun([s0, s1, s2, s3, s4],
                     [Enter(0, Acquire, Some(Admitted)), Enter(1, Acquire, None), Enter(2, Acquire, None), Release(0)])
            && s4.holders == {}
            && WaitsForever(s4, {1, 2}) && |({1, 2})| > s4.count
  {
    var s0 := State(1, 0, {}, map[], {});
    var s1 := State(1, 1, {0}, map[], {});
    var s2 := State(1, 2, {0}, map[1 := Acquire], {});
    var s3 := State(1, 3, {0}, map[1 := Acquire, 2 := Acquire], {});
    var s4 := State(1, 2, {}, map[1 := Acquire, 2 := Acquire], {});
    assert Next(s0, Enter(0, Acquire, Some(Admitted)), s1) by {
      assert s0.holders + {0} == {0};
    }
    assert Next(s1, Enter(1, Acquire, None), s2);
    assert Next(s2, Enter(2, Acquire, None), s3) by {
      assert s2.queued[2 := Acquire] == s3.queued;
    }
    assert Next(s3, Release(0), s4) by {
      assert s3.holders - {0} == {};
    }
    var two: set<Thread> := {1, 2};
    assert |two| == 2;
  }
}

/** The object: one method per lock-held region, each tied to the protocol's function. */
module Semaphore {
  import opened Options
  import opened SemaphoreProtocol

  class Semaphore {
    var count: nat
    var active: nat
    var threads: set<Thread>
    ghost var queued: map<Thread, Form>
    ghost var draining: set<Thread>

    ghost function Abstract(): State
      reads this
    {
      State(count, active, threads, queued, draining)
    }

    ghost predicate Valid()
      reads this
    {
      Inv(Abstract())
    }

    constructor (count: nat, hardware: nat)
      requires count < MODULUS && hardware < MODULUS
      ensures Valid() && Init(Abstract())
      ensures this.count == InitialCount(count, hardware)
    {
      var n := count;
      if count == 0 {
        n := hardware;
      }
      if n == 0 {
        n := 1;
      }
      this.count := n;
      active, threads, queued, draining := 0, {}, map[], {};
    }

    method Release(id: Thread)
      requires Valid() && IsFree(Abstract(), id)
      modifies this
      ensures Valid() && Next(old(Abstract()), Event.Release(id), Abstract())
    {
      StepKeepsInv(Abstract(), Event.Release(id), Released(Abstract(), id));
      if id !in threads {
        return;
      }
      ActiveInRange(Abstract());
      threads := threads - {id};
      if active > 0 {
        active := active - 1;
      }
    }

    /** The three acquire forms up to their wait: None means the thread has to wait. */
    method Enter(id: Thread, form: Form) returns (result: Option<Outcome>)
      requires Valid() && IsFree(Abstract(), id)
      modifies this
      ensures Valid() && Next(old(Abstract()), Event.Enter(id, form, result), Abstract())
    {
      var (s', r) := Entered(Abstract(), id, form);
      StepKeepsInv(Abstract(), Event.Enter(id, form, r), s');
      if id in threads {
        return Some(if form.Acquire? then Thrown else Refused);
      }
      ActiveInRange(Abstract());
      active := active + 1;
      if active > count {
        queued := queued[id := form];
        return None;
      }
      var outcome := Pass(id, form);
      result := Some(outcome);
    }

    /** Past the wait condition. */
    method Pass(id: Thread, form: Form) returns (result: Outcome)
      requires 0 < active < MODULUS
      modifies `active, `threads
      ensures (Abstract(), result) == Passed(old(Abstract()), id, form)
    {
      if count == CANCELLED {
        active := active - 1;
        return if form.TryAcquire? then Refused else Thrown;
      }
      threads := threads + {id};
      result := Admitted;
    }

    method Wake(id: Thread, form: Form) returns (result: Outcome)
      requires Valid() && id in queued && queued[id] == form && active <= count
      modifies this
      ensures Valid() && Next(old(Abstract()), Event.Wake(id, result), Abstract())
    {
      var (s', r) := Woken(Abstract(), id);
      StepKeepsInv(Abstract(), Event.Wake(id, r), s');
      assert |queued.Keys| > 0;
      queued := queued - {id};
      result := Pass(id, form);
    }

    method Timeout(id: Thread)
      requires Valid() && id in queued && queued[id].TryTimed? && active > count
      modifies this
      ensures Valid() && Next(old(Abstract()), Event.Timeout(id), Abstract())
    {
      StepKeepsInv(Abstract(), Event.Timeout(id), TimedOut(Abstract(), id));
      ActiveInRange(Abstract());
      queued := queued - {id};
      active := active - 1;
    }

    method Reset()
      requires Valid()
      modifies this
      ensures Valid() && Next(old(Abstract()), Event.Reset, Abstract())
    {
      count := CANCELLED;
    }

    method Wait(id: Thread) returns (returned: bool)
      requires Valid() && IsFree(Abstract(), id)
      modifies this
      ensures Valid() && Next(old(Abstract()), WaitBegin(id, returned), Abstract())
    {
      if id in threads {
        return true;
      }
      count := CANCELLED;
      if active == 0 {
        return true;
      }
      draining := draining + {id};
      returned := false;
    }

    method Resize(n: nat)
      requires Valid() && n < MODULUS
      modifies this
      ensures Valid() && Next(old(Abstract()), Event.Resize(n), Abstract())
    {
      count := n;
    }
  }
}
