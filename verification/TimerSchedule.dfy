/**
 `timer_queue`: pending timers ordered by expiry, one thread that fires them, and callers that add,
 cancel, reset and refresh them. Every lock-held region is one step, running a task is a step of
 its own, and the clock is a number that never goes back.
 */
module TimerSchedule {
  import opened Options

  type Task(==, !new)

  datatype Timer = Timer(expires: int, id: nat, period: int, task: Task)

  /** An ordered map that keeps equal keys in insertion order: `t` goes behind its equals. */
  function Emplace(ts: seq<Timer>, t: Timer): seq<Timer> {
    if ts == [] || t.expires < ts[0].expires then [t] + ts else [ts[0]] + Emplace(ts[1..], t)
  }

  /** The position of the first timer with this id, or the number of timers. */
  function Position(ts: seq<Timer>, id: nat): (i: nat)
    ensures i <= |ts| && (i < |ts| ==> ts[i].id == id)
  {
    if ts == [] || ts[0].id == id then 0 else 1 + Position(ts[1..], id)
  }

  /** The timer pending under an id. */
  function Pending(ts: seq<Timer>, id: nat): (r: Option<Timer>)
    ensures r.Some? ==> r.value.id == id
  {
    if ts == [] then None else if ts[0].id == id then Some(ts[0]) else Pending(ts[1..], id)
  }

  function Erase(ts: seq<Timer>, id: nat): seq<Timer> {
    if ts == [] then [] else if ts[0].id == id then ts[1..] else [ts[0]] + Erase(ts[1..], id)
  }

  function SetPeriod(ts: seq<Timer>, id: nat, period: int): seq<Timer> {
    if ts == [] then []
    else if ts[0].id == id then [ts[0].(period := period)] + ts[1..]
    else [ts[0]] + SetPeriod(ts[1..], id, period)
  }

  /** Take the timer out and put it back in its changed form. */
  function Move(ts: seq<Timer>, t: Timer): seq<Timer> {
    Emplace(Erase(ts, t.id), t)
  }

  // ----- the lock-held regions, on the pending timers

  function Cancelled(ts: seq<Timer>, id: nat): (seq<Timer>, bool) {
    (Erase(ts, id), Pending(ts, id).Some?)
  }

  function Repeated(ts: seq<Timer>, id: nat, period: int): (seq<Timer>, bool) {
    (SetPeriod(ts, id, period), Pending(ts, id).Some?)
  }

  function WasReset(ts: seq<Timer>, id: nat, now: int, offset: int, interval: int): (seq<Timer>, bool) {
    match Pending(ts, id)
    case None => (ts, false)
    case Some(t) =>
      (Move(ts, Timer(now + offset, id, if interval != 0 then interval else t.period, t.task)), true)
  }

  /** A timer that has already expired is erased and not put back, yet the answer is still true. */
  function Refreshed(ts: seq<Timer>, id: nat, now: int): (seq<Timer>, bool) {
    match Pending(ts, id)
    case None => (ts, false)
    case Some(t) =>
      if t.period == 0 then (ts, false)
      else if t.expires > now then (Move(ts, t.(expires := now + t.period)), true)
      else (Erase(ts, id), true)
  }

  function Fired(ts: seq<Timer>): seq<Timer>
    requires ts != []
  {
    var t := ts[0];
    if t.period != 0 then Move(ts, t.(expires := t.expires + t.period)) else Erase(ts, t.id)
  }

  // ----- runs

  datatype State = State(timers: seq<Timer>, next: nat, stop: bool, now: int, running: Option<nat>)

  datatype Event =
    | Tick(now: int)
    | Add(expires: int, period: int, task: Task, id: nat)  // at, once and periodic
    | Repeats(tid: nat, period: int, done: bool)
    | Cancel(tid: nat, done: bool)
    | Reset(tid: nat, offset: int, interval: int, done: bool)
    | Refresh(tid: nat, done: bool)
    | Clear
    | Shutdown
    | Fire(tid: nat)   // the thread takes the first timer and unlocks to run its task
    | Finish           // the task returns or throws

  ghost predicate Init(s: State) {
    s.timers == [] && s.next == 0 && !s.stop && s.running == None
  }

  ghost predicate Next(s: State, e: Event, s': State) {
    match e
    case Tick(now) => s.now <= now && s' == s.(now := now)
    case Add(expires, period, task, id) =>
      id == s.next && s' == s.(timers := Emplace(s.timers, Timer(expires, id, period, task)), next := s.next + 1)
    case Repeats(tid, period, done) =>
      s' == s.(timers := s'.timers) && (s'.timers, done) == Repeated(s.timers, tid, period)
    case Cancel(tid, done) =>
      s' == s.(timers := s'.timers) && (s'.timers, done) == Cancelled(s.timers, tid)
    case Reset(tid, offset, interval, done) =>
      s' == s.(timers := s'.timers) && (s'.timers, done) == WasReset(s.timers, tid, s.now, offset, interval)
    case Refresh(tid, done) =>
      s' == s.(timers := s'.timers) && (s'.timers, done) == Refreshed(s.timers, tid, s.now)
    case Clear => s' == s.(timers := [])
    case Shutdown => s' == s.(stop := true)
    case Fire(tid) =>
      && s.running == None && !s.stop && s.timers != []
      && s.timers[0].expires <= s.now && tid == s.timers[0].id
      && s' == s.(timers := Fired(s.timers), running := Some(tid))
    case Finish => s.running.Some? && s' == s.(running := None)
  }

  ghost predicate IsRun(ss: seq<State>, es: seq<Event>) {
    && |ss| == |es| + 1
    && Init(ss[0])
    && forall i {:trigger es[i]} | 0 <= i < |es| :: Next(ss[i], es[i], ss[i + 1])
  }

  // ----- ordered, distinct, fresh

  ghost predicate Ordered(ts: seq<Timer>) {
    |ts| <= 1 || (ts[0].expires <= ts[1].expires && Ordered(ts[1..]))
  }

  ghost predicate Distinct(ts: seq<Timer>) {
    ts == [] || (Pending(ts[1..], ts[0].id) == None && Distinct(ts[1..]))
  }

  ghost predicate Below(ts: seq<Timer>, next: nat) {
    forall i | 0 <= i < |ts| :: ts[i].id < next
  }

  ghost predicate Inv(ts: seq<Timer>, next: nat) {
    Ordered(ts) && Distinct(ts) && Below(ts, next)
  }

  lemma {:induction false} HeadIsLeast(ts: seq<Timer>, j: nat)
    requires Ordered(ts) && j < |ts|
    ensures ts[0].expires <= ts[j].expires
  {
    if j > 0 {
      HeadIsLeast(ts[1..], j - 1);
    }
  }

  lemma {:induction false} BelowMeansAbsent(ts: seq<Timer>, next: nat, id: nat)
    requires Below(ts, next) && id >= next
    ensures Pending(ts, id) == None
  {
    if ts != [] {
      BelowMeansAbsent(ts[1..], next, id);
    }
  }

  lemma {:induction false} PendingIsPosition(ts: seq<Timer>, id: nat)
    ensures Pending(ts, id) == if Position(ts, id) < |ts| then Some(ts[Position(ts, id)]) else None
  {
    if ts != [] {
      PendingIsPosition(ts[1..], id);
    }
  }

  // ----- emplace

  lemma {:induction false} EmplaceKeepsInv(ts: seq<Timer>, next: nat, t: Timer)
    requires Inv(ts, next) && t.id < next && Pending(ts, t.id) == None
    ensures Inv(Emplace(ts, t), next)
    ensures ts != [] && t.expires >= ts[0].expires ==> Emplace(ts, t)[0] == ts[0]
  {
    if ts == [] || t.expires < ts[0].expires {
      assert ([t] + ts)[1..] == ts;
    } else {
      var rest := Emplace(ts[1..], t);
      EmplaceKeepsInv(ts[1..], next, t);
      PendingAfterEmplace(ts[1..], t, ts[0].id);
      assert ([ts[0]] + rest)[1..] == rest;
    }
  }

  lemma {:induction false} PendingAfterEmplace(ts: seq<Timer>, t: Timer, id: nat)
    requires Pending(ts, t.id) == None
    ensures Pending(Emplace(ts, t), id) == if id == t.id then Some(t) else Pending(ts, id)
  {
    if ts == [] || t.expires < ts[0].expires {
      assert ([t] + ts)[1..] == ts;
    } else {
      PendingAfterEmplace(ts[1..], t, id);
      assert ([ts[0]] + Emplace(ts[1..], t))[1..] == Emplace(ts[1..], t);
    }
  }

  lemma {:induction false} OrderAfterEmplace(ts: seq<Timer>, t: Timer, id: nat, other: nat)
    requires id != t.id && other != t.id
    ensures Position(Emplace(ts, t), id) < Position(Emplace(ts, t), other) <==> Position(ts, id) < Position(ts, other)
  {
    if ts == [] || t.expires < ts[0].expires {
      assert ([t] + ts)[1..] == ts;
    } else {
      OrderAfterEmplace(ts[1..], t, id, other);
      assert ([ts[0]] + Emplace(ts[1..], t))[1..] == Emplace(ts[1..], t);
    }
  }

  // ----- erase

  lemma {:induction false} EraseKeepsInv(ts: seq<Timer>, next: nat, id: nat)
    requires Inv(ts, next)
    ensures Inv(Erase(ts, id), next)
    ensures Pending(Erase(ts, id), id) == None
    ensures Erase(ts, id) != [] ==> ts != [] && ts[0].expires <= Erase(ts, id)[0].expires
  {
    if ts != [] {
      if ts[0].id != id {
        EraseKeepsInv(ts[1..], next, id);
        PendingAfterErase(ts[1..], id, ts[0].id);
        assert ([ts[0]] + Erase(ts[1..], id))[1..] == Erase(ts[1..], id);
      }
    }
  }

  lemma {:induction false} PendingAfterErase(ts: seq<Timer>, id: nat, other: nat)
    requires other != id
    ensures Pending(Erase(ts, id), other) == Pending(ts, other)
  {
    if ts != [] && ts[0].id != id {
      PendingAfterErase(ts[1..], id, other);
      assert ([ts[0]] + Erase(ts[1..], id))[1..] == Erase(ts[1..], id);
    }
  }

  lemma {:induction false} OrderAfterErase(ts: seq<Timer>, id: nat, a: nat, b: nat)
    requires a != id && b != id
    ensures Position(Erase(ts, id), a) < Position(Erase(ts, id), b) <==> Position(ts, a) < Position(ts, b)
  {
    if ts != [] && ts[0].id != id {
      OrderAfterErase(ts[1..], id, a, b);
      assert ([ts[0]] + Erase(ts[1..], id))[1..] == Erase(ts[1..], id);
    }
  }

  // ----- move and set the period

  lemma MoveKeepsInv(ts: seq<Timer>, next: nat, t: Timer)
    requires Inv(ts, next) && t.id < next
    ensures Inv(Move(ts, t), next) && Pending(Move(ts, t), t.id) == Some(t)
  {
    EraseKeepsInv(ts, next, t.id);
    EmplaceKeepsInv(Erase(ts, t.id), next, t);
    PendingAfterEmplace(Erase(ts, t.id), t, t.id);
  }

  lemma {:induction false} AfterSetPeriod(ts: seq<Timer>, id: nat, period: int, other: nat)
    ensures Position(SetPeriod(ts, id, period), other) == Position(ts, other)
    ensures other != id ==> Pending(SetPeriod(ts, id, period), other) == Pending(ts, other)
    ensures Pending(SetPeriod(ts, id, period), other) == None <==> Pending(ts, other) == None
  {
    if ts != [] {
      if ts[0].id == id {
        assert ([ts[0].(period := period)] + ts[1..])[1..] == ts[1..];
      } else {
        AfterSetPeriod(ts[1..], id, period, other);
        assert ([ts[0]] + SetPeriod(ts[1..], id, period))[1..] == SetPeriod(ts[1..], id, period);
      }
    }
  }

  lemma {:induction false} SetPeriodKeepsInv(ts: seq<Timer>, next: nat, id: nat, period: int)
    requires Inv(ts, next)
    ensures Inv(SetPeriod(ts, id, period), next)
    ensures |SetPeriod(ts, id, period)| == |ts|
    ensures ts != [] ==> SetPeriod(ts, id, period)[0].expires == ts[0].expires
  {
    if ts != [] {
      if ts[0].id == id {
        assert ([ts[0].(period := period)] + ts[1..])[1..] == ts[1..];
      } else {
        SetPeriodKeepsInv(ts[1..], next, id, period);
        AfterSetPeriod(ts[1..], id, period, ts[0].id);
        assert ([ts[0]] + SetPeriod(ts[1..], id, period))[1..] == SetPeriod(ts[1..], id, period);
      }
    }
  }

  // ----- steps

  lemma {:induction false} PendingIsBelow(ts: seq<Timer>, next: nat, id: nat)
    requires Below(ts, next) && Pending(ts, id).Some?
    ensures id < next
  {
    if id >= next {
      BelowMeansAbsent(ts, next, id);
    }
  }

  lemma StepKeepsInv(s: State, e: Event, s': State)
    requires Inv(s.timers, s.next) && Next(s, e, s')
    ensures Inv(s'.timers, s'.next) && s.next <= s'.next && s.now <= s'.now
  {
    var ts, next := s.timers, s.next;
    match e {
      case Add(expires, period, task, id) =>
        BelowMeansAbsent(ts, next, id);
        EmplaceKeepsInv(ts, next + 1, Timer(expires, id, period, task));
      case Repeats(tid, period, done) => SetPeriodKeepsInv(ts, next, tid, period);
      case Cancel(tid, done) => EraseKeepsInv(ts, next, tid);
      case Reset(tid, offset, interval, done) =>
        if done {
          var t := Pending(ts, tid).value;
          PendingIsBelow(ts, next, tid);
          MoveKeepsInv(ts, next, Timer(s.now + offset, tid, if interval != 0 then interval else t.period, t.task));
        }
      case Refresh(tid, done) =>
        if done {
          var t := Pending(ts, tid).value;
          PendingIsBelow(ts, next, tid);
          EraseKeepsInv(ts, next, tid);
          MoveKeepsInv(ts, next, t.(expires := s.now + t.period));
        }
      case Fire(tid) =>
        EraseKeepsInv(ts, next, tid);
        MoveKeepsInv(ts, next, ts[0].(expires := ts[0].expires + ts[0].period));
      case _ =>
    }
  }

  /** On every run the timers stay ordered by expiry, each id is pending at most once, and ids only go up. */
  lemma {:induction false} RunKeepsInv(ss: seq<State>, es: seq<Event>, i: nat, j: nat)
    requires IsRun(ss, es) && i <= j <= |es|
    ensures Inv(ss[j].timers, ss[j].next) && ss[i].next <= ss[j].next && ss[i].now <= ss[j].now
    decreases j
  {
    if j > 0 {
      RunKeepsInv(ss, es, if i < j then i else j - 1, j - 1);
      StepKeepsInv(ss[j - 1], es[j - 1], ss[j]);
    }
  }

  /** Whether an event may change the timer pending under `id`. */
  predicate Touches(e: Event, id: nat) {
    match e
    case Repeats(tid, _, _) => tid == id
    case Cancel(tid, _) => tid == id
    case Reset(tid, _, _, _) => tid == id
    case Refresh(tid, _) => tid == id
    case Fire(tid) => tid == id
    case Add(_, _, _, tid) => tid == id
    case Clear => true
    case _ => false
  }

  /** Both timers are pending as before, and in the same order. */
  ghost predicate KeepsPair(ts: seq<Timer>, ts': seq<Timer>, a: nat, b: nat) {
    && Pending(ts', a) == Pending(ts, a)
    && (Position(ts, a) < Position(ts, b) <==> Position(ts', a) < Position(ts', b))
  }

  lemma EraseKeepsPair(ts: seq<Timer>, id: nat, a: nat, b: nat)
    requires a != id && b != id
    ensures KeepsPair(ts, Erase(ts, id), a, b)
  {
    PendingAfterErase(ts, id, a);
    OrderAfterErase(ts, id, a, b);
  }

  lemma MoveKeepsPair(ts: seq<Timer>, next: nat, t: Timer, a: nat, b: nat)
    requires Inv(ts, next) && a != t.id && b != t.id
    ensures KeepsPair(ts, Move(ts, t), a, b)
  {
    EraseKeepsInv(ts, next, t.id);
    EraseKeepsPair(ts, t.id, a, b);
    PendingAfterEmplace(Erase(ts, t.id), t, a);
    OrderAfterEmplace(Erase(ts, t.id), t, a, b);
  }

  /** An event that touches neither id leaves both timers as they are, and in the same order. */
  lemma UntouchedStays(s: State, e: Event, s': State, id: nat, other: nat)
    requires Inv(s.timers, s.next) && Next(s, e, s') && !Touches(e, id) && !Touches(e, other)
    ensures KeepsPair(s.timers, s'.timers, id, other)
  {
    var ts, next := s.timers, s.next;
    match e {
      case Add(expires, period, task, tid) =>
        var t := Timer(expires, tid, period, task);
        BelowMeansAbsent(ts, next, tid);
        PendingAfterEmplace(ts, t, id);
        OrderAfterEmplace(ts, t, id, other);
      case Repeats(tid, period, done) =>
        AfterSetPeriod(ts, tid, period, id);
        AfterSetPeriod(ts, tid, period, other);
      case Cancel(tid, done) => EraseKeepsPair(ts, tid, id, other);
      case Reset(tid, offset, interval, done) => ResetKeepsPair(ts, next, tid, s.now, offset, interval, id, other);
      case Refresh(tid, done) => RefreshKeepsPair(ts, next, tid, s.now, id, other);
      case Fire(tid) =>
        EraseKeepsPair(ts, tid, id, other);
        MoveKeepsPair(ts, next, ts[0].(expires := ts[0].expires + ts[0].period), id, other);
      case _ =>
    }
  }

  lemma ResetKeepsPair(ts: seq<Timer>, next: nat, tid: nat, now: int, offset: int, interval: int, a: nat, b: nat)
    requires Inv(ts, next) && a != tid && b != tid
    ensures KeepsPair(ts, WasReset(ts, tid, now, offset, interval).0, a, b)
  {
    match Pending(ts, tid)
    case None =>
    case Some(t) =>
      MoveKeepsPair(ts, next, Timer(now + offset, tid, if interval != 0 then interval else t.period, t.task), a, b);
  }

  lemma RefreshKeepsPair(ts: seq<Timer>, next: nat, tid: nat, now: int, a: nat, b: nat)
    requires Inv(ts, next) && a != tid && b != tid
    ensures KeepsPair(ts, Refreshed(ts, tid, now).0, a, b)
  {
    match Pending(ts, tid)
    case None =>
    case Some(t) =>
      EraseKeepsPair(ts, tid, a, b);
      MoveKeepsPair(ts, next, t.(expires := now + t.period), a, b);
  }

  // ----- main results

  /** What an event is to make of the timer pending under `id`, without regard to any order. */
  function Expected(e: Event, id: nat, before: Option<Timer>, now: int): Option<Timer> {
    if !Touches(e, id) then before
    else if e.Add? then Some(Timer(e.expires, id, e.period, e.task))
    else if before == None || e.Cancel? || e.Clear? then None
    else
      var t := before.value;
      match e
      case Repeats(_, period, _) => Some(t.(period := period))
      case Reset(_, offset, interval, _) =>
        Some(t.(expires := now + offset, period := if interval == 0 then t.period else interval))
      case Refresh(_, _) =>
        if t.period == 0 then before else if now < t.expires then Some(t.(expires := now + t.period)) else None
      case _ => if t.period == 0 then None else Some(t.(expires := t.expires + t.period))
  }

  /** What an event on an id is to answer: whether it is pending, and for refresh, whether it has a period too. */
  function Answer(e: Event, before: Option<Timer>): bool {
    before.Some? && (e.Refresh? ==> before.value.period != 0)
  }

  lemma {:induction false} PeriodAfterSetPeriod(ts: seq<Timer>, id: nat, period: int)
    ensures Pending(SetPeriod(ts, id, period), id)
            == match Pending(ts, id) case None => None case Some(t) => Some(t.(period := period))
  {
    if ts != [] && ts[0].id != id {
      PeriodAfterSetPeriod(ts[1..], id, period);
      assert ([ts[0]] + SetPeriod(ts[1..], id, period))[1..] == SetPeriod(ts[1..], id, period);
    }
  }

  lemma TouchedAsExpected(s: State, e: Event, s': State, id: nat)
    requires Inv(s.timers, s.next) && Next(s, e, s') && Touches(e, id)
    ensures Pending(s'.timers, id) == Expected(e, id, Pending(s.timers, id), s.now)
  {
    var ts, next := s.timers, s.next;
    match e {
      case Add(_, _, _, _) => AddedIsPending(s, e, s');
      case Repeats(tid, period, _) => PeriodAfterSetPeriod(ts, tid, period);
      case Cancel(tid, _) => EraseKeepsInv(ts, next, tid);
      case Reset(tid, offset, interval, _) => ResetReschedules(ts, next, tid, s.now, offset, interval);
      case Refresh(tid, _) => RefreshKeepsIffNotExpired(ts, next, tid, s.now);
      case Fire(tid) =>
        EraseKeepsInv(ts, next, tid);
        MoveKeepsInv(ts, next, ts[0].(expires := ts[0].expires + ts[0].period));
      case _ =>
    }
  }

  /** In every run each event does to the pending timers exactly what is expected, whatever their order, and answers so. */
  lemma EventsDoAsExpected(ss: seq<State>, es: seq<Event>, i: nat, id: nat)
    requires IsRun(ss, es) && i < |es|
    ensures Pending(ss[i + 1].timers, id) == Expected(es[i], id, Pending(ss[i].timers, id), ss[i].now)
    ensures match es[i]
            case Repeats(tid, _, done) => done == Answer(es[i], Pending(ss[i].timers, tid))
            case Cancel(tid, done) => done == Answer(es[i], Pending(ss[i].timers, tid))
            case Reset(tid, _, _, done) => done == Answer(es[i], Pending(ss[i].timers, tid))
            case Refresh(tid, done) => done == Answer(es[i], Pending(ss[i].timers, tid))
            case _ => true
  {
    RunKeepsInv(ss, es, i, i);
    assert Next(ss[i], es[i], ss[i + 1]);
    if Touches(es[i], id) {
      TouchedAsExpected(ss[i], es[i], ss[i + 1], id);
    } else {
      UntouchedStays(ss[i], es[i], ss[i + 1], id, id);
    }
  }

  /** Some timer has been fired and its task has not returned yet. */
  ghost predicate RunsSince(es: seq<Event>, i: nat)
    requires i <= |es|
  {
    exists k | 0 <= k < i :: es[k].Fire? && forall m | k < m < i :: !es[m].Finish?
  }

  lemma RunsSinceStep(es: seq<Event>, i: nat)
    requires 0 < i <= |es|
    ensures RunsSince(es, i) <==> es[i - 1].Fire? || (RunsSince(es, i - 1) && !es[i - 1].Finish?)
  {
    if k :| 0 <= k < i - 1 && es[k].Fire? && forall m | k < m < i - 1 :: !es[m].Finish? {
      assert !es[i - 1].Finish? ==> forall m | k < m < i :: !es[m].Finish?;
    }
  }

  lemma {:induction false} StateFollowsEvents(ss: seq<State>, es: seq<Event>, i: nat)
    requires IsRun(ss, es) && i <= |es|
    ensures ss[i].stop <==> exists k :: 0 <= k < i && es[k].Shutdown?
    ensures ss[i].running.Some? <==> RunsSince(es, i)
  {
    if i > 0 {
      StateFollowsEvents(ss, es, i - 1);
      assert Next(ss[i - 1], es[i - 1], ss[i]);
      RunsSinceStep(es, i);
    }
  }

  /**
   The thread can fire a timer exactly when no task is running, there was no shutdown, and some
   pending timer is due.
   */
  lemma CanFireIff(ss: seq<State>, es: seq<Event>)
    requires IsRun(ss, es)
    ensures var s := ss[|es|];
      (exists id, s' :: Next(s, Fire(id), s'))
      <==> (!RunsSince(es, |es|) && (forall k | 0 <= k < |es| :: !es[k].Shutdown?)
            && exists id: nat :: Pending(s.timers, id).Some? && Pending(s.timers, id).value.expires <= s.now)
  {
    var s := ss[|es|];
    RunKeepsInv(ss, es, |es|, |es|);
    StateFollowsEvents(ss, es, |es|);
    if exists id: nat :: Pending(s.timers, id).Some? && Pending(s.timers, id).value.expires <= s.now {
      var id: nat :| Pending(s.timers, id).Some? && Pending(s.timers, id).value.expires <= s.now;
      PendingIsPosition(s.timers, id);
      HeadIsLeast(s.timers, Position(s.timers, id));
      if s.running == None && !s.stop {
        assert Next(s, Fire(s.timers[0].id), s.(timers := Fired(s.timers), running := Some(s.timers[0].id)));
      }
    }
    if id, s' :| Next(s, Fire(id), s') {
      assert Pending(s.timers, id) == Some(s.timers[0]);
    }
  }

  /** No timer fires early, and the one that fires is due no later than any other pending one. */
  lemma FiresTheEarliestDue(ss: seq<State>, es: seq<Event>, i: nat, tid: nat)
    requires IsRun(ss, es) && i < |es| && es[i] == Fire(tid)
    ensures Pending(ss[i].timers, tid).Some? && Pending(ss[i].timers, tid).value.expires <= ss[i].now
    ensures forall j | 0 <= j < |ss[i].timers| ::
      Pending(ss[i].timers, tid).value.expires <= ss[i].timers[j].expires
  {
    RunKeepsInv(ss, es, i, i);
    assert Next(ss[i], es[i], ss[i + 1]);
    forall j | 0 <= j < |ss[i].timers| ensures ss[i].timers[0].expires <= ss[i].timers[j].expires {
      HeadIsLeast(ss[i].timers, j);
    }
  }

  /**
   A timer ahead of another in the queue fires first: the other one cannot fire as long as neither is
   touched.
   */
  lemma {:induction false} FiresInQueueOrder(ss: seq<State>, es: seq<Event>, i: nat, j: nat, ahead: nat, behind: nat)
    requires IsRun(ss, es) && i <= j <= |es|
    requires Position(ss[i].timers, ahead) < Position(ss[i].timers, behind)
    requires forall k | i <= k < j :: !Touches(es[k], ahead) && !Touches(es[k], behind)
    ensures Position(ss[j].timers, ahead) < Position(ss[j].timers, behind)
    ensures j < |es| ==> es[j] != Fire(behind)
    decreases j - i
  {
    if i < j {
      FiresInQueueOrder(ss, es, i, j - 1, ahead, behind);
      RunKeepsInv(ss, es, j - 1, j - 1);
      UntouchedStays(ss[j - 1], es[j - 1], ss[j], ahead, behind);
    }
  }

  /** A new timer goes behind every pending one that is due no later and ahead of every later one. */
  lemma {:induction false} AddedBehindItsEquals(ts: seq<Timer>, t: Timer, other: nat)
    requires Ordered(ts) && Pending(ts, t.id) == None && Pending(ts, other).Some?
    ensures Position(Emplace(ts, t), other) < Position(Emplace(ts, t), t.id)
            <==> Pending(ts, other).value.expires <= t.expires
  {
    if t.expires < ts[0].expires {
      PendingIsPosition(ts, other);
      HeadIsLeast(ts, Position(ts, other));
    } else {
      assert ([ts[0]] + Emplace(ts[1..], t))[1..] == Emplace(ts[1..], t);
      if ts[0].id != other {
        AddedBehindItsEquals(ts[1..], t, other);
      }
    }
  }

  /** Of two pending timers, the one due earlier is ahead. */
  lemma {:induction false} EarlierIsAhead(ts: seq<Timer>, a: nat, b: nat)
    requires Ordered(ts) && Pending(ts, a).Some? && Pending(ts, b).Some?
    requires Pending(ts, a).value.expires < Pending(ts, b).value.expires
    ensures Position(ts, a) < Position(ts, b)
  {
    PendingIsPosition(ts, a);
    HeadIsLeast(ts, Position(ts, a));
    if ts[0].id != a {
      EarlierIsAhead(ts[1..], a, b);
    }
  }

  /** Of two pending timers, one due earlier fires first, as long as neither is touched. */
  lemma FiresInOrderOfExpiry(ss: seq<State>, es: seq<Event>, i: nat, j: nat, a: nat, b: nat)
    requires IsRun(ss, es) && i <= j < |es|
    requires Pending(ss[i].timers, a).Some? && Pending(ss[i].timers, b).Some?
    requires Pending(ss[i].timers, a).value.expires < Pending(ss[i].timers, b).value.expires
    requires forall k | i <= k < j :: !Touches(es[k], a) && !Touches(es[k], b)
    ensures es[j] != Fire(b)
  {
    RunKeepsInv(ss, es, i, i);
    EarlierIsAhead(ss[i].timers, a, b);
    FiresInQueueOrder(ss, es, i, j, a, b);
  }

  lemma {:induction false} StaysPending(ss: seq<State>, es: seq<Event>, i: nat, j: nat, id: nat)
    requires IsRun(ss, es) && i <= j <= |es| && forall k | i <= k < j :: !Touches(es[k], id)
    ensures Pending(ss[j].timers, id) == Pending(ss[i].timers, id)
    decreases j - i
  {
    if i < j {
      StaysPending(ss, es, i, j - 1, id);
      RunKeepsInv(ss, es, j - 1, j - 1);
      UntouchedStays(ss[j - 1], es[j - 1], ss[j], id, id);
    }
  }

  lemma AddedIsPending(s: State, e: Event, s': State)
    requires Inv(s.timers, s.next) && Next(s, e, s') && e.Add?
    ensures Pending(s.timers, e.id) == None
    ensures Pending(s'.timers, e.id) == Some(Timer(e.expires, e.id, e.period, e.task))
  {
    BelowMeansAbsent(s.timers, s.next, e.id);
    PendingAfterEmplace(s.timers, Timer(e.expires, e.id, e.period, e.task), e.id);
  }

  /**
   Of two timers added one after the other and not touched since, the one due earlier fires first, and
   of two due together the one added first: the other one does not fire before it.
   */
  lemma AddedFireInOrder(ss: seq<State>, es: seq<Event>, i: nat, k: nat, j: nat)
    requires IsRun(ss, es) && i < k < j < |es| && es[i].Add? && es[k].Add?
    requires forall m | i < m < j && m != k :: !Touches(es[m], es[i].id) && !Touches(es[m], es[k].id)
    ensures es[j] != Fire(if es[i].expires <= es[k].expires then es[k].id else es[i].id)
  {
    var a, b := es[i].id, es[k].id;
    RunKeepsInv(ss, es, i, i);
    RunKeepsInv(ss, es, k, k);
    IdsAreNeverReused(ss, es, i, k);
    assert Next(ss[i], es[i], ss[i + 1]) && Next(ss[k], es[k], ss[k + 1]);
    AddedIsPending(ss[i], es[i], ss[i + 1]);
    StaysPending(ss, es, i + 1, k, a);
    AddedIsPending(ss[k], es[k], ss[k + 1]);
    var t := Timer(es[k].expires, b, es[k].period, es[k].task);
    AddedBehindItsEquals(ss[k].timers, t, a);
    PendingAfterEmplace(ss[k].timers, t, a);
    PositionsDiffer(ss[k + 1].timers, a, b);
    if es[i].expires <= es[k].expires {
      FiresInQueueOrder(ss, es, k + 1, j, a, b);
    } else {
      FiresInQueueOrder(ss, es, k + 1, j, b, a);
    }
  }

  lemma PositionsDiffer(ts: seq<Timer>, a: nat, b: nat)
    requires a != b && Pending(ts, a).Some? && Pending(ts, b).Some?
    ensures Position(ts, a) != Position(ts, b)
  {
    PendingIsPosition(ts, a);
    PendingIsPosition(ts, b);
  }

  /** How often the timer fires among the events from `i` up to `j`. */
  function Firings(es: seq<Event>, i: nat, j: nat, id: nat): nat
    requires i <= j <= |es|
  {
    if i == j then 0 else Firings(es, i, j - 1, id) + if es[j - 1] == Fire(id) then 1 else 0
  }

  /** When a timer is due again after `k` firings. */
  function Due(t: Timer, k: nat): int {
    if k == 0 then t.expires else Due(t, k - 1) + t.period
  }

  lemma {:induction false} DueIsLinear(t: Timer, k: nat)
    ensures Due(t, k) == t.expires + k * t.period
  {
    if k > 0 {
      DueIsLinear(t, k - 1);
    }
  }

  lemma ScheduleStep(s: State, e: Event, s': State, t: Timer, due: int)
    requires Inv(s.timers, s.next) && Next(s, e, s') && t.period != 0
    requires Pending(s.timers, t.id) == Some(t.(expires := due))
    requires e == Fire(t.id) || !Touches(e, t.id)
    ensures Pending(s'.timers, t.id) == Some(t.(expires := if e == Fire(t.id) then due + t.period else due))
    ensures e == Fire(t.id) ==> due <= s.now == s'.now
  {
    if e == Fire(t.id) {
      MoveKeepsInv(s.timers, s.next, s.timers[0].(expires := due + t.period));
    } else {
      UntouchedStays(s, e, s', t.id, t.id);
    }
  }

  /** After its firings between `i` and `j` the timer waits for its next due time, and the latest firing was due. */
  lemma {:induction false} PendingWhenDue(ss: seq<State>, es: seq<Event>, i: nat, j: nat, t: Timer)
    requires IsRun(ss, es) && i <= j <= |es|
    requires Pending(ss[i].timers, t.id) == Some(t) && t.period != 0
    requires forall k | i <= k < j :: es[k] == Fire(t.id) || !Touches(es[k], t.id)
    ensures Pending(ss[j].timers, t.id) == Some(t.(expires := Due(t, Firings(es, i, j, t.id))))
    ensures Firings(es, i, j, t.id) > 0 ==> Due(t, Firings(es, i, j, t.id)) <= ss[j].now + t.period
    decreases j - i
  {
    if i < j {
      PendingWhenDue(ss, es, i, j - 1, t);
      RunKeepsInv(ss, es, j - 1, j - 1);
      RunKeepsInv(ss, es, j - 1, j);
      ScheduleStep(ss[j - 1], es[j - 1], ss[j], t, Due(t, Firings(es, i, j - 1, t.id)));
    }
  }

  /**
   A periodic timer that nobody touches keeps its schedule: due first at E, after k firings it is
   pending for E + k * period, however late each firing was.
   */
  lemma PeriodicKeepsSchedule(ss: seq<State>, es: seq<Event>, i: nat, j: nat, t: Timer)
    requires IsRun(ss, es) && i <= j <= |es|
    requires Pending(ss[i].timers, t.id) == Some(t) && t.period != 0
    requires forall k | i <= k < j :: es[k] == Fire(t.id) || !Touches(es[k], t.id)
    ensures Pending(ss[j].timers, t.id) == Some(t.(expires := t.expires + Firings(es, i, j, t.id) * t.period))
  {
    PendingWhenDue(ss, es, i, j, t);
    DueIsLinear(t, Firings(es, i, j, t.id));
  }

  /** So by time T it has fired at most (T - E) / period + 1 times, and never before E. */
  lemma PeriodicFiringsBounded(ss: seq<State>, es: seq<Event>, i: nat, j: nat, t: Timer)
    requires IsRun(ss, es) && i <= j <= |es|
    requires Pending(ss[i].timers, t.id) == Some(t) && t.period > 0
    requires forall k | i <= k < j :: es[k] == Fire(t.id) || !Touches(es[k], t.id)
    ensures Firings(es, i, j, t.id) <= if ss[j].now < t.expires then 0 else (ss[j].now - t.expires) / t.period + 1
  {
    PendingWhenDue(ss, es, i, j, t);
    DueCountBound(t, Firings(es, i, j, t.id), ss[j].now);
  }

  lemma DueCountBound(t: Timer, k: nat, now: int)
    requires t.period > 0 && (k > 0 ==> Due(t, k) <= now + t.period)
    ensures k <= if now < t.expires then 0 else (now - t.expires) / t.period + 1
  {
    if k > 0 {
      DueIsLinear(t, k);
      TimesKeepsOrder(1, k, t.period);
      assert (k - 1) * t.period == k * t.period - t.period;
      QuotientBound(now - t.expires, k - 1, t.period);
    }
  }

  lemma QuotientBound(x: int, k: nat, p: int)
    requires p > 0 && k * p <= x
    ensures k <= x / p
  {
    var q, r := x / p, x % p;
    assert x == q * p + r;
    TimesKeepsOrder(q + 1, k, p);
  }

  lemma TimesKeepsOrder(a: int, b: int, p: int)
    requires p > 0
    ensures a <= b ==> a * p <= b * p
  {}

  /** An id that is not pending and was already given out can never fire again. */
  lemma {:induction false} GoneStaysGone(ss: seq<State>, es: seq<Event>, i: nat, j: nat, id: nat)
    requires IsRun(ss, es) && i <= j <= |es|
    requires Pending(ss[i].timers, id) == None && id < ss[i].next
    ensures Pending(ss[j].timers, id) == None
    ensures j < |es| ==> es[j] != Fire(id)
    decreases j - i
  {
    if i < j {
      GoneStaysGone(ss, es, i, j - 1, id);
      RunKeepsInv(ss, es, i, j - 1);
      if Touches(es[j - 1], id) {
        assert Next(ss[j - 1], es[j - 1], ss[j]);
        var ts := ss[j - 1].timers;
        EraseKeepsInv(ts, ss[j - 1].next, id);
        if es[j - 1].Repeats? {
          AfterSetPeriod(ts, id, es[j - 1].period, id);
        }
      } else {
        UntouchedStays(ss[j - 1], es[j - 1], ss[j], id, id);
      }
    }
  }

  /** cancel succeeds exactly on pending timers, and after it succeeds no firing of that id starts. */
  lemma CancelIsFinal(ss: seq<State>, es: seq<Event>, i: nat, j: nat, id: nat, done: bool)
    requires IsRun(ss, es) && i < j < |es| && es[i] == Cancel(id, done)
    ensures done <==> Pending(ss[i].timers, id).Some?
    ensures done ==> es[j] != Fire(id)
  {
    RunKeepsInv(ss, es, i, i);
    assert Next(ss[i], es[i], ss[i + 1]);
    if done {
      EraseKeepsInv(ss[i].timers, ss[i].next, id);
      PendingIsBelow(ss[i].timers, ss[i].next, id);
      GoneStaysGone(ss, es, i + 1, j, id);
    }
  }

  /** A timer without a period fires at most once. */
  lemma OneShotFiresOnce(ss: seq<State>, es: seq<Event>, i: nat, j: nat, id: nat)
    requires IsRun(ss, es) && i < j < |es| && es[i] == Fire(id)
    requires Pending(ss[i].timers, id).Some? && Pending(ss[i].timers, id).value.period == 0
    ensures es[j] != Fire(id)
  {
    RunKeepsInv(ss, es, i, i);
    assert Next(ss[i], es[i], ss[i + 1]);
    EraseKeepsInv(ss[i].timers, ss[i].next, id);
    PendingIsBelow(ss[i].timers, ss[i].next, id);
    GoneStaysGone(ss, es, i + 1, j, id);
  }

  /** Every add hands out an id never handed out before. */
  lemma IdsAreNeverReused(ss: seq<State>, es: seq<Event>, i: nat, j: nat)
    requires IsRun(ss, es) && i < j < |es| && es[i].Add? && es[j].Add?
    ensures es[i].id < es[j].id
  {
    assert Next(ss[i], es[i], ss[i + 1]) && Next(ss[j], es[j], ss[j + 1]);
    RunKeepsInv(ss, es, i + 1, j);
  }

  /** reset reschedules exactly the pending timers. */
  lemma ResetReschedules(ts: seq<Timer>, next: nat, id: nat, now: int, offset: int, interval: int)
    requires Inv(ts, next)
    ensures var (ts', done) := WasReset(ts, id, now, offset, interval);
      && (done <==> Pending(ts, id).Some?)
      && (done ==>
            var t := Pending(ts, id).value;
            Pending(ts', id) == Some(Timer(now + offset, id, if interval != 0 then interval else t.period, t.task)))
  {
    if Pending(ts, id).Some? {
      var t := Pending(ts, id).value;
      PendingIsBelow(ts, next, id);
      MoveKeepsInv(ts, next, Timer(now + offset, id, if interval != 0 then interval else t.period, t.task));
    }
  }

  /**
   refresh answers true for every pending periodic timer, but the timer is still pending
   afterwards exactly if it had not expired yet; an expired one is silently dropped.
   */
  lemma RefreshKeepsIffNotExpired(ts: seq<Timer>, next: nat, id: nat, now: int)
    requires Inv(ts, next)
    ensures var (ts', done) := Refreshed(ts, id, now);
      && (done <==> Pending(ts, id).Some? && Pending(ts, id).value.period != 0)
      && (done ==>
            var t := Pending(ts, id).value;
            Pending(ts', id) == if t.expires > now then Some(t.(expires := now + t.period)) else None)
  {
    if Pending(ts, id).Some? {
      var t := Pending(ts, id).value;
      PendingIsBelow(ts, next, id);
      EraseKeepsInv(ts, next, id);
      MoveKeepsInv(ts, next, t.(expires := now + t.period));
    }
  }

  lemma RefreshDropsExpiredExample(task: Task)
    ensures Refreshed([Timer(10, 0, 5, task)], 0, 10) == ([], true)
  {}
}
