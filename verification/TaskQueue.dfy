/**
 `task_queue`: one worker thread runs queued tasks in turn. Every lock-held region is one step and
 running a task is a step of its own; the timed wait of the worker may end at any moment.
 */
module TaskQueueProtocol {

  type Task(==, !new)

  datatype Worker =
    | NoThread
    | AtTop               // about to lock and test running_
    | Waiting             // inside the timed wait
    | Busy(task: Task)    // running a task, unlocked
    | Done                // left the loop, not joined yet

  datatype State = State(running: bool, tasks: seq<Task>, worker: Worker)

  const INITIAL := State(false, [], NoThread)

  datatype Event =
    | Startup
    | Shutdown            // running_ is cleared
    | Joined              // shutdown's join of the worker returns
    | Dispatch(task: Task, max: nat, accepted: bool)
    | Priority(task: Task, accepted: bool)
    | Clear
    | Look                // the worker tests the state and takes nothing
    | Take(task: Task)    // the worker pops the front task and unlocks
    | Finish              // the task returns or throws

  // ----- the lock-held regions

  function Dispatched(s: State, task: Task, max: nat): (State, bool) {
    if !s.running || (max > 0 && |s.tasks| >= max) then (s, false) else (s.(tasks := s.tasks + [task]), true)
  }

  function Prioritized(s: State, task: Task): (State, bool) {
    if !s.running then (s, false) else (s.(tasks := [task] + s.tasks), true)
  }

  function Popped(s: State): State
    requires s.tasks != []
  {
    s.(tasks := s.tasks[1..], worker := Busy(s.tasks[0]))
  }

  /** From the top of the loop to the wait, the unlock before a task, or the end of the loop. */
  function LookedAtTop(s: State): State {
    if !s.running then s.(worker := Done)
    else if s.tasks == [] then s.(worker := Waiting)
    else Popped(s)
  }

  /** After the wait the queue is tested again, but running_ is not. */
  function LookedAfterWait(s: State): State {
    if s.tasks == [] then s.(worker := AtTop) else Popped(s)
  }

  // ----- runs

  ghost predicate Next(s: State, e: Event, s': State) {
    match e
    case Startup =>
      if s.running then s' == s else s.worker == NoThread && s' == s.(running := true, worker := AtTop)
    case Shutdown => s.running && s' == s.(running := false)
    case Joined => !s.running && s.worker == Done && s' == s.(worker := NoThread)
    case Dispatch(task, max, accepted) => (s', accepted) == Dispatched(s, task, max)
    case Priority(task, accepted) => (s', accepted) == Prioritized(s, task)
    case Clear => s' == s.(tasks := [])
    case Look =>
      || (s.worker == AtTop && s' == LookedAtTop(s) && s'.tasks == s.tasks)
      || (s.worker == Waiting && s' == LookedAfterWait(s) && s'.tasks == s.tasks)
    case Take(task) =>
      && s.tasks != [] && task == s.tasks[0]
      && ((s.worker == AtTop && s' == LookedAtTop(s) == Popped(s)) || (s.worker == Waiting && s' == LookedAfterWait(s)))
    case Finish => s.worker.Busy? && s' == s.(worker := AtTop)
  }

  ghost predicate IsRun(ss: seq<State>, es: seq<Event>) {
    && |ss| == |es| + 1
    && ss[0] == INITIAL
    && forall i | 0 <= i < |es| :: Next(ss[i], es[i], ss[i + 1])
  }

  lemma Prefix(ss: seq<State>, es: seq<Event>, n: nat)
    requires IsRun(ss, es) && n <= |es|
    ensures IsRun(ss[..n + 1], es[..n]) && ss[..n + 1][n] == ss[n]
  {
    assert forall i | 0 <= i < n :: es[..n][i] == es[i] && ss[..n + 1][i] == ss[i];
  }

  // ----- what happened so far

  /** The tasks accepted, in order of acceptance, by either entry point. */
  function Accepted(es: seq<Event>): seq<Task> {
    if es == [] then [] else Accepted(es[..|es| - 1]) + AcceptedBy(es[|es| - 1])
  }

  function AcceptedBy(e: Event): seq<Task> {
    match e
    case Dispatch(task, _, true) => [task]
    case Priority(task, true) => [task]
    case _ => []
  }

  /** The tasks that ran to their end, in order. */
  function Executed(ss: seq<State>, es: seq<Event>): seq<Task>
    requires |ss| == |es| + 1
  {
    if es == [] then [] else Executed(ss[..|es|], es[..|es| - 1]) + ExecutedBy(ss[|es| - 1], es[|es| - 1])
  }

  function ExecutedBy(s: State, e: Event): seq<Task> {
    if e.Finish? && s.worker.Busy? then [s.worker.task] else []
  }

  /** The tasks thrown away by clear. */
  function Cleared(ss: seq<State>, es: seq<Event>): seq<Task>
    requires |ss| == |es| + 1
  {
    if es == [] then []
    else Cleared(ss[..|es|], es[..|es| - 1]) + ClearedBy(ss[|es| - 1], es[|es| - 1])
  }

  function InFlight(s: State): (r: seq<Task>)
    ensures |r| <= 1
  {
    if s.worker.Busy? then [s.worker.task] else []
  }

  // ----- main results

  /** The tasks a clear throws away. */
  function ClearedBy(s: State, e: Event): seq<Task> {
    if e.Clear? then s.tasks else []
  }

  lemma StepKeepsOrder(s: State, e: Event, s': State)
    requires Next(s, e, s') && !e.Priority? && !e.Clear?
    ensures ExecutedBy(s, e) + InFlight(s') + s'.tasks == InFlight(s) + s.tasks + AcceptedBy(e)
  {
    if e.Take? {
      assert s.tasks == [e.task] + s'.tasks;
    }
  }

  lemma StepConserves(s: State, e: Event, s': State)
    requires Next(s, e, s')
    ensures multiset(InFlight(s')) + multiset(s'.tasks) + multiset(ExecutedBy(s, e)) + multiset(ClearedBy(s, e))
            == multiset(InFlight(s)) + multiset(s.tasks) + multiset(AcceptedBy(e))
  {
    if e.Priority? {
      assert InFlight(s') == InFlight(s) && s'.tasks == AcceptedBy(e) + s.tasks;
      assert multiset(s'.tasks) == multiset(AcceptedBy(e)) + multiset(s.tasks);
    } else if e.Clear? {
      assert InFlight(s') == InFlight(s);
    } else {
      StepKeepsOrder(s, e, s');
      Unordered(ExecutedBy(s, e), InFlight(s'), s'.tasks);
      Unordered(InFlight(s), s.tasks, AcceptedBy(e));
    }
  }

  lemma Unordered<T>(a: seq<T>, b: seq<T>, c: seq<T>)
    ensures multiset(a + b + c) == multiset(a) + multiset(b) + multiset(c)
  {}

  lemma AddStep<T>(all: multiset<T>, done: multiset<T>, flight: multiset<T>, queued: multiset<T>, cleared: multiset<T>,
                   more: multiset<T>, moreDone: multiset<T>, flight': multiset<T>, queued': multiset<T>, moreCleared: multiset<T>)
    requires all == done + flight + queued + cleared
    requires flight' + queued' + moreDone + moreCleared == flight + queued + more
    ensures all + more == (done + moreDone) + flight' + queued' + (cleared + moreCleared)
  {
    assert all + more == done + cleared + (flight + queued + more);
  }

  /** Conservation: accepted = executed + in flight + queued + cleared; at most one task is in flight. */
  lemma {:induction false} NothingLostOrDuplicated(ss: seq<State>, es: seq<Event>)
    requires IsRun(ss, es)
    ensures multiset(Accepted(es))
            == multiset(Executed(ss, es)) + multiset(InFlight(ss[|es|])) + multiset(ss[|es|].tasks) + multiset(Cleared(ss, es))
  {
    if es != [] {
      var n := |es| - 1;
      var ss', es' := ss[..n + 1], es[..n];
      var s, e, s' := ss[n], es[n], ss[n + 1];
      Prefix(ss, es, n);
      NothingLostOrDuplicated(ss', es');
      StepConserves(s, e, s');
      AddStep(multiset(Accepted(es')), multiset(Executed(ss', es')), multiset(InFlight(s)), multiset(s.tasks), multiset(Cleared(ss', es')),
              multiset(AcceptedBy(e)), multiset(ExecutedBy(s, e)), multiset(InFlight(s')), multiset(s'.tasks), multiset(ClearedBy(s, e)));
    }
  }

  lemma AppendStep<T>(
      done: seq<T>, now: seq<T>, queued: seq<T>, more: seq<T>, moreDone: seq<T>, now': seq<T>, queued': seq<T>)
    requires moreDone + now' + queued' == now + queued + more
    ensures (done + moreDone) + now' + queued' == (done + now + queued) + more
  {
    assert (done + moreDone) + now' + queued' == done + (moreDone + now' + queued');
    assert done + (now + queued + more) == (done + now + queued) + more;
  }

  /**
   First in, first out: as long as nobody uses priority or clear, the executed tasks followed by
   the one in flight and the queued ones are the accepted tasks in order, across any number of
   shutdowns and restarts.
   */
  lemma {:induction false} FirstInFirstOut(ss: seq<State>, es: seq<Event>)
    requires IsRun(ss, es)
    requires forall i | 0 <= i < |es| :: !es[i].Priority? && !es[i].Clear?
    ensures Executed(ss, es) + InFlight(ss[|es|]) + ss[|es|].tasks == Accepted(es)
  {
    if es != [] {
      var n := |es| - 1;
      Prefix(ss, es, n);
      FirstInFirstOut(ss[..n + 1], es[..n]);
      StepKeepsOrder(ss[n], es[n], ss[n + 1]);
      AppendStep(Executed(ss[..n + 1], es[..n]), InFlight(ss[n]), ss[n].tasks, AcceptedBy(es[n]),
                 ExecutedBy(ss[n], es[n]), InFlight(ss[n + 1]), ss[n + 1].tasks);
    }
  }

  function Takes(es: seq<Event>): nat {
    if es == [] then 0 else Takes(es[..|es| - 1]) + if es[|es| - 1].Take? then 1 else 0
  }

  ghost predicate Overtakes(e: Event) {
    e.Clear? || e.Take? || (e.Priority? && e.accepted)
  }

  /** A job accepted by priority is the next one taken, unless another overtakes it or the queue is cleared. */
  lemma {:induction false} PriorityIsTakenNext(ss: seq<State>, es: seq<Event>, i: nat, j: nat, task: Task)
    requires IsRun(ss, es) && i < j <= |es| && es[i] == Priority(task, true)
    requires forall k | i < k < j :: !Overtakes(es[k])
    ensures ss[j].tasks != [] && ss[j].tasks[0] == task
    ensures j < |es| && es[j].Take? ==> es[j] == Take(task)
    decreases j - i
  {
    assert Next(ss[j - 1], es[j - 1], ss[j]);
    if i + 1 < j {
      PriorityIsTakenNext(ss, es, i, j - 1, task);
    }
    if j < |es| {
      assert Next(ss[j], es[j], ss[j + 1]);
    }
  }

  /**
   Once shutdown has cleared running_, and until the next startup, the worker dequeues at most one
   more task, and none at all unless it was inside its wait at that moment.
   */
  lemma {:induction false} AtMostOneTakenAfterShutdown(ss: seq<State>, es: seq<Event>, i: nat, j: nat)
    requires IsRun(ss, es) && i < j <= |es| && es[i] == Shutdown
    requires forall k | i < k < j :: es[k] != Startup
    ensures !ss[j].running
    ensures Takes(es[i..j]) + (if ss[j].worker.Waiting? then 1 else 0) <= if ss[i].worker.Waiting? then 1 else 0
    decreases j - i
  {
    assert Next(ss[j - 1], es[j - 1], ss[j]);
    assert es[i..j][..j - 1 - i] == es[i..j - 1];
    if i + 1 < j {
      AtMostOneTakenAfterShutdown(ss, es, i, j - 1);
    } else {
      assert Takes(es[i..j - 1]) == 0;
    }
  }

  /** Only a worker that was in its wait, with something queued, can still take a job. */
  predicate CanStillTake(s: State) {
    s.worker.Waiting? && s.tasks != []
  }

  lemma {:induction false} OtherwiseNothingTaken(ss: seq<State>, es: seq<Event>, i: nat, j: nat)
    requires IsRun(ss, es) && i < j <= |es| && es[i] == Shutdown && !CanStillTake(ss[i])
    requires forall k | i < k < j :: es[k] != Startup
    ensures !ss[j].running && !CanStillTake(ss[j]) && Takes(es[i..j]) == 0
    decreases j - i
  {
    assert Next(ss[j - 1], es[j - 1], ss[j]);
    assert es[i..j][..j - 1 - i] == es[i..j - 1];
    if i + 1 < j {
      OtherwiseNothingTaken(ss, es, i, j - 1);
    } else {
      assert Takes(es[i..j - 1]) == 0;
    }
  }

  lemma WaitingWorkerTakes(ss: seq<State>, es: seq<Event>)
    requires IsRun(ss, es) && es != [] && es[|es| - 1] == Shutdown && CanStillTake(ss[|es| - 1])
    ensures var s := ss[|es| - 1];
      IsRun(ss + [Popped(s.(running := false))], es + [Take(s.tasks[0])])
  {
    var n := |es|;
    var s := ss[n - 1];
    assert Next(s, es[n - 1], ss[n]);
    var ss', es' := ss + [Popped(s.(running := false))], es + [Take(s.tasks[0])];
    forall k | 0 <= k < |es'| ensures Next(ss'[k], es'[k], ss'[k + 1]) {
      assert k < n ==> Next(ss[k], es[k], ss[k + 1]);
    }
  }

  /** A run that goes on from `ss`, `es` without a startup. */
  ghost predicate GoesOn(ss: seq<State>, es: seq<Event>, ss': seq<State>, es': seq<Event>) {
    IsRun(ss', es') && es <= es' && ss <= ss' && forall k | |es| <= k < |es'| :: es'[k] != Startup
  }

  /** After a shutdown, a job can be taken before the next startup exactly if the worker could still take one. */
  lemma TakenAfterShutdownIff(ss: seq<State>, es: seq<Event>)
    requires IsRun(ss, es) && es != [] && es[|es| - 1] == Shutdown
    ensures (exists ss', es' :: GoesOn(ss, es, ss', es') && Takes(es'[|es|..]) > 0) <==> CanStillTake(ss[|es| - 1])
  {
    var n := |es|;
    if CanStillTake(ss[n - 1]) {
      WaitingWorkerTakes(ss, es);
      var task := ss[n - 1].tasks[0];
      var ss', es' := ss + [Popped(ss[n - 1].(running := false))], es + [Take(task)];
      assert es'[n..] == [Take(task)] && Takes([]) == 0 && [Take(task)][..0] == [];
      assert GoesOn(ss, es, ss', es');
    } else {
      forall ss', es' | GoesOn(ss, es, ss', es') ensures Takes(es'[n..]) == 0 {
        NothingTakenGoingOn(ss, es, ss', es');
      }
    }
  }

  lemma NothingTakenGoingOn(ss: seq<State>, es: seq<Event>, ss': seq<State>, es': seq<Event>)
    requires IsRun(ss, es) && es != [] && es[|es| - 1] == Shutdown && !CanStillTake(ss[|es| - 1])
    requires GoesOn(ss, es, ss', es')
    ensures Takes(es'[|es|..]) == 0
  {
    var n := |es|;
    if n < |es'| {
      assert es'[n - 1] == Shutdown && ss'[n - 1] == ss[n - 1];
      OtherwiseNothingTaken(ss', es', n - 1, |es'|);
      assert es'[n - 1..|es'|] == [Shutdown] + es'[n..];
      TakesAfterFirst(Shutdown, es'[n..]);
    }
  }

  lemma {:induction false} TakesAfterFirst(e: Event, es: seq<Event>)
    ensures Takes([e] + es) == Takes(es) + if e.Take? then 1 else 0
    decreases |es|
  {
    if es == [] {
      assert ([e] + es)[..0] == [];
    } else {
      assert ([e] + es)[..|es|] == [e] + es[..|es| - 1];
      TakesAfterFirst(e, es[..|es| - 1]);
    }
  }

  /** That one task can really be taken: shut down while the worker waits, after a task was queued. */
  lemma TakenAfterShutdownExample(task: Task)
    ensures var es := [Startup, Look, Dispatch(task, 0, true), Shutdown, Take(task)];
            var waiting := State(true, [], Waiting);
            var ss := [INITIAL, State(true, [], AtTop), waiting, waiting.(tasks := [task]),
                       State(false, [task], Waiting), State(false, [], Busy(task))];
            IsRun(ss, es)
  {
    assert Popped(State(false, [task], Waiting)) == State(false, [], Busy(task));
    assert Dispatched(State(true, [], Waiting), task, 0).0.tasks == [] + [task] == [task];
  }

  // ----- what the events so far say of the queue

  /** Some startup has come, and no shutdown since. */
  ghost predicate RunningSince(es: seq<Event>, i: nat)
    requires i <= |es|
  {
    exists k | 0 <= k < i :: es[k].Startup? && forall m | k < m < i :: !es[m].Shutdown?
  }

  lemma RunningSinceStep(es: seq<Event>, i: nat)
    requires 0 < i <= |es|
    ensures RunningSince(es, i) <==> es[i - 1].Startup? || (RunningSince(es, i - 1) && !es[i - 1].Shutdown?)
  {
    if k :| 0 <= k < i - 1 && es[k].Startup? && forall m | k < m < i - 1 :: !es[m].Shutdown? {
      assert !es[i - 1].Shutdown? ==> forall m | k < m < i :: !es[m].Shutdown?;
    }
  }

  /** What was accepted since the last clear, less what was taken since. */
  function Backlog(es: seq<Event>, i: nat): int
    requires i <= |es|
  {
    if i == 0 || es[i - 1].Clear? then 0
    else Backlog(es, i - 1) + |AcceptedBy(es[i - 1])| - if es[i - 1].Take? then 1 else 0
  }

  ghost predicate IsAtWork(w: Worker) {
    w.AtTop? || w.Waiting? || w.Busy?
  }

  lemma {:induction false} StateFollowsEvents(ss: seq<State>, es: seq<Event>, i: nat)
    requires IsRun(ss, es) && i <= |es|
    ensures ss[i].running <==> RunningSince(es, i)
    ensures |ss[i].tasks| == Backlog(es, i)
    ensures ss[i].running ==> IsAtWork(ss[i].worker)
  {
    if i > 0 {
      StateFollowsEvents(ss, es, i - 1);
      assert Next(ss[i - 1], es[i - 1], ss[i]);
      RunningSinceStep(es, i);
    }
  }

  /** dispatch accepts exactly when the queue was started and not shut down since, and its limit, if any, is not reached. */
  lemma DispatchAcceptsIff(ss: seq<State>, es: seq<Event>, i: nat)
    requires IsRun(ss, es) && i < |es| && es[i].Dispatch?
    ensures es[i].accepted <==> RunningSince(es, i) && (es[i].max == 0 || Backlog(es, i) < es[i].max)
  {
    StateFollowsEvents(ss, es, i);
    assert Next(ss[i], es[i], ss[i + 1]);
  }

  /** priority accepts exactly when the queue was started and not shut down since; it knows no limit. */
  lemma PriorityAcceptsIff(ss: seq<State>, es: seq<Event>, i: nat)
    requires IsRun(ss, es) && i < |es| && es[i].Priority?
    ensures es[i].accepted <==> RunningSince(es, i)
  {
    StateFollowsEvents(ss, es, i);
    assert Next(ss[i], es[i], ss[i + 1]);
  }

  /** While the queue runs and holds a task, its worker can take that task, unless it first finishes another. */
  lemma QueuedCanBeTaken(ss: seq<State>, es: seq<Event>)
    requires IsRun(ss, es) && RunningSince(es, |es|) && Backlog(es, |es|) > 0
    ensures var s := ss[|es|];
      && s.tasks != []
      && if s.worker.Busy? then exists s' :: Next(s, Finish, s') else exists s' :: Next(s, Take(s.tasks[0]), s')
  {
    var s := ss[|es|];
    StateFollowsEvents(ss, es, |es|);
    if s.worker.Busy? {
      assert Next(s, Finish, s.(worker := AtTop));
    } else {
      assert Next(s, Take(s.tasks[0]), Popped(s));
    }
  }

  lemma NotAccepting(es: seq<Event>, j: nat)
    requires 0 < j <= |es| && AcceptedBy(es[j - 1]) == []
    ensures Accepted(es[..j]) == Accepted(es[..j - 1])
  {
    assert es[..j][..j - 1] == es[..j - 1];
  }

  lemma {:induction false} StaysStopped(ss: seq<State>, es: seq<Event>, i: nat, j: nat)
    requires IsRun(ss, es) && i < j <= |es| && es[i] == Shutdown
    requires forall k | i < k < j :: es[k] != Startup
    ensures !ss[j].running
    decreases j - i
  {
    assert Next(ss[j - 1], es[j - 1], ss[j]);
    if i + 1 < j {
      StaysStopped(ss, es, i, j - 1);
    }
  }

  /** Nothing is accepted between a shutdown and the next startup. */
  lemma {:induction false} NothingAcceptedAfterShutdown(ss: seq<State>, es: seq<Event>, i: nat, j: nat)
    requires IsRun(ss, es) && i < j <= |es| && es[i] == Shutdown
    requires forall k | i < k < j :: es[k] != Startup
    ensures Accepted(es[..j]) == Accepted(es[..i])
    decreases j - i
  {
    if i + 1 < j {
      StaysStopped(ss, es, i, j - 1);
      assert Next(ss[j - 1], es[j - 1], ss[j]);
      NothingAcceptedAfterShutdown(ss, es, i, j - 1);
    }
    NotAccepting(es, j);
  }
}

/** The object: one method per lock-held region, each tied to the protocol. */
module TaskQueue {
  import opened TaskQueueProtocol

  class TaskQueue {
    var running: bool
    var tasks: seq<Task>
    var worker: Worker

    ghost function Abstract(): State
      reads this
    {
      State(running, tasks, worker)
    }

    constructor ()
      ensures Abstract() == INITIAL
    {
      running, tasks, worker := false, [], NoThread;
    }

    method Priority(task: Task) returns (accepted: bool)
      modifies this
      ensures Next(old(Abstract()), Event.Priority(task, accepted), Abstract())
    {
      if !running {
        return false;
      }
      tasks := [task] + tasks;
      accepted := true;
    }

    method Dispatch(task: Task, max: nat) returns (accepted: bool)
      modifies this
      ensures Next(old(Abstract()), Event.Dispatch(task, max, accepted), Abstract())
    {
      if !running {
        return false;
      }
      if max != 0 && |tasks| >= max {
        return false;
      }
      tasks := tasks + [task];
      accepted := true;
    }

    /** A thread object that still holds a thread cannot be assigned to. */
    method Startup()
      requires running || worker == NoThread
      modifies this
      ensures Next(old(Abstract()), Event.Startup, Abstract())
    {
      if running {
        return;
      }
      running := true;
      worker := AtTop;
    }

    /** The region of shutdown before its join; false when the queue is not running. */
    method StopRunning() returns (stopped: bool)
      modifies this
      ensures stopped == old(running)
      ensures if stopped then Next(old(Abstract()), Shutdown, Abstract()) else Abstract() == old(Abstract())
    {
      if !running {
        return false;
      }
      running := false;
      stopped := true;
    }

    method Clear()
      modifies this
      ensures Next(old(Abstract()), Event.Clear, Abstract())
    {
      tasks := [];
    }

    /** One pass of the worker from the top of its loop, up to the wait if the queue is empty. */
    method AtLoopTop() returns (ghost e: Event)
      requires worker == AtTop
      modifies this
      ensures Next(old(Abstract()), e, Abstract())
      ensures e == if old(running) && old(tasks) != [] then Take(old(tasks)[0]) else Look
    {
      e := Look;
      if !running {
        worker := Done;
        return;
      }
      if tasks == [] {
        worker := Waiting;
        return;
      }
      e := Take(tasks[0]);
      worker := Busy(tasks[0]);
      tasks := tasks[1..];
    }

    /** The worker's wait ends, notified, timed out or spuriously. */
    method AfterWait() returns (ghost e: Event)
      requires worker == Waiting
      modifies this
      ensures Next(old(Abstract()), e, Abstract())
      ensures e == if old(tasks) != [] then Take(old(tasks)[0]) else Look
    {
      e := Look;
      if tasks == [] {
        worker := AtTop;
        return;
      }
      e := Take(tasks[0]);
      worker := Busy(tasks[0]);
      tasks := tasks[1..];
    }
  }
}
