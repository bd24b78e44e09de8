/**
 `task_pool`: every lock-held region is one step, running a task is a step of its own, and
 dispatchers, workers and one draining thread interleave freely. Wakeups are not modelled: a
 worker may look at the queue at any time, as after a spurious wakeup.
 */
module TaskPoolProtocol {
  type Task(==, !new)

  datatype Worker = Ready | Running(task: Task) | Exited

  datatype Drain = NoDrain | Joining(joined: nat)

  datatype State = State(
    accepting: bool,
    started: bool,
    tasks: seq<Task>,
    workers: seq<Worker>,
    drain: Drain)

  const INITIAL := State(false, false, [], [], NoDrain)

  datatype Event =
    | Start(count: nat, hardware: nat)
    | Dispatch(task: Task, accepted: bool)
    | Take(w: nat, task: Task)  // a worker pops the front task and unlocks
    | Finish(w: nat)            // the task it was running returns
    | Exit(w: nat)              // a worker sees no more work coming and returns
    | DrainBegin
    | Join(w: nat)
    | DrainEnd                  // drain returns to its caller

  // ----- the lock-held regions

  function WorkerCount(count: nat, hardware: nat): nat {
    if count > 0 then count else if hardware > 0 then hardware else 1
  }

  function Started(s: State, count: nat, hardware: nat): State {
    if s.started then s
    else s.(accepting := true, started := true, workers := seq(WorkerCount(count, hardware), _ => Ready))
  }

  function Dispatched(s: State, task: Task): (State, bool) {
    if s.accepting then (s.(tasks := s.tasks + [task]), true) else (s, false)
  }

  /** The wait predicate of a worker. */
  predicate Wakes(s: State) {
    !s.accepting || s.tasks != []
  }

  /** What a worker does once its wait is over: take the front task, or return. */
  function Woken(s: State, w: nat): State
    requires w < |s.workers| && Wakes(s)
  {
    if !s.accepting && s.tasks == [] then s.(workers := s.workers[w := Exited])
    else s.(tasks := s.tasks[1..], workers := s.workers[w := Running(s.tasks[0])])
  }

  function DrainBegun(s: State): State {
    s.(accepting := false, drain := Joining(0))
  }

  function DrainEnded(s: State): State {
    s.(workers := [], started := false, drain := NoDrain)
  }

  // ----- runs

  ghost predicate Next(s: State, e: Event, s': State) {
    match e
    case Start(count, hardware) => s' == Started(s, count, hardware)
    case Dispatch(task, accepted) => (s', accepted) == Dispatched(s, task)
    case Take(w, task) =>
      && w < |s.workers| && s.workers[w] == Ready && s.tasks != [] && task == s.tasks[0]
      && s' == Woken(s, w)
    case Exit(w) =>
      && w < |s.workers| && s.workers[w] == Ready && !s.accepting && s.tasks == []
      && s' == Woken(s, w)
    case Finish(w) =>
      w < |s.workers| && s.workers[w].Running? && s' == s.(workers := s.workers[w := Ready])
    case DrainBegin => s.drain.NoDrain? && s' == DrainBegun(s)
    case Join(w) =>
      && s.drain == Joining(w) && w < |s.workers| && s.workers[w] == Exited
      && s' == s.(drain := Joining(w + 1))
    case DrainEnd => s.drain == Joining(|s.workers|) && s' == DrainEnded(s)
  }

  ghost predicate IsRun(ss: seq<State>, es: seq<Event>) {
    && |ss| == |es| + 1
    && ss[0] == INITIAL
    && forall i | 0 <= i < |es| :: Next(ss[i], es[i], ss[i + 1])
  }

  // ----- what happened so far

  /** The tasks dispatch accepted, in order. */
  function Accepted(es: seq<Event>): seq<Task> {
    if es == [] then []
    else
      var before := Accepted(es[..|es| - 1]);
      match es[|es| - 1]
      case Dispatch(task, true) => before + [task]
      case _ => before
  }

  /** The tasks the workers took, in order. */
  function Taken(es: seq<Event>): seq<Task> {
    if es == [] then []
    else
      var before := Taken(es[..|es| - 1]);
      match es[|es| - 1]
      case Take(_, task) => before + [task]
      case _ => before
  }

  /** The tasks that ran to their end: a Finish event ends the task its worker was running. */
  ghost function Executed(ss: seq<State>, es: seq<Event>): multiset<Task>
    requires |ss| == |es| + 1
  {
    if es == [] then multiset{}
    else
      var before := Executed(ss[..|es|], es[..|es| - 1]);
      var s := ss[|es| - 1];
      match es[|es| - 1]
      case Finish(w) =>
        if w < |s.workers| && s.workers[w].Running? then before + multiset{s.workers[w].task} else before
      case _ => before
  }

  ghost function TaskOf(w: Worker): multiset<Task> {
    if w.Running? then multiset{w.task} else multiset{}
  }

  /** The tasks the workers are running. */
  ghost function InFlight(workers: seq<Worker>): multiset<Task> {
    if workers == [] then multiset{} else TaskOf(workers[0]) + InFlight(workers[1..])
  }

  lemma {:induction false} InFlightAfterUpdate(workers: seq<Worker>, i: nat, w: Worker)
    requires i < |workers|
    ensures InFlight(workers[i := w]) + TaskOf(workers[i]) == InFlight(workers) + TaskOf(w)
  {
    var updated := workers[i := w];
    if i == 0 {
      assert updated[1..] == workers[1..];
      var rest := InFlight(workers[1..]);
      assert (TaskOf(w) + rest) + TaskOf(workers[0]) == (TaskOf(workers[0]) + rest) + TaskOf(w);
    } else {
      InFlightAfterUpdate(workers[1..], i - 1, w);
      assert updated[1..] == workers[1..][i - 1 := w];
      var first, was, now := TaskOf(workers[0]), InFlight(workers[1..]), InFlight(updated[1..]);
      assert (first + now) + TaskOf(workers[i]) == first + (now + TaskOf(workers[i]));
      assert first + (was + TaskOf(w)) == (first + was) + TaskOf(w);
    }
  }

  lemma {:induction false} NothingInFlight(workers: seq<Worker>)
    requires forall i | 0 <= i < |workers| :: !workers[i].Running?
    ensures InFlight(workers) == multiset{}
  {
    if workers != [] {
      NothingInFlight(workers[1..]);
    }
  }

  // ----- what every step keeps

  ghost predicate Inv(s: State) {
    && (s.accepting ==> s.started)
    && (s.started <==> s.workers != [])
    // queued work always has a worker left to take it
    && (s.tasks != [] ==> s.workers != [] && forall i | 0 <= i < |s.workers| :: s.workers[i] != Exited)
    && (s.accepting ==> forall i | 0 <= i < |s.workers| :: s.workers[i] != Exited)
    && (s.drain.Joining? ==> s.drain.joined <= |s.workers| && forall i | 0 <= i < s.drain.joined :: s.workers[i] == Exited)
  }

  lemma StepKeepsInv(s: State, e: Event, s': State)
    requires Inv(s) && Next(s, e, s')
    ensures Inv(s')
  {
    assert e.DrainEnd? && s.workers != [] ==> s.workers[0] == Exited;
  }

  /** What a step adds to the tasks taken and to the tasks run to their end. */
  ghost function TakenBy(e: Event): seq<Task> {
    if e.Take? then [e.task] else []
  }

  ghost function ExecutedBy(s: State, e: Event): multiset<Task> {
    if e.Finish? && e.w < |s.workers| then TaskOf(s.workers[e.w]) else multiset{}
  }

  lemma StepConserves(s: State, e: Event, s': State)
    requires Inv(s) && Next(s, e, s')
    ensures InFlight(s'.workers) + ExecutedBy(s, e) == InFlight(s.workers) + multiset(TakenBy(e))
  {
    match e {
      case Start(count, hardware) =>
        if !s.started {
          NothingInFlight(s'.workers);
        }
      case Take(w, task) =>
        assert TaskOf(s.workers[w]) == multiset{} && TaskOf(Running(task)) == multiset(TakenBy(e));
        InFlightAfterUpdate(s.workers, w, Running(task));
      case Exit(w) =>
        assert TaskOf(s.workers[w]) == TaskOf(Exited) == multiset{};
        InFlightAfterUpdate(s.workers, w, Exited);
      case Finish(w) =>
        assert TaskOf(Ready) == multiset{};
        InFlightAfterUpdate(s.workers, w, Ready);
      case DrainEnd => NothingInFlight(s.workers);
      case _ => assert s'.workers == s.workers;
    }
  }

  lemma {:induction false} RunKeepsInv(ss: seq<State>, es: seq<Event>)
    requires IsRun(ss, es)
    ensures Inv(ss[|es|])
  {
    if es != [] {
      var n := |es| - 1;
      Prefix(ss, es, n);
      RunKeepsInv(ss[..n + 1], es[..n]);
      StepKeepsInv(ss[n], es[n], ss[n + 1]);
    }
  }

  lemma Prefix(ss: seq<State>, es: seq<Event>, n: nat)
    requires IsRun(ss, es) && n <= |es|
    ensures IsRun(ss[..n + 1], es[..n]) && ss[..n + 1][n] == ss[n]
  {
    assert forall i | 0 <= i < n :: es[..n][i] == es[i] && ss[..n + 1][i] == ss[i];
  }

  // ----- main results

  /** Tasks leave the queue in the order dispatch accepted them, none lost and none duplicated. */
  lemma {:induction false} TakenInAcceptanceOrder(ss: seq<State>, es: seq<Event>)
    requires IsRun(ss, es)
    ensures Accepted(es) == Taken(es) + ss[|es|].tasks
  {
    if es != [] {
      var n := |es| - 1;
      Prefix(ss, es, n);
      TakenInAcceptanceOrder(ss[..n + 1], es[..n]);
      assert Next(ss[n], es[n], ss[n + 1]);
      HistoryUnfolds(ss, es, n);
      var taken := Taken(es[..n]);
      match es[n] {
        case Take(_, task) =>
          assert ss[n].tasks == [task] + ss[n + 1].tasks;
          Associates(taken, [task], ss[n + 1].tasks);
        case Dispatch(task, true) =>
          Associates(taken, ss[n].tasks, [task]);
        case _ =>
          assert taken + TakenBy(es[n]) == taken;
      }
    }
  }

  lemma Associates<T>(a: seq<T>, b: seq<T>, c: seq<T>)
    ensures (a + b) + c == a + (b + c)
  {}

  lemma {:induction false} HistoryUnfolds(ss: seq<State>, es: seq<Event>, n: nat)
    requires IsRun(ss, es) && |es| == n + 1
    ensures Taken(es) == Taken(es[..n]) + TakenBy(es[n])
    ensures Executed(ss, es) == Executed(ss[..n + 1], es[..n]) + ExecutedBy(ss[n], es[n])
  {
    assert Next(ss[n], es[n], ss[n + 1]);
  }

  /** Every task taken has either run to its end or is being run by exactly one worker. */
  lemma {:induction false} TakenIsExecutedOrInFlight(ss: seq<State>, es: seq<Event>)
    requires IsRun(ss, es)
    ensures multiset(Taken(es)) == Executed(ss, es) + InFlight(ss[|es|].workers)
  {
    if es != [] {
      var n := |es| - 1;
      Prefix(ss, es, n);
      TakenIsExecutedOrInFlight(ss[..n + 1], es[..n]);
      RunKeepsInv(ss[..n + 1], es[..n]);
      StepConserves(ss[n], es[n], ss[n + 1]);
      HistoryUnfolds(ss, es, n);
      var before, more := Taken(es[..n]), TakenBy(es[n]);
      assert multiset(before + more) == multiset(before) + multiset(more);
      assert multiset(Taken(es)) == Executed(ss[..n + 1], es[..n]) + (InFlight(ss[n].workers) + multiset(more));
    }
  }

  /** Conservation: accepted = executed + in flight + queued, with multiplicities. */
  lemma NothingLostOrDuplicated(ss: seq<State>, es: seq<Event>)
    requires IsRun(ss, es)
    ensures multiset(Accepted(es)) == Executed(ss, es) + InFlight(ss[|es|].workers) + multiset(ss[|es|].tasks)
  {
    TakenInAcceptanceOrder(ss, es);
    TakenIsExecutedOrInFlight(ss, es);
  }

  /** When drain returns, every task ever accepted has run exactly as often as it was accepted. */
  lemma DrainReturnsAfterAllRan(ss: seq<State>, es: seq<Event>)
    requires IsRun(ss, es) && es != [] && es[|es| - 1] == DrainEnd
    ensures Executed(ss, es) == multiset(Accepted(es))
    ensures ss[|es|].tasks == [] && !ss[|es|].accepting && !ss[|es|].started
  {
    var n := |es| - 1;
    Prefix(ss, es, n);
    RunKeepsInv(ss[..n + 1], es[..n]);
    RunKeepsInv(ss, es);
    assert Next(ss[n], es[n], ss[n + 1]);
    NothingLostOrDuplicated(ss, es);
    NothingInFlight(ss[|es|].workers);
  }

  /** From the moment drain begins until the next start that takes effect, dispatch refuses every task. */
  lemma {:induction false} NothingAcceptedAfterDrain(ss: seq<State>, es: seq<Event>, i: nat, j: nat)
    requires IsRun(ss, es) && i < j <= |es| && es[i] == DrainBegin
    requires forall k | i < k < j :: es[k].Start? ==> ss[k].started
    ensures !ss[j].accepting
    ensures Accepted(es[..j]) == Accepted(es[..i])
    decreases j - i
  {
    if i + 1 < j {
      NothingAcceptedAfterDrain(ss, es, i, j - 1);
    }
    assert Next(ss[j - 1], es[j - 1], ss[j]);
    NotAccepting(es, j);
  }

  lemma NotAccepting(es: seq<Event>, j: nat)
    requires 0 < j <= |es| && !(es[j - 1].Dispatch? && es[j - 1].accepted)
    ensures Accepted(es[..j]) == Accepted(es[..j - 1])
  {
    assert es[..j][..j - 1] == es[..j - 1];
  }

  /** A start while a drain is still joining does nothing: it must come after the drain returned. */
  lemma StartDuringDrainIsIgnored(ss: seq<State>, es: seq<Event>, count: nat, hardware: nat)
    requires IsRun(ss, es) && ss[|es|].drain.Joining? && ss[|es|].drain.joined < |ss[|es|].workers|
    ensures Started(ss[|es|], count, hardware) == ss[|es|]
  {
    RunKeepsInv(ss, es);
  }

  // ----- what the events so far say of the pool

  /** Some start has come since the last drain returned. */
  ghost predicate StartedSince(es: seq<Event>, i: nat)
    requires i <= |es|
  {
    exists k | 0 <= k < i :: es[k].Start? && forall m | k < m < i :: !es[m].DrainEnd?
  }

  /** A start takes effect if it is the first one, or the first since a drain returned. */
  ghost predicate TakesEffect(es: seq<Event>, k: nat)
    requires k < |es|
  {
    es[k].Start? && !StartedSince(es, k)
  }

  /** No drain has begun since the last start that took effect. */
  ghost predicate AcceptingSince(es: seq<Event>, i: nat)
    requires i <= |es|
  {
    exists k | 0 <= k < i :: TakesEffect(es, k) && forall m | k < m < i :: !es[m].DrainBegin?
  }

  lemma StartedSinceStep(es: seq<Event>, i: nat)
    requires 0 < i <= |es|
    ensures StartedSince(es, i) <==> es[i - 1].Start? || (StartedSince(es, i - 1) && !es[i - 1].DrainEnd?)
  {
    if k :| 0 <= k < i - 1 && es[k].Start? && forall m | k < m < i - 1 :: !es[m].DrainEnd? {
      assert !es[i - 1].DrainEnd? ==> forall m | k < m < i :: !es[m].DrainEnd?;
    }
  }

  lemma AcceptingSinceStep(es: seq<Event>, i: nat)
    requires 0 < i <= |es|
    ensures AcceptingSince(es, i) <==> TakesEffect(es, i - 1) || (AcceptingSince(es, i - 1) && !es[i - 1].DrainBegin?)
  {
    if k :| 0 <= k < i - 1 && TakesEffect(es, k) && forall m | k < m < i - 1 :: !es[m].DrainBegin? {
      assert !es[i - 1].DrainBegin? ==> forall m | k < m < i :: !es[m].DrainBegin?;
    }
  }

  lemma {:induction false} StateFollowsEvents(ss: seq<State>, es: seq<Event>, i: nat)
    requires IsRun(ss, es) && i <= |es|
    ensures ss[i].started <==> StartedSince(es, i)
    ensures ss[i].accepting <==> AcceptingSince(es, i)
  {
    if i > 0 {
      StateFollowsEvents(ss, es, i - 1);
      assert Next(ss[i - 1], es[i - 1], ss[i]);
      StartedSinceStep(es, i);
      AcceptingSinceStep(es, i);
    }
  }

  /** dispatch accepts exactly when some start has taken effect and no drain has begun since. */
  lemma DispatchAcceptsIff(ss: seq<State>, es: seq<Event>, i: nat)
    requires IsRun(ss, es) && i < |es| && es[i].Dispatch?
    ensures es[i].accepted <==> AcceptingSince(es, i)
  {
    StateFollowsEvents(ss, es, i);
    assert Next(ss[i], es[i], ss[i + 1]);
  }

  /** From a start that takes effect until a drain returns, there are as many workers as it was to start. */
  lemma {:induction false} WorkersOfStart(ss: seq<State>, es: seq<Event>, k: nat, i: nat)
    requires IsRun(ss, es) && k < i <= |es| && TakesEffect(es, k)
    requires forall m | k < m < i :: !es[m].DrainEnd?
    ensures ss[i].started
    ensures es[k].count > 0 ==> |ss[i].workers| == es[k].count
    ensures es[k].count == 0 && es[k].hardware > 0 ==> |ss[i].workers| == es[k].hardware
    ensures es[k].count == 0 && es[k].hardware == 0 ==> |ss[i].workers| == 1
    decreases i
  {
    StateFollowsEvents(ss, es, i - 1);
    assert Next(ss[i - 1], es[i - 1], ss[i]);
    if k + 1 < i {
      WorkersOfStart(ss, es, k, i - 1);
    }
  }

  /** While tasks are queued there are workers, any of them that is ready can take the front one, and no other waits. */
  lemma QueuedCanBeTaken(ss: seq<State>, es: seq<Event>, w: nat)
    requires IsRun(ss, es) && ss[|es|].tasks != []
    ensures var s := ss[|es|];
      && s.workers != []
      && (w < |s.workers| ==>
            if s.workers[w] == Ready then exists s' :: Next(s, Take(w, s.tasks[0]), s')
            else exists s' :: Next(s, Finish(w), s'))
  {
    var s := ss[|es|];
    RunKeepsInv(ss, es);
    if w < |s.workers| {
      if s.workers[w] == Ready {
        assert Next(s, Take(w, s.tasks[0]), Woken(s, w));
      } else {
        assert Next(s, Finish(w), s.(workers := s.workers[w := Ready]));
      }
    }
  }

  // ----- how long a drain takes

  /** The steps a drain waits for: two for each queued task, and each worker's own way to its exit. */
  function StepsOf(w: Worker): nat {
    match w case Ready => 1 case Running(_) => 2 case Exited => 0
  }

  function StepsOfAll(workers: seq<Worker>): nat {
    if workers == [] then 0 else StepsOf(workers[0]) + StepsOfAll(workers[1..])
  }

  function Unjoined(s: State): nat {
    if s.drain.Joining? && s.drain.joined <= |s.workers| then |s.workers| - s.drain.joined else |s.workers|
  }

  function StepsLeft(s: State): nat {
    2 * |s.tasks| + StepsOfAll(s.workers) + Unjoined(s)
  }

  predicate IsWork(e: Event) {
    e.Take? || e.Finish? || e.Exit? || e.Join?
  }

  /** How many of the events from `i` on, up to `j`, are steps a drain waits for. */
  function WorkDone(es: seq<Event>, i: nat, j: nat): nat
    requires j <= |es|
    decreases j
  {
    if j <= i then 0 else WorkDone(es, i, j - 1) + if IsWork(es[j - 1]) then 1 else 0
  }

  lemma {:induction false} StepsAfterUpdate(workers: seq<Worker>, i: nat, w: Worker)
    requires i < |workers|
    ensures StepsOfAll(workers[i := w]) + StepsOf(workers[i]) == StepsOfAll(workers) + StepsOf(w)
  {
    if i == 0 {
      assert workers[0 := w][1..] == workers[1..];
    } else {
      StepsAfterUpdate(workers[1..], i - 1, w);
      assert workers[i := w][1..] == workers[1..][i - 1 := w];
    }
  }

  lemma {:induction false} NoStepsIff(workers: seq<Worker>)
    ensures StepsOfAll(workers) == 0 <==> forall i | 0 <= i < |workers| :: workers[i] == Exited
  {
    if workers != [] {
      NoStepsIff(workers[1..]);
      assert forall i | 0 < i < |workers| :: workers[i] == workers[1..][i - 1];
    }
  }

  /** During a drain every step of that kind takes one off, and no other step of the pool changes the number. */
  lemma StepTakesOneOff(s: State, e: Event, s': State)
    requires Inv(s) && Next(s, e, s') && (e.DrainBegin? || (!s.accepting && s.drain.Joining?))
    requires !e.DrainEnd? && (e.Start? ==> s.started)
    ensures StepsLeft(s') + (if IsWork(e) then 1 else 0) == StepsLeft(s)
    ensures !s'.accepting && s'.drain.Joining?
  {
    if e.Take? || e.Exit? || e.Finish? {
      StepsAfterUpdate(s.workers, e.w, s'.workers[e.w]);
    }
  }

  lemma InvAt(ss: seq<State>, es: seq<Event>, i: nat)
    requires IsRun(ss, es) && i <= |es|
    ensures Inv(ss[i])
  {
    Prefix(ss, es, i);
    RunKeepsInv(ss[..i + 1], es[..i]);
  }

  /** From its beginning on, what a drain has seen done and what is left add up to what there was. */
  lemma {:induction false} DrainProgress(ss: seq<State>, es: seq<Event>, i: nat, j: nat)
    requires IsRun(ss, es) && i < j <= |es| && es[i] == DrainBegin
    requires forall k | i < k < j :: !es[k].DrainEnd? && (es[k].Start? ==> ss[k].started)
    ensures WorkDone(es, i, j) + StepsLeft(ss[j]) == StepsLeft(ss[i])
    ensures !ss[j].accepting && ss[j].drain.Joining?
    decreases j - i
  {
    InvAt(ss, es, j - 1);
    if i + 1 < j {
      DrainProgress(ss, es, i, j - 1);
    }
    StepTakesOneOff(ss[j - 1], es[j - 1], ss[j]);
  }

  /**
   A drain never gets stuck: it can return exactly when no steps are left, and until then one of
   them can be made.
   */
  lemma DrainIsNeverStuck(ss: seq<State>, es: seq<Event>)
    requires IsRun(ss, es) && ss[|es|].drain.Joining? && !ss[|es|].accepting
    ensures var s := ss[|es|];
      && (StepsLeft(s) == 0 <==> Next(s, DrainEnd, DrainEnded(s)))
      && (StepsLeft(s) > 0 ==> exists e, s' :: IsWork(e) && Next(s, e, s'))
  {
    var s := ss[|es|];
    RunKeepsInv(ss, es);
    NoStepsIff(s.workers);
    var w := s.drain.joined;
    if w < |s.workers| {
      var e := match s.workers[w]
        case Exited => Join(w)
        case Running(_) => Finish(w)
        case Ready => if s.tasks == [] then Exit(w) else Take(w, s.tasks[0]);
      var s' := match s.workers[w]
        case Exited => s.(drain := Joining(w + 1))
        case Running(_) => s.(workers := s.workers[w := Ready])
        case Ready => Woken(s, w);
      assert IsWork(e) && Next(s, e, s');
    }
  }

  /** A drain takes exactly the steps that were left when it began, whatever order they come in. */
  lemma DrainTakesStepsLeft(ss: seq<State>, es: seq<Event>, i: nat, j: nat)
    requires IsRun(ss, es) && i < j < |es| && es[i] == DrainBegin
    requires forall k | i < k < j :: !es[k].DrainEnd? && (es[k].Start? ==> ss[k].started)
    ensures WorkDone(es, i, j) <= StepsLeft(ss[i])
    ensures es[j] == DrainEnd ==> WorkDone(es, i, j) == StepsLeft(ss[i])
  {
    DrainProgress(ss, es, i, j);
    if es[j] == DrainEnd {
      assert Next(ss[j], es[j], ss[j + 1]);
      InvAt(ss, es, j);
      NoStepsIff(ss[j].workers);
    }
  }
}

/** The object: one method per lock-held region, each tied to the protocol's function. */
module TaskPool {
  import opened TaskPoolProtocol

  class TaskPool {
    var accepting: bool
    var started: bool
    var tasks: seq<Task>
    var workers: seq<Worker>
    ghost var drain: Drain

    ghost function Abstract(): State
      reads this
    {
      State(accepting, started, tasks, workers, drain)
    }

    constructor ()
      ensures Abstract() == INITIAL
    {
      accepting, started, tasks, workers, drain := false, false, [], [], NoDrain;
    }

    method Start(count: nat, hardware: nat)
      modifies this
      ensures Next(old(Abstract()), Event.Start(count, hardware), Abstract())
    {
      var n := count;
      if n == 0 {
        n := hardware;
      }
      if n == 0 {
        n := 1;
      }
      if started {
        return;
      }
      accepting := true;
      started := true;
      workers := [];
      for i := 0 to n
        invariant workers == seq(i, _ => Ready)
        invariant unchanged(`tasks) && unchanged(`drain) && accepting && started
      {
        workers := workers + [Ready];
      }
    }

    method Dispatch(task: Task) returns (accepted: bool)
      modifies this
      ensures Next(old(Abstract()), Event.Dispatch(task, accepted), Abstract())
    {
      if !accepting {
        return false;
      }
      tasks := tasks + [task];
      accepted := true;
    }

    /** A worker whose wait is over: it returns the task to run, or leaves its loop. */
    method Wake(w: nat) returns (exiting: bool, ghost e: Event)
      requires w < |workers| && workers[w] == Ready && Wakes(Abstract())
      modifies this
      ensures Next(old(Abstract()), e, Abstract())
      ensures exiting <==> !old(accepting) && old(tasks) == []
      ensures !exiting ==> old(tasks) != []
      ensures e == if exiting then Exit(w) else Take(w, old(tasks)[0])
    {
      if !accepting && tasks == [] {
        e := Exit(w);
        workers := workers[w := Exited];
        return true, e;
      }
      var task := tasks[0];
      e := Take(w, task);
      tasks := tasks[1..];
      workers := workers[w := Running(task)];
      exiting := false;
    }

    method BeginDrain()
      requires drain.NoDrain?
      modifies this
      ensures Next(old(Abstract()), DrainBegin, Abstract())
    {
      accepting := false;
      drain := Joining(0);
    }

    method EndDrain()
      requires drain == Joining(|workers|)
      modifies this
      ensures Next(old(Abstract()), DrainEnd, Abstract())
    {
      workers := [];
      started := false;
      drain := NoDrain;
    }
  }
}
