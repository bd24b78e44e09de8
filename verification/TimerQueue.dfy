/** The object: one method per lock-held region, each tied to the schedule's functions. */
module TimerQueue {
  import opened Options
  import opened TimerSchedule

  class TimerQueue {
    var timers: seq<Timer>
    var next: nat
    var stop: bool
    var running: Option<nat>

    ghost predicate Valid()
      reads this
    {
      Inv(timers, next)
    }

    /** The state of the protocol when the clock shows `now`. */
    ghost function Abstract(now: int): State
      reads this
    {
      State(timers, next, stop, now, running)
    }

    constructor ()
      ensures Valid() && forall now :: Init(Abstract(now))
    {
      timers, next, stop, running := [], 0, false, None;
    }

    /** at: a one-shot timer for a point in time. */
    method At(expires: int, task: Task, ghost now: int) returns (id: nat)
      requires Valid()
      modifies this
      ensures Valid() && Next(old(Abstract(now)), Add(expires, 0, task, id), Abstract(now))
    {
      id := AddTimer(expires, 0, task, now);
    }

    /** once: a one-shot timer a delay from `clock`, read before locking. */
    method Once(clock: int, period: int, task: Task, ghost now: int) returns (id: nat)
      requires Valid()
      modifies this
      ensures Valid() && Next(old(Abstract(now)), Add(clock + period, 0, task, id), Abstract(now))
    {
      id := AddTimer(clock + period, 0, task, now);
    }

    /** periodic in milliseconds: `period - shorten` is computed in 32 bits before it becomes a duration. */
    method PeriodicMilliseconds(clock: int, period: nat, shorten: nat, task: Task, ghost now: int) returns (id: nat)
      requires Valid() && period < 0x1_0000_0000 && shorten < 0x1_0000_0000
      modifies this
      ensures Valid()
      ensures Next(old(Abstract(now)), Add(clock + (if shorten <= period then period - shorten else period - shorten + 0x1_0000_0000), period, task, id), Abstract(now))
    {
      id := AddTimer(clock + (period - shorten) % 0x1_0000_0000, period, task, now);
    }

    method Periodic(clock: int, period: int, shorten: int, task: Task, ghost now: int) returns (id: nat)
      requires Valid()
      modifies this
      ensures Valid() && Next(old(Abstract(now)), Add(clock + period - shorten, period, task, id), Abstract(now))
    {
      id := AddTimer(clock + period - shorten, period, task, now);
    }

    method AddTimer(expires: int, period: int, task: Task, ghost now: int) returns (id: nat)
      requires Valid()
      modifies this
      ensures Valid() && Next(old(Abstract(now)), Add(expires, period, task, id), Abstract(now))
    {
      id := next;
      next := next + 1;
      timers := Emplace(timers, Timer(expires, id, period, task));
      StepKeepsInv(old(Abstract(now)), Add(expires, period, task, id), Abstract(now));
    }

    /** The search every operation on an id makes. */
    method Find(tid: nat) returns (i: nat)
      ensures i == Position(timers, tid)
    {
      i := 0;
      while i < |timers| && timers[i].id != tid
        invariant i <= |timers|
        invariant Position(timers, tid) == i + Position(timers[i..], tid)
      {
        assert timers[i..][0] == timers[i] && timers[i..][1..] == timers[i + 1..];
        i := i + 1;
      }
      assert i < |timers| ==> timers[i..][0] == timers[i];
    }

    /** The period of a pending timer, zero for any other id. */
    method Repeats(tid: nat) returns (period: int)
      ensures period == match Pending(timers, tid) case Some(t) => t.period case None => 0
    {
      var i := Find(tid);
      PendingIsPosition(timers, tid);
      period := if i < |timers| then timers[i].period else 0;
    }

    method SetRepeats(tid: nat, period: int, ghost now: int) returns (done: bool)
      requires Valid()
      modifies this
      ensures Valid() && Next(old(Abstract(now)), Event.Repeats(tid, period, done), Abstract(now))
    {
      var i := Find(tid);
      PendingIsPosition(timers, tid);
      SetPeriodAt(timers, tid, period);
      SetPeriodKeepsInv(timers, next, tid, period);
      done := i < |timers|;
      if done {
        timers := timers[i := timers[i].(period := period)];
      }
    }

    method Cancel(tid: nat, ghost now: int) returns (done: bool)
      requires Valid()
      modifies this
      ensures Valid() && Next(old(Abstract(now)), Event.Cancel(tid, done), Abstract(now))
    {
      var i := Find(tid);
      PendingIsPosition(timers, tid);
      EraseAt(timers, tid);
      EraseKeepsInv(timers, next, tid);
      done := i < |timers|;
      if done {
        timers := timers[..i] + timers[i + 1..];
      }
    }

    method Reset(tid: nat, offset: int, interval: int, now: int) returns (done: bool)
      requires Valid()
      modifies this
      ensures Valid() && Next(old(Abstract(now)), Event.Reset(tid, offset, interval, done), Abstract(now))
    {
      var i := Find(tid);
      PendingIsPosition(timers, tid);
      done := i < |timers|;
      if done {
        var item := timers[i];
        var period := if interval != 0 then interval else item.period;
        PendingIsBelow(timers, next, tid);
        EraseAt(timers, tid);
        MoveKeepsInv(timers, next, Timer(now + offset, tid, period, item.task));
        timers := timers[..i] + timers[i + 1..];
        timers := Emplace(timers, Timer(now + offset, tid, period, item.task));
      }
    }

    method Refresh(tid: nat, now: int) returns (done: bool)
      requires Valid()
      modifies this
      ensures Valid() && Next(old(Abstract(now)), Event.Refresh(tid, done), Abstract(now))
    {
      var i := Find(tid);
      PendingIsPosition(timers, tid);
      if i == |timers| || timers[i].period == 0 {
        return false;
      }
      var item := timers[i];
      PendingIsBelow(timers, next, tid);
      EraseAt(timers, tid);
      EraseKeepsInv(timers, next, tid);
      MoveKeepsInv(timers, next, item.(expires := now + item.period));
      timers := timers[..i] + timers[i + 1..];
      if item.expires > now {
        timers := Emplace(timers, item.(expires := now + item.period));
      }
      done := true;
    }

    /** One pass of the timer thread with the lock held: the task to run, if the first timer is due. */
    method Poll(now: int) returns (task: Option<Task>)
      requires Valid() && running == None
      modifies this
      ensures Valid()
      ensures task.Some? <==> !old(stop) && old(timers) != [] && old(timers)[0].expires <= now
      ensures task.None? ==> Abstract(now) == old(Abstract(now))
      ensures task.Some? ==> task.value == old(timers)[0].task
      ensures task.Some? ==> Next(old(Abstract(now)), Fire(old(timers)[0].id), Abstract(now))
    {
      if stop || timers == [] || timers[0].expires > now {
        return None;
      }
      var item := timers[0];
      EraseKeepsInv(timers, next, item.id);
      MoveKeepsInv(timers, next, item.(expires := item.expires + item.period));
      timers := timers[1..];
      if item.period != 0 {
        timers := Emplace(timers, item.(expires := item.expires + item.period));
      }
      running := Some(item.id);
      task := Some(item.task);
    }
  }

  /** Erasing the element the search found. */
  lemma {:induction false} EraseAt(ts: seq<Timer>, id: nat)
    ensures var i := Position(ts, id);
      Erase(ts, id) == if i < |ts| then ts[..i] + ts[i + 1..] else ts
  {
    if ts != [] && ts[0].id != id {
      EraseAt(ts[1..], id);
      var i := Position(ts[1..], id);
      if i < |ts| - 1 {
        assert ts[..i + 1] == [ts[0]] + ts[1..][..i] && ts[i + 2..] == ts[1..][i + 1..];
      } else {
        assert ts == [ts[0]] + ts[1..];
      }
    }
  }

  lemma {:induction false} SetPeriodAt(ts: seq<Timer>, id: nat, period: int)
    ensures var i := Position(ts, id);
      SetPeriod(ts, id, period) == if i < |ts| then ts[i := ts[i].(period := period)] else ts
  {
    if ts != [] && ts[0].id != id {
      SetPeriodAt(ts[1..], id, period);
    }
  }
}
