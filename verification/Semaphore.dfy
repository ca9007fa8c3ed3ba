/** Counting semaphores over the scheduler. SemaphoreRuns has the runs of waits, signals and other
    scheduler steps, and what holds of every run. */
module Semaphore {
  import opened SchedulerQueues
  import opened LinkedQueue
  import opened SmpScheduler

  class Sem {
    const sched: Scheduler
    var count: int
    /** Whose waiting_sem points here. */
    var waiting: seq<bool>
    /** The tasks in the loop of sem_wait: where they are in their own code, which sem.c does not record. */
    var inside: set<int>

    ghost predicate Valid()
      reads this, sched, sched.lists, sched.sleepers
    {
      sched.Valid() && |waiting| == sched.tasks
    }

    /** sem_init */
    constructor (sched: Scheduler, value: int)
      requires sched.Valid()
      ensures Valid() && this.sched == sched && count == value && inside == {}
      ensures forall t :: 0 <= t < sched.tasks ==> !waiting[t]
    {
      this.sched := sched;
      count := value;
      waiting := seq(sched.tasks, t => false);
      inside := {};
    }

    /** One turn of the loop of sem_wait on a CPU: take a unit if there is one, else block. */
    method WaitTurn(c: int) returns (done: bool)
      requires Valid() && 0 <= c < sched.cpus && sched.current[c] !in sched.sleepers.sleep
      modifies this, sched`state, sched.sleepers`wake
      ensures Valid() && 0 <= sched.current[c] < sched.tasks
      ensures done <==> old(count) > 0
      ensures count == if done then old(count) - 1 else old(count)
      ensures inside == if done then old(inside) - {sched.current[c]} else old(inside) + {sched.current[c]}
      ensures waiting == if done then old(waiting) else old(waiting)[sched.current[c] := true]
      ensures sched.state == if done then old(sched.state)
                             else old(sched.state)[sched.current[c] := if sched.signalled[sched.current[c]] then Ready else Blocked]
    {
      hide Queues, SleepList, AtHome, RowOk;
      sched.HomeOf(c);
      var t := sched.current[c];
      done := count > 0;
      if done {
        count := count - 1;
        inside := inside - {t};
      } else {
        waiting := waiting[t := true];
        inside := inside + {t};
        sched.Block(c);
      }
    }

    /** sem_signal: one more unit, and the first blocked waiter in slot order is woken. */
    method Signal()
      requires Valid()
      modifies this, sched`state, sched.lists, sched.sleepers
      ensures Valid() && count == old(count) + 1 && inside == old(inside)
      ensures var t := FirstWaiter(old(waiting), old(sched.state), 0);
              if t < sched.tasks then
                && sched.state == old(sched.state)[t := Ready] && waiting == old(waiting)[t := false]
                && sched.sleepers.sleep == Without(old(sched.sleepers.sleep), t)
              else sched.state == old(sched.state) && waiting == old(waiting) && sched.sleepers.sleep == old(sched.sleepers.sleep)
    {
      hide Queues, SleepList, AtHome, RowOk;
      count := count + 1;
      var t := FindWaiter();
      if t < sched.tasks {
        waiting := waiting[t := false];
        sched.Wakeup(t);
      }
    }

    /** The scan of sem_signal. */
    method FindWaiter() returns (t: nat)
      requires Valid()
      ensures t == FirstWaiter(waiting, sched.state, 0)
    {
      t := 0;
      while t < sched.tasks && !(sched.state[t].Blocked? && waiting[t])
        invariant t <= sched.tasks && FirstWaiter(waiting, sched.state, t) == FirstWaiter(waiting, sched.state, 0)
      {
        t := t + 1;
      }
    }
  }

  /** The first slot from t on whose task is blocked and marked, or the number of slots. */
  function FirstWaiter(waiting: seq<bool>, state: seq<State>, t: nat): (r: nat)
    requires |waiting| == |state| && t <= |state|
    ensures t <= r <= |state| && (r < |state| ==> waiting[r] && state[r].Blocked?)
    ensures forall u :: t <= u < r ==> !(waiting[u] && state[u].Blocked?)
    decreases |state| - t
  {
    if t == |state| || (waiting[t] && state[t].Blocked?) then t else FirstWaiter(waiting, state, t + 1)
  }
}
