/** Runs of waits, signals and all other scheduler steps, in any order on any CPUs. */
module SemaphoreRuns {
  import opened LinkedQueue
  import opened SchedulerQueues
  import opened SmpScheduler
  import opened SchedulerRuns
  import opened Semaphore

  datatype Act = Other(step: Step) | Wait(cpu: nat) | Post

  /** The semaphore and the scheduler at one moment. */
  datatype Moment = Moment(count: int, waiting: seq<bool>, inside: set<int>, sched: Sight)

  ghost function Now(sem: Sem): Moment
    reads sem, sem.sched, sem.sched.sleepers
  {
    Moment(sem.count, sem.waiting, sem.inside, Observe(sem.sched))
  }

  /** The task that takes a turn of sem_wait on CPU c, if one can: it is not on its way to sleep, and a
      blocked task is not back from schedule, unless the CPU falls back to it. */
  ghost predicate CanWait(m: Moment, c: nat) {
    && Sized(m.sched) && c < |m.sched.current|
    && var t := m.sched.current[c];
    t !in m.sched.sleep && (m.sched.state[t].Blocked? ==> t == Fallback(m.sched.idle[c]))
  }

  /** One act, exactly for waits and signals. */
  ghost predicate Next(a: Moment, act: Act, b: Moment) {
    && Sized(a.sched) && |a.waiting| == |a.sched.state|
    && match act
       case Wait(c) =>
         if !CanWait(a, c) then b == a
         else
           var t := a.sched.current[c];
           if a.count > 0 then b == a.(count := a.count - 1, inside := a.inside - {t})
           else b == a.(waiting := a.waiting[t := true], inside := a.inside + {t},
                        sched := a.sched.(state := a.sched.state[t := if a.sched.signalled[t] then Ready else Blocked]))
       case Post =>
         var t := FirstWaiter(a.waiting, a.sched.state, 0);
         if t == |a.waiting| then b == a.(count := a.count + 1)
         else b == a.(count := a.count + 1, waiting := a.waiting[t := false],
                      sched := a.sched.(state := a.sched.state[t := Ready], sleep := Without(a.sched.sleep, t)))
       case Other(step) =>
         && b.count == a.count && b.waiting == a.waiting && b.inside == a.inside && Steps(a.sched, step, b.sched)
         && ((exists t :: t in a.inside && Own(a.sched, step, t)) ==> b == a)
  }

  ghost predicate Trace(ms: seq<Moment>, acts: seq<Act>) {
    |ms| == |acts| + 1 && forall i :: 0 <= i < |acts| ==> Next(ms[i], acts[i], ms[i + 1])
  }

  /** How many of the first n acts are signals. */
  function Posts(acts: seq<Act>, n: nat): nat
    requires n <= |acts|
  {
    if n == 0 then 0 else Posts(acts, n - 1) + if acts[n - 1].Post? then 1 else 0
  }

  /** How many of the first n acts are turns that took a unit. */
  ghost function Takes(ms: seq<Moment>, acts: seq<Act>, n: nat): nat
    requires Trace(ms, acts) && n <= |acts|
  {
    if n == 0 then 0
    else Takes(ms, acts, n - 1) + if acts[n - 1].Wait? && CanWait(ms[n - 1], acts[n - 1].cpu) && ms[n - 1].count > 0 then 1 else 0
  }

  /** Units are conserved in every run, and a count that starts at zero or more stays there. */
  lemma {:induction false} Conserved(ms: seq<Moment>, acts: seq<Act>, n: nat)
    requires Trace(ms, acts) && n <= |acts|
    ensures ms[n].count == ms[0].count + Posts(acts, n) - Takes(ms, acts, n)
    ensures ms[0].count >= 0 ==> ms[n].count >= 0
  {
    if n > 0 {
      Conserved(ms, acts, n - 1);
      assert Next(ms[n - 1], acts[n - 1], ms[n]);
    }
  }

  /** The waiters that signals have woken and that have not taken a turn since. */
  ghost function Retrying(ms: seq<Moment>, acts: seq<Act>, n: nat): set<int>
    requires Trace(ms, acts) && n <= |acts|
  {
    if n == 0 then {}
    else
      assert Next(ms[n - 1], acts[n - 1], ms[n]);
      var r, a := Retrying(ms, acts, n - 1), ms[n - 1];
      match acts[n - 1]
      case Post =>
        var t := FirstWaiter(a.waiting, a.sched.state, 0);
        if t < |a.waiting| then r + {t} else r
      case Wait(c) => if CanWait(a, c) then r - {a.sched.current[c]} else r
      case Other(_) => r
  }

  /** So far only signals have ended waits. */
  ghost predicate Calm(ms: seq<Moment>, acts: seq<Act>, n: nat)
    requires Trace(ms, acts) && n <= |acts|
  {
    forall i :: 0 <= i < n ==> CalmAct(ms[i], acts[i], ms[i + 1])
  }

  /** A turn that takes a unit is no marked task's, one that takes none is not of a task with a pending
      signal, and any other step leaves the marked tasks blocked. */
  ghost predicate CalmAct(a: Moment, act: Act, b: Moment) {
    && Sized(a.sched) && |a.waiting| == |a.sched.state| == |b.sched.state|
    && match act
       case Wait(c) => CanWait(a, c) ==> var t := a.sched.current[c]; if a.count > 0 then !a.waiting[t] else !a.sched.signalled[t]
       case Post => true
       case Other(_) => forall t :: 0 <= t < |a.waiting| && a.waiting[t] ==> b.sched.state[t].Blocked?
  }

  /** What can be seen before an act and makes it calm: it is no step that reaches a marked task, but for
      a timeout, which none has; and no turn of a task with a pending signal or of the task that a CPU
      falls back to. */
  ghost predicate Quiet(a: Moment, act: Act) {
    && Sized(a.sched) && |a.waiting| == |a.sched.state|
    && (act.Other? && !act.step.Expire? ==> forall t :: 0 <= t < |a.waiting| && a.waiting[t] ==> !Reaches(a.sched, act.step, t))
    && (act.Wait? && CanWait(a, act.cpu) ==>
          !a.sched.signalled[a.sched.current[act.cpu]] && a.sched.current[act.cpu] != Fallback(a.sched.idle[act.cpu]))
  }

  lemma QuietIsCalm(a: Moment, act: Act, b: Moment, r: set<int>)
    requires Fair(a, r) && Next(a, act, b) && Quiet(a, act)
    ensures CalmAct(a, act, b)
  {
    if act.Other? {
      forall t | 0 <= t < |a.waiting| && a.waiting[t] ensures b.sched.state[t].Blocked? {
        if !exists u :: u in a.inside && Own(a.sched, act.step, u) {
          assert t in a.inside && !Own(a.sched, act.step, t) && !Reaches(a.sched, act.step, t);
        }
      }
    } else if act.Post? {
      WithoutSubset(a.sched.sleep, FirstWaiter(a.waiting, a.sched.state, 0));
    }
  }

  /** The marked tasks are the blocked waiters; the others in sem_wait are awake and about to retry;
      and if anyone waits, there is no more to be had than they can take. */
  ghost predicate Fair(m: Moment, retry: set<int>) {
    && Sized(m.sched) && |m.waiting| == |m.sched.state|
    && (forall t :: 0 <= t < |m.waiting| && m.waiting[t] ==> m.sched.state[t].Blocked? && t !in m.sched.sleep)
    && (forall t :: 0 <= t < |m.waiting| ==> (t in m.inside <==> m.waiting[t] || t in retry))
    && (forall t :: t in retry ==> 0 <= t < |m.waiting| && !m.waiting[t] && !m.sched.state[t].Blocked?)
    && ((exists t :: 0 <= t < |m.waiting| && m.waiting[t]) ==> m.count <= |retry|)
  }

  /** Nobody waits, nobody is in sem_wait. */
  ghost predicate Fresh(m: Moment) {
    Sized(m.sched) && |m.waiting| == |m.sched.state| && m.inside == {} && forall t :: 0 <= t < |m.waiting| ==> !m.waiting[t]
  }

  ghost predicate FairAt(ms: seq<Moment>, acts: seq<Act>, i: nat)
    requires Trace(ms, acts) && i <= |acts|
  {
    Fair(ms[i], Retrying(ms, acts, i))
  }

  ghost predicate AllFair(ms: seq<Moment>, acts: seq<Act>, n: nat)
    requires Trace(ms, acts) && n <= |acts|
  {
    forall i :: 0 <= i <= n ==> FairAt(ms, acts, i)
  }

  /** In every calm run no waiter is stranded: while one is blocked, every unit there is has a woken
      waiter on its way to it, and those are not blocked. And no other run is that way at every moment. */
  lemma {:induction false} NotStranded(ms: seq<Moment>, acts: seq<Act>, n: nat)
    requires Trace(ms, acts) && n <= |acts| && Fresh(ms[0])
    ensures AllFair(ms, acts, n) <==> Calm(ms, acts, n)
  {
    hide FairAt, CalmAct, Fresh, Trace;
    if n == 0 {
      FairFirst(ms, acts);
    } else {
      NotStranded(ms, acts, n - 1);
      if FairAt(ms, acts, n - 1) { FairNext(ms, acts, n); }
    }
  }

  lemma FairFirst(ms: seq<Moment>, acts: seq<Act>)
    requires Trace(ms, acts) && Fresh(ms[0])
    ensures FairAt(ms, acts, 0)
  {
    FreshFair(ms[0]);
  }

  lemma FairNext(ms: seq<Moment>, acts: seq<Act>, n: nat)
    requires Trace(ms, acts) && 0 < n <= |acts| && FairAt(ms, acts, n - 1)
    ensures FairAt(ms, acts, n) <==> CalmAct(ms[n - 1], acts[n - 1], ms[n])
  {
    hide Fair, CalmAct, Next, Retrying;
    RetryingStep(ms, acts, n);
    assert Next(ms[n - 1], acts[n - 1], ms[n]);
    FairStep(ms[n - 1], acts[n - 1], ms[n], Retrying(ms, acts, n - 1));
  }

  lemma FreshFair(m: Moment)
    requires Fresh(m)
    ensures Fair(m, {})
  {}

  ghost function RetryAfter(a: Moment, act: Act, r: set<int>): set<int>
    requires Sized(a.sched) && |a.waiting| == |a.sched.state|
  {
    match act
    case Post => if FirstWaiter(a.waiting, a.sched.state, 0) < |a.waiting| then r + {FirstWaiter(a.waiting, a.sched.state, 0)} else r
    case Wait(c) => if CanWait(a, c) then r - {a.sched.current[c]} else r
    case Other(_) => r
  }

  lemma RetryingStep(ms: seq<Moment>, acts: seq<Act>, n: nat)
    requires Trace(ms, acts) && 0 < n <= |acts|
    ensures Sized(ms[n - 1].sched) && |ms[n - 1].waiting| == |ms[n - 1].sched.state|
    ensures Retrying(ms, acts, n) == RetryAfter(ms[n - 1], acts[n - 1], Retrying(ms, acts, n - 1))
  {
    assert Next(ms[n - 1], acts[n - 1], ms[n]);
  }

  /** From a fair moment, the next one is fair exactly when the act is calm. */
  lemma FairStep(a: Moment, act: Act, b: Moment, r: set<int>)
    requires Fair(a, r) && Next(a, act, b)
    ensures Fair(b, RetryAfter(a, act, r)) <==> CalmAct(a, act, b)
  {
    hide Steps;
    match act
    case Wait(c) => if CanWait(a, c) { FairTurn(a, c, b, r); }
    case Post => FairPost(a, b, r);
    case Other(step) => FairOther(a, step, b, r);
  }

  lemma FairTurn(a: Moment, c: nat, b: Moment, r: set<int>)
    requires Fair(a, r) && Next(a, Wait(c), b) && CanWait(a, c)
    ensures Fair(b, r - {a.sched.current[c]}) <==> CalmAct(a, Wait(c), b)
  {
    var t := a.sched.current[c];
    assert t in r ==> r == (r - {t}) + {t};
    assert |r - {t}| >= |r| - 1;
    assert t !in r ==> r - {t} == r;
    assert a.count > 0 && a.waiting[t] ==> b.waiting[t] && t !in b.inside;
    assert a.count <= 0 && a.sched.signalled[t] ==> b.waiting[t] && !b.sched.state[t].Blocked?;
  }

  lemma FairPost(a: Moment, b: Moment, r: set<int>)
    requires Fair(a, r) && Next(a, Post, b)
    ensures Fair(b, RetryAfter(a, Post, r)) && CalmAct(a, Post, b)
  {
    var t := FirstWaiter(a.waiting, a.sched.state, 0);
    WithoutSubset(a.sched.sleep, t);
    if t < |a.waiting| {
      assert t !in r;
      assert |r + {t}| == |r| + 1;
    }
  }

  lemma FairOther(a: Moment, step: Step, b: Moment, r: set<int>)
    requires Fair(a, r) && Next(a, Other(step), b)
    ensures Fair(b, r) <==> CalmAct(a, Other(step), b)
  {
    if !exists t :: t in a.inside && Own(a.sched, step, t) {
      forall t | 0 <= t < |a.waiting| && a.waiting[t]
        ensures t !in b.sched.sleep
      {
        assert t in a.inside && !Own(a.sched, step, t);
      }
      forall t | t in r ensures !b.sched.state[t].Blocked? {
        assert t in a.inside && !Own(a.sched, step, t);
      }
    }
  }

  /** One act. open holds the slots under construction. */
  method Perform(sem: Sem, act: Act, open: set<int>) returns (open': set<int>)
    requires sem.Valid() && sem.sched.building == open
    modifies sem, sem.sched, sem.sched.lists, sem.sched.sleepers
    ensures sem.Valid() && sem.sched.building == open'
    ensures Next(old(Now(sem)), act, Now(sem))
  {
    hide Queues, SleepList, AtHome, RowOk, Steps, Without;
    Sizes(sem.sched);
    open' := open;
    match act {
      case Wait(c) => Turn(sem, c);
      case Post => sem.Signal();
      case Other(step) => open' := Scheduled(sem, step, open);
    }
  }

  /** A turn of sem_wait by the task a CPU runs, if it can take one. */
  method Turn(sem: Sem, c: nat)
    requires sem.Valid()
    modifies sem, sem.sched`state, sem.sched.sleepers`wake
    ensures sem.Valid() && Next(old(Now(sem)), Wait(c), Now(sem))
  {
    hide Queues, SleepList, AtHome, RowOk;
    Sizes(sem.sched);
    if c >= sem.sched.cpus { return; }
    sem.sched.HomeOf(c);
    var t := sem.sched.current[c];
    var busy := sem.sched.sleepers.Listed(t);
    if busy || (sem.sched.state[t].Blocked? && t != Fallback(sem.sched.idle[c])) { return; }
    var _ := sem.WaitTurn(c);
  }

  /** Any other scheduler step; a task inside sem_wait takes none of its own. */
  method Scheduled(sem: Sem, step: Step, open: set<int>) returns (open': set<int>)
    requires sem.Valid() && sem.sched.building == open
    modifies sem.sched, sem.sched.lists, sem.sched.sleepers
    ensures sem.Valid() && sem.sched.building == open'
    ensures Next(old(Now(sem)), Other(step), Now(sem))
  {
    hide Queues, SleepList, AtHome, RowOk, Steps;
    Sizes(sem.sched);
    open' := open;
    if ByTask(step) && step.cpu < sem.sched.cpus {
      sem.sched.HomeOf(step.cpu);
      if sem.sched.current[step.cpu] in sem.inside {
        StayPut(Observe(sem.sched), step);
        return;
      }
    }
    OwnIs(sem.sched, step);
    open' := SchedulerRuns.Perform(sem.sched, step, open);
    Sizes(sem.sched);
  }

  lemma OwnIs(s: Scheduler, step: Step)
    ensures forall t :: Own(Observe(s), step, t) <==> ByTask(step) && step.cpu < |s.current| && s.current[step.cpu] == t
  {}

  /** Every run is a trace; so units are conserved in every run, and one that starts with nobody waiting
      is fair at every moment exactly when it is calm. */
  method Run(sem: Sem, acts: seq<Act>) returns (ghost ms: seq<Moment>)
    requires sem.Valid() && sem.sched.building == {}
    modifies sem, sem.sched, sem.sched.lists, sem.sched.sleepers
    ensures sem.Valid() && Trace(ms, acts) && ms[0] == old(Now(sem)) && ms[|acts|] == Now(sem)
    ensures sem.count == old(sem.count) + Posts(acts, |acts|) - Takes(ms, acts, |acts|)
    ensures old(sem.count) >= 0 ==> sem.count >= 0
    ensures old(Fresh(Now(sem))) ==>
              (AllFair(ms, acts, |acts|) <==> Calm(ms, acts, |acts|))
  {
    hide Queues, SleepList, AtHome, RowOk, Next, AllFair, Fresh, Calm, Takes;
    var open: set<int> := {};
    ms := [Now(sem)];
    for i := 0 to |acts|
      invariant sem.Valid() && sem.sched.building == open
      invariant |ms| == i + 1 && ms[0] == old(Now(sem)) && ms[i] == Now(sem)
      invariant forall j :: 0 <= j < i ==> Next(ms[j], acts[j], ms[j + 1])
    {
      open := Perform(sem, acts[i], open);
      ms := ms + [Now(sem)];
    }
    Conserved(ms, acts, |acts|);
    if Fresh(ms[0]) { NotStranded(ms, acts, |acts|); }
  }

  /** A run that is not calm and strands a waiter. Task a on CPU 0 waits and is woken by someone else,
      takes the unit of the next signal on its own turn, and so keeps its mark; task b on CPU 1 waits; a
      blocks for some other reason; the next signal finds a's mark first and wakes a. Then b is blocked,
      there is a unit, and nobody else is in sem_wait. */
  method Strand(sem: Sem, a: int, b: int)
    requires sem.Valid() && sem.sched.cpus >= 2 && sem.sched.current[0] == a && sem.sched.current[1] == b
    requires 0 <= a < b < sem.sched.tasks && sem.sched.state[a].Running? && sem.sched.state[b].Running?
    requires !sem.sched.signalled[a] && !sem.sched.signalled[b]
    requires a !in sem.sched.sleepers.sleep && b !in sem.sched.sleepers.sleep
    requires sem.count == 0 && Fresh(Now(sem))
    modifies sem, sem.sched, sem.sched.lists, sem.sched.sleepers
    ensures sem.Valid() && sem.count == 1
    ensures sem.inside == {b} && sem.waiting[b] && sem.sched.state[b].Blocked?
    ensures forall t :: 0 <= t < sem.sched.tasks && sem.waiting[t] ==> t == b
  {
    hide Queues, SleepList, AtHome, RowOk, Without, Arrive, FirstWaiter;
    ghost var n, q := sem.sched.tasks, sem.sched.sleepers.sleep;
    WithoutSubset(q, a);
    var _ := sem.WaitTurn(0);
    sem.sched.Wakeup(a);
    NoWaiter(sem.waiting, sem.sched.state, a);
    sem.Signal();
    assert sem.count == 1 && sem.waiting[a] && sem.sched.state[a].Ready?;
    var _ := sem.WaitTurn(0);
    assert sem.inside == {};
    var _ := sem.WaitTurn(1);
    sem.sched.Block(0);
    TwoWaiters(sem.waiting, sem.sched.state, a, b);
    sem.Signal();
  }

  lemma NoWaiter(waiting: seq<bool>, state: seq<State>, a: int)
    requires |waiting| == |state| && 0 <= a < |state| && !state[a].Blocked? && forall t :: 0 <= t < |state| && waiting[t] ==> t == a
    ensures FirstWaiter(waiting, state, 0) == |state|
  {}

  lemma TwoWaiters(waiting: seq<bool>, state: seq<State>, a: int, b: int)
    requires |waiting| == |state| && 0 <= a < b < |state| && waiting[a] && state[a].Blocked?
    requires forall t :: 0 <= t < |state| && waiting[t] ==> t == a || t == b
    ensures FirstWaiter(waiting, state, 0) == a
  {}
}
