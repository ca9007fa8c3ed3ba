/** Runs of the scheduler: the steps of any number of CPUs in any order, each one lock-held region.
    A step a CPU could not take at that point is skipped. */
module SchedulerRuns {
  import opened LinkedQueue
  import opened SchedulerQueues
  import opened Selection
  import opened SmpScheduler

  datatype Step =
    | Tick(cpu: nat)
    | YieldCpu(cpu: nat)
    | Block(cpu: nat)
    | BlockFor(cpu: nat, tick: nat)
    | Sleep(cpu: nat, tick: nat)
    | Wake(task: nat)
    | Expire(now: nat)
    | Kill(cpu: nat, pid: nat)
    | Stop(cpu: nat)
    | Exit(cpu: nat)
    | Create(stack: bool)
    | Begin(cpu: nat, stack: bool, thread: bool)
    | Finish(task: nat)
    | Reap(task: nat)

  /** Steps of a task that runs on a CPU and is not on its way to sleep there. */
  predicate ByTask(s: Step) { s.Block? || s.BlockFor? || s.Sleep? || s.Stop? || s.Exit? }

  /** Only a task blocking itself becomes blocked in a step. */
  ghost predicate BlocksOnly(before: seq<State>, after: seq<State>, running: seq<int>, step: Step) {
    && |after| == |before|
    && forall t :: 0 <= t < |before| && after[t].Blocked? && !before[t].Blocked? ==>
         ByTask(step) && step.cpu < |running| && running[step.cpu] == t
  }

  /** What the task table and the CPUs show at one moment. */
  datatype Sight = Sight(state: seq<State>, current: seq<int>, idle: seq<int>, signalled: seq<bool>, sleep: seq<int>,
                         id: seq<nat>, parent: seq<nat>, tgid: seq<nat>)

  ghost function Observe(s: Scheduler): Sight
    reads s, s.sleepers
  {
    Sight(s.state, s.current, s.idle, s.signalled, s.sleepers.sleep, s.id, s.parent, s.tgid)
  }

  ghost predicate Sized(v: Sight) {
    && |v.state| == |v.id| == |v.parent| == |v.tgid| == |v.signalled| > 0 && |v.current| == |v.idle|
    && forall c :: 0 <= c < |v.current| ==> 0 <= v.current[c] < |v.state|
  }

  /** The step is one that can bring task t back from being blocked: it wakes t, or t's group or parent,
      or t has a timeout, or a CPU falls back to t. */
  ghost predicate Reaches(v: Sight, step: Step, t: int)
    requires Sized(v) && 0 <= t < |v.state|
  {
    match step
    case Wake(u) => u == t
    case Expire(_) => t in v.sleep
    case Kill(_, pid) => v.tgid[t] == pid
    case Exit(c) => c < |v.current| && var gone := v.current[c]; v.id[t] == Orphaned(v.id, v.parent, v.id[gone])[gone]
    case Tick(c) => c < |v.idle| && t == Fallback(v.idle[c])
    case YieldCpu(c) => c < |v.idle| && t == Fallback(v.idle[c])
    case _ => false
  }

  /** The step is t's own. */
  predicate Own(v: Sight, step: Step, t: int) { ByTask(step) && step.cpu < |v.current| && v.current[step.cpu] == t }

  /** Who blocks, who is brought back and who goes to sleep in a step. */
  ghost predicate Steps(a: Sight, step: Step, b: Sight) {
    && Sized(a) && Sized(b) && |b.state| == |a.state| && |b.current| == |a.current| && b.idle == a.idle
    && BlocksOnly(a.state, b.state, a.current, step)
    && (forall t :: 0 <= t < |a.state| && a.state[t].Blocked? && !b.state[t].Blocked? ==> Reaches(a, step, t) || Own(a, step, t))
    && (forall t :: t in b.sleep && t !in a.sleep ==> Own(a, step, t))
  }

  lemma Sizes(s: Scheduler)
    requires s.Valid()
    ensures Sized(Observe(s)) && |s.state| == s.tasks && |s.current| == s.cpus
  {
    hide Queues, SleepList, RowOk;
  }

  /** The whole table, the CPUs and the queues at one moment. */
  datatype Scene = Scene(state: seq<State>, used: seq<bool>, signalled: seq<bool>, id: seq<nat>, parent: seq<nat>, tgid: seq<nat>,
                         taskCount: nat, nextId: nat, current: seq<int>, idle: seq<int>, ticks: seq<int>,
                         target: seq<int>, ready: seq<seq<int>>, sleep: seq<int>, wake: seq<nat>)

  ghost function Look(s: Scheduler): Scene
    reads s, s.lists, s.sleepers
  {
    Scene(s.state, s.used, s.signalled, s.id, s.parent, s.tgid, s.taskCount, s.nextId, s.current, s.idle, s.ticks,
          s.lists.target, s.lists.ready, s.sleepers.sleep, s.sleepers.wake)
  }

  ghost predicate Shaped(a: Scene) {
    && |a.state| == |a.used| == |a.signalled| == |a.id| == |a.parent| == |a.tgid| == |a.target| == |a.wake| > 0
    && |a.current| == |a.idle| == |a.ticks| == |a.ready| && InRange(a.target, |a.ready|) && a.taskCount <= |a.state|
    && (forall c :: 0 <= c < |a.current| ==> 0 <= a.current[c] < |a.state| && 0 <= Fallback(a.idle[c]) < |a.state|)
    && InRange(a.sleep, |a.state|)
    && (forall c :: 0 <= c < |a.ready| ==> InRange(a.ready[c], |a.state|))
  }

  /** The task on CPU c can take a step of its own. */
  ghost predicate Free(a: Scene, c: nat) { Shaped(a) && c < |a.current| && a.current[c] !in a.sleep }

  /** A call of schedule on CPU c. */
  ghost predicate Scheduled(a: Scene, c: nat, b: Scene)
    requires Shaped(a) && c < |a.current|
  {
    var cur := a.current[c];
    var runs := a.state[cur].Running? || a.state[cur].Ready?;
    var next := if a.ready[c] != [] then a.ready[c][0] else if runs then cur else if a.idle[c] != NULL then a.idle[c] else 0;
    if next == cur then
      b == a.(state := if a.state[cur].Ready? then a.state[cur := Running] else a.state,
              sleep := Without(a.sleep, cur), wake := a.wake[cur := 0])
    else if runs && a.ticks[c] + 1 < 10 then
      b == a.(ticks := a.ticks[c := a.ticks[c] + 1], sleep := Without(a.sleep, cur))
    else
      0 <= next < |a.state| &&
      b == a.(current := a.current[c := next], ticks := a.ticks[c := 0],
              state := (if runs then a.state[cur := Ready] else a.state)[next := Running],
              ready := a.ready[c := (if a.ready[c] == [] then [] else a.ready[c][1..]) + if runs then [cur] else []],
              sleep := Without(a.sleep, next), wake := a.wake[next := 0])
  }

  /** The marked waiting tasks become ready, in slot order. */
  ghost predicate AllWoken(a: Scene, mark: seq<bool>, n: nat, b: Scene)
    requires Shaped(a) && |mark| == |a.state| && n <= |mark|
  {
    && b == a.(state := Readied(a.state, mark, n), sleep := b.sleep,
               ready := ArriveAll(a.ready, a.target, a.current, Select(Upto(n), mark)))
    && Roused(a.sleep, mark, n, b.sleep)
  }

  /** A task that goes to sleep or blocks until a tick. */
  ghost predicate Dozes(a: Scene, c: nat, s: State, tick: nat, b: Scene)
    requires Shaped(a) && c < |a.current|
  {
    var t := a.current[c];
    && b == a.(state := a.state[t := s], wake := a.wake[t := tick], sleep := b.sleep)
    && exists i: nat :: SleepPlace(a.sleep, b.wake, t, i) && i <= |a.sleep| && b.sleep == Insert(a.sleep, i, t)
  }

  /** A new task in the lowest free slot, or one of a dead child of task 0 that is reaped for it. */
  ghost predicate Begun(a: Scene, stack: bool, parentId: nat, group: nat, thread: bool, slot: int, b: Scene)
    requires Shaped(a)
  {
    && (slot == NULL <==> a.taskCount >= |a.state| || !stack || NoSlot(a.used, a.state, a.parent, a.id, a.current))
    && NULL <= slot < |a.state|
    && if slot == NULL then
         b.(state := a.state, used := a.used, id := a.id) == a
         && Untaken(a.used, a.state, a.parent, a.id, a.current, stack || a.taskCount >= |a.state|, b.used, b.state, b.id)
       else
         b == a.(used := a.used[slot := true], state := a.state[slot := Ready], id := a.id[slot := a.nextId], nextId := a.nextId + 1,
                 parent := a.parent[slot := parentId], tgid := a.tgid[slot := if thread then group else a.nextId])
  }

  ghost predicate Finished(a: Scene, t: nat, b: Scene)
    requires Shaped(a) && t < |a.state|
  {
    b == a.(signalled := a.signalled[t := false], taskCount := if t >= a.taskCount then t + 1 else a.taskCount,
            ready := a.ready[a.target[t] := a.ready[a.target[t]] + [t]])
  }

  /** What each step does to all of it; a step that cannot be taken does nothing. */
  ghost predicate Does(a: Scene, step: Step, open: set<int>, b: Scene, open': set<int>) {
    && Shaped(a) && (!step.Begin? && !step.Finish? ==> open' == open)
    && match step
       case Tick(c) => if c < |a.current| then Scheduled(a, c, b) else b == a
       case YieldCpu(c) => if c < |a.current| then Scheduled(a.(ticks := a.ticks[c := 10]), c, b) else b == a
       case Block(c) =>
         if !Free(a, c) then b == a
         else if a.signalled[a.current[c]] then b == a.(state := a.state[a.current[c] := Ready])
         else b == a.(state := a.state[a.current[c] := Blocked], wake := a.wake[a.current[c] := 0])
       case BlockFor(c, tick) =>
         if !Free(a, c) then b == a
         else if a.signalled[a.current[c]] then b == a.(state := a.state[a.current[c] := Ready])
         else Dozes(a, c, Blocked, tick, b)
       case Sleep(c, tick) => if Free(a, c) then Dozes(a, c, Sleeping, tick, b) else b == a
       case Stop(c) => b == if Free(a, c) then a.(state := a.state[a.current[c] := Stopped]) else a
       case Exit(c) =>
         if !Free(a, c) || a.current[c] == Fallback(a.idle[c]) then b == a
         else
           var t := a.current[c];
           var left := a.(state := a.state[t := Dead], parent := Orphaned(a.id, a.parent, a.id[t]));
           AllWoken(left, Wanted(WithId(a.id, left.parent[t]), left.state), |a.state|, b)
       case Wake(t) =>
         if t < |a.state| && (a.state[t].Blocked? || a.state[t].Sleeping? || a.state[t].Stopped?) then
           b == a.(state := a.state[t := Ready], sleep := Without(a.sleep, t), ready := Arrive(a.ready, a.target, a.current, t))
         else b == a
       case Expire(now) =>
         && b == a.(state := b.state, sleep := Select(a.sleep, NotDue(a.wake, now)),
                    ready := ArriveAll(a.ready, a.target, a.current, Select(a.sleep, Due(a.wake, now))))
         && |b.state| == |a.state|
         && forall t :: 0 <= t < |a.state| ==> b.state[t] == if t in a.sleep && a.wake[t] <= now then Ready else a.state[t]
       case Kill(c, pid) =>
         if c >= |a.current| || pid == 0 then b == a
         else
           && |b.signalled| == |a.signalled|
           && AllWoken(a.(signalled := b.signalled), Wanted(InGroup(a.tgid, pid, a.taskCount), a.state), a.taskCount, b)
           && forall t :: 0 <= t < |a.state| ==>
                b.signalled[t] == (a.signalled[t] || (1 <= t < a.taskCount && a.tgid[t] == pid && !a.state[t].Dead?))
       case Create(stack) =>
         exists slot, m :: Begun(a, stack, 0, 0, false, slot, m) && if slot == NULL then b == m else Shaped(m) && 0 <= slot < |m.state| && Finished(m, slot, b)
       case Begin(c, stack, thread) =>
         if c >= |a.current| then b == a && open' == open
         else
           exists slot :: Begun(a, stack, a.id[a.current[c]], a.tgid[a.current[c]], thread, slot, b)
                          && open' == if slot == NULL then open else open + {slot}
       case Finish(t) =>
         if t in open && t < |a.state| then Finished(a, t, b) && open' == open - {t} else b == a && open' == open
       case Reap(t) =>
         b == if t < |a.state| && a.state[t].Dead? && t !in a.current
              then a.(state := a.state[t := Ready], used := a.used[t := false], id := a.id[t := 0]) else a
  }

  lemma Shapes(s: Scheduler)
    requires s.Valid()
    ensures Shaped(Look(s)) && Sized(Observe(s)) && |s.state| == s.tasks && |s.current| == s.cpus
  {
    hide SleepList, RowOk;
    s.SleepDistinct();
    forall c | 0 <= c < s.cpus ensures InRange(s.lists.ready[c], s.tasks) {
      forall t | t in s.lists.ready[c] ensures 0 <= t < s.tasks { s.MemberTarget(t, c); }
    }
  }

  /** One step. open holds the slots under construction. */
  method Perform(s: Scheduler, step: Step, open: set<int>) returns (open': set<int>)
    requires s.Valid() && s.building == open
    modifies s, s.lists, s.sleepers
    ensures s.Valid() && s.building == open'
    ensures Steps(old(Observe(s)), step, Observe(s)) && Does(old(Look(s)), step, open, Look(s), open')
  {
    hide Queues, SleepList, AtHome, RowOk, Steps, Does;
    open' := open;
    match step {
      case Wake(t) => WakeStep(s, t, open);
      case Expire(now) => Sweep(s, now, open);
      case Create(stack) => CreateStep(s, stack, open);
      case Begin(c, stack, thread) => open' := BeginStep(s, c, stack, thread, open);
      case Finish(t) => open' := FinishStep(s, t, open);
      case Reap(t) => ReapStep(s, t, open);
      case Tick(c) => TickStep(s, c, open);
      case YieldCpu(c) => YieldStep(s, c, open);
      case Kill(c, pid) => Strike(s, c, pid, open);
      case Exit(c) => ExitStep(s, c, open);
      case Block(c) => BlockStep(s, c, open);
      case BlockFor(_, _) | Sleep(_, _) => DozeStep(s, step, open);
      case Stop(c) => StopStep(s, c, open);
    }
  }

  ghost function Sighted(a: Scene): Sight {
    Sight(a.state, a.current, a.idle, a.signalled, a.sleep, a.id, a.parent, a.tgid)
  }

  /** Taking a slot blocks nobody and brings nobody back. */
  lemma BegunSteps(a: Scene, step: Step, stack: bool, parentId: nat, group: nat, thread: bool, slot: int, b: Scene)
    requires step.Begin? || step.Create?
    requires Shaped(a) && Shaped(b) && Begun(a, stack, parentId, group, thread, slot, b)
    requires slot >= 0 ==> !a.state[slot].Blocked?
    ensures Steps(Sighted(a), step, Sighted(b))
  {
    hide NoSlot;
  }

  lemma KillSteps(a: Scene, c: nat, pid: nat, b: Scene)
    requires Shaped(a) && Shaped(b) && Does(a, Kill(c, pid), {}, b, {})
    ensures Steps(Sighted(a), Kill(c, pid), Sighted(b))
  {
    hide Select, ArriveAll;
  }

  lemma StayPut(v: Sight, step: Step)
    requires Sized(v)
    ensures Steps(v, step, v)
  {}

  lemma SubWithout(q: seq<int>)
    ensures forall t, u :: u in Without(q, t) ==> u in q
  {
    forall t ensures forall u :: u in Without(q, t) ==> u in q { WithoutSubset(q, t); }
  }

  method WakeStep(s: Scheduler, t: nat, ghost open: set<int>)
    requires s.Valid() && s.building == open
    modifies s`state, s.lists, s.sleepers
    ensures s.Valid() && Steps(old(Observe(s)), Wake(t), Observe(s)) && Does(old(Look(s)), Wake(t), open, Look(s), open)
  {
    hide Queues, SleepList, AtHome, RowOk, Without, Arrive;
    Shapes(s);
    SubWithout(s.sleepers.sleep);
    if t < s.tasks { s.Wakeup(t); }
    Shapes(s);
  }

  method Sweep(s: Scheduler, now: nat, ghost open: set<int>)
    requires s.Valid() && s.building == open
    modifies s`state, s.lists, s.sleepers
    ensures s.Valid() && Steps(old(Observe(s)), Expire(now), Observe(s)) && Does(old(Look(s)), Expire(now), open, Look(s), open)
  {
    hide Queues, SleepList, AtHome, RowOk, Select, ArriveAll, Sorted;
    Shapes(s);
    ghost var q, wake := s.sleepers.sleep, s.sleepers.wake;
    s.SleepDistinct();
    s.WakeExpired(now);
    forall t | t in s.sleepers.sleep ensures t in q { SelectMembers(q, NotDue(wake, now), t); }
    Shapes(s);
  }

  method CreateStep(s: Scheduler, stack: bool, ghost open: set<int>)
    requires s.Valid() && s.building == open
    modifies s, s.lists
    ensures s.Valid() && s.building == open
    ensures Steps(old(Observe(s)), Create(stack), Observe(s)) && Does(old(Look(s)), Create(stack), open, Look(s), open)
  {
    hide Queues, SleepList, AtHome, RowOk, NoSlot, Untaken;
    Shapes(s);
    ghost var a := Look(s);
    var slot := s.Create(stack);
    Shapes(s);
    ghost var b := Look(s);
    ghost var m := if slot == NULL then b else b.(signalled := a.signalled, taskCount := a.taskCount, ready := a.ready);
    assert Begun(a, stack, 0, 0, false, slot, m);
    assert if slot == NULL then b == m else Shaped(m) && 0 <= slot < |m.state| && Finished(m, slot, b);
  }

  /** The first locked part of task_fork or task_clone on a CPU. */
  method BeginStep(s: Scheduler, c: nat, stack: bool, thread: bool, open: set<int>) returns (open': set<int>)
    requires s.Valid() && s.building == open
    modifies s
    ensures s.Valid() && s.building == open'
    ensures Steps(old(Observe(s)), Begin(c, stack, thread), Observe(s))
    ensures Does(old(Look(s)), Begin(c, stack, thread), open, Look(s), open')
  {
    hide Queues, SleepList, AtHome, RowOk, NoSlot, Untaken, Steps;
    Shapes(s);
    open' := open;
    if c >= s.cpus {
      StayPut(Observe(s), Begin(c, stack, thread));
      return;
    }
    ghost var a := Look(s);
    var t := s.current[c];
    var slot := s.Begin(stack, s.id[t], s.tgid[t], thread);
    if slot != NULL { open' := open + {slot}; }
    Shapes(s);
    assert Begun(a, stack, a.id[a.current[c]], a.tgid[a.current[c]], thread, slot, Look(s));
    BegunSteps(a, Begin(c, stack, thread), stack, a.id[a.current[c]], a.tgid[a.current[c]], thread, slot, Look(s));
  }

  method FinishStep(s: Scheduler, t: nat, open: set<int>) returns (open': set<int>)
    requires s.Valid() && s.building == open
    modifies s, s.lists
    ensures s.Valid() && s.building == open'
    ensures Steps(old(Observe(s)), Finish(t), Observe(s)) && Does(old(Look(s)), Finish(t), open, Look(s), open')
  {
    hide Queues, SleepList, AtHome, RowOk;
    Shapes(s);
    open' := open;
    if t in open && t < s.tasks {
      s.Finish(t);
      open' := open - {t};
    }
    Shapes(s);
  }

  method ReapStep(s: Scheduler, t: nat, ghost open: set<int>)
    requires s.Valid() && s.building == open
    modifies s`state, s`used, s`id
    ensures s.Valid() && Steps(old(Observe(s)), Reap(t), Observe(s)) && Does(old(Look(s)), Reap(t), open, Look(s), open)
  {
    hide Queues, SleepList, AtHome, RowOk;
    Shapes(s);
    if t < s.tasks && s.state[t].Dead? && t !in s.current { s.Reap(t); }
    Shapes(s);
  }

  method TickStep(s: Scheduler, c: nat, ghost open: set<int>)
    requires s.Valid() && s.building == open
    modifies s`state, s`current, s`ticks, s.lists, s.sleepers
    ensures s.Valid() && Steps(old(Observe(s)), Tick(c), Observe(s)) && Does(old(Look(s)), Tick(c), open, Look(s), open)
  {
    hide Queues, SleepList, AtHome, RowOk, Without;
    Shapes(s);
    SubWithout(s.sleepers.sleep);
    if c < s.cpus {
      s.ChosenFacts(c);
      s.Schedule(c);
    }
    Shapes(s);
  }

  method YieldStep(s: Scheduler, c: nat, ghost open: set<int>)
    requires s.Valid() && s.building == open
    modifies s`state, s`current, s`ticks, s.lists, s.sleepers
    ensures s.Valid() && Steps(old(Observe(s)), YieldCpu(c), Observe(s)) && Does(old(Look(s)), YieldCpu(c), open, Look(s), open)
  {
    hide Queues, SleepList, AtHome, RowOk, Without;
    Shapes(s);
    SubWithout(s.sleepers.sleep);
    if c < s.cpus {
      s.ChosenFacts(c);
      s.Yield(c);
    }
    Shapes(s);
  }

  method Strike(s: Scheduler, c: nat, pid: nat, ghost open: set<int>)
    requires s.Valid() && s.building == open
    modifies s`state, s`signalled, s.lists, s.sleepers
    ensures s.Valid() && Steps(old(Observe(s)), Kill(c, pid), Observe(s)) && Does(old(Look(s)), Kill(c, pid), open, Look(s), open)
  {
    hide Queues, SleepList, AtHome, RowOk, Select, ArriveAll, Steps;
    Shapes(s);
    if c < s.cpus {
      var _, _ := s.Kill(c, pid);
    }
    Shapes(s);
    KillSteps(old(Look(s)), c, pid, Look(s));
  }

  method ExitStep(s: Scheduler, c: nat, ghost open: set<int>)
    requires s.Valid() && s.building == open
    modifies s`state, s`parent, s.lists, s.sleepers
    ensures s.Valid() && Steps(old(Observe(s)), Exit(c), Observe(s)) && Does(old(Look(s)), Exit(c), open, Look(s), open)
  {
    hide Queues, SleepList, AtHome, RowOk, Select, ArriveAll;
    Shapes(s);
    if c >= s.cpus { return; }
    var busy := s.sleepers.Listed(s.current[c]);
    if !busy && s.current[c] != Fallback(s.idle[c]) { s.Exit(c); }
    Shapes(s);
  }

  /** Steps of the task a CPU runs. */
  method BlockStep(s: Scheduler, c: nat, ghost open: set<int>)
    requires s.Valid() && s.building == open
    modifies s`state, s.sleepers
    ensures s.Valid() && Steps(old(Observe(s)), Block(c), Observe(s)) && Does(old(Look(s)), Block(c), open, Look(s), open)
  {
    hide Queues, SleepList, AtHome, RowOk;
    Shapes(s);
    if c >= s.cpus { return; }
    var busy := s.sleepers.Listed(s.current[c]);
    if !busy { s.Block(c); }
    Shapes(s);
  }

  method StopStep(s: Scheduler, c: nat, ghost open: set<int>)
    requires s.Valid() && s.building == open
    modifies s`state
    ensures s.Valid() && Steps(old(Observe(s)), Stop(c), Observe(s)) && Does(old(Look(s)), Stop(c), open, Look(s), open)
  {
    hide Queues, SleepList, AtHome, RowOk;
    Shapes(s);
    if c >= s.cpus { return; }
    var busy := s.sleepers.Listed(s.current[c]);
    if !busy { s.Leave(c, Stopped); }
    Shapes(s);
  }

  method DozeStep(s: Scheduler, step: Step, ghost open: set<int>)
    requires s.Valid() && s.building == open && (step.BlockFor? || step.Sleep?)
    modifies s`state, s.sleepers
    ensures s.Valid() && Steps(old(Observe(s)), step, Observe(s)) && Does(old(Look(s)), step, open, Look(s), open)
  {
    hide Queues, SleepList, AtHome, RowOk, Insert, SleepPlace;
    Shapes(s);
    var c := step.cpu;
    if c >= s.cpus { return; }
    ghost var q, t := s.sleepers.sleep, s.current[c];
    forall i: nat | i <= |q| ensures forall u :: u in Insert(q, i, t) ==> u in q || u == t { InsertEach(q, i, t); }
    var busy := s.sleepers.Listed(s.current[c]);
    if !busy { s.BlockUntil(c, step.tick, if step.Sleep? then Sleeping else Blocked); }
    Shapes(s);
  }

  /** Whatever the CPUs do, in whatever order, each step has its own effect: no task runs twice, none is queued and running or
      queued twice, every list matches its count, no built runnable task is lost, and no sleeper is. */
  method Run(s: Scheduler, steps: seq<Step>) returns (ghost scenes: seq<Scene>, ghost opens: seq<set<int>>)
    requires s.Valid() && s.building == {}
    modifies s, s.lists, s.sleepers
    ensures s.Valid()
    ensures |scenes| == |opens| == |steps| + 1
    ensures scenes[0] == old(Look(s)) && scenes[|steps|] == Look(s) && opens[0] == {} && opens[|steps|] == s.building
    ensures forall i :: 0 <= i < |steps| ==> Does(scenes[i], steps[i], opens[i], scenes[i + 1], opens[i + 1])
    ensures forall c, d :: 0 <= c < s.cpus && 0 <= d < s.cpus && s.current[c] == s.current[d] ==> c == d
    ensures forall t, c, d :: 0 <= c < s.cpus && 0 <= d < s.cpus && t in s.lists.ready[c] ==>
              s.current[d] != t && (t in s.lists.ready[d] ==> c == d)
    ensures |s.lists.count| == s.cpus && forall c :: 0 <= c < s.cpus ==> s.lists.count[c] == |s.lists.ready[c]|
    ensures forall c :: 0 <= c < s.cpus ==> Linked(s.lists.ready[c], s.lists.next, s.lists.prev)
    ensures forall t :: 0 <= t < s.tasks && s.used[t] && t !in s.building && Runnable(s.state[t]) ==>
              exists c :: 0 <= c < s.cpus && (t in s.lists.ready[c] || s.current[c] == t)
    ensures InRange(s.sleepers.sleep, s.tasks) && Sorted(s.sleepers.sleep, s.sleepers.wake)
    ensures forall t :: 0 <= t < s.tasks && s.state[t].Sleeping? && t != Fallback(s.idle[s.lists.target[t]]) ==>
              t in s.sleepers.sleep
  {
    hide Queues, SleepList, AtHome, RowOk, Linked, Sorted, Does, Steps;
    var open: set<int> := {};
    scenes, opens := [Look(s)], [open];
    for i := 0 to |steps|
      invariant s.Valid() && s.building == open
      invariant |scenes| == |opens| == i + 1 && scenes[0] == old(Look(s)) && scenes[i] == Look(s) && opens[0] == {} && opens[i] == open
      invariant forall j :: 0 <= j < i ==> Does(scenes[j], steps[j], opens[j], scenes[j + 1], opens[j + 1])
    {
      open := Perform(s, steps[i], open);
      scenes, opens := scenes + [Look(s)], opens + [open];
    }
    Meaning(s);
  }

  lemma Meaning(s: Scheduler)
    requires s.Valid()
    ensures forall c, d :: 0 <= c < s.cpus && 0 <= d < s.cpus && s.current[c] == s.current[d] ==> c == d
    ensures forall t, c, d :: 0 <= c < s.cpus && 0 <= d < s.cpus && t in s.lists.ready[c] ==>
              s.current[d] != t && (t in s.lists.ready[d] ==> c == d)
    ensures |s.lists.count| == s.cpus && forall c :: 0 <= c < s.cpus ==> s.lists.count[c] == |s.lists.ready[c]|
    ensures forall c :: 0 <= c < s.cpus ==> Linked(s.lists.ready[c], s.lists.next, s.lists.prev)
    ensures forall t :: 0 <= t < s.tasks && s.used[t] && t !in s.building && Runnable(s.state[t]) ==>
              exists c :: 0 <= c < s.cpus && (t in s.lists.ready[c] || s.current[c] == t)
    ensures InRange(s.sleepers.sleep, s.tasks) && Sorted(s.sleepers.sleep, s.sleepers.wake)
    ensures forall t :: 0 <= t < s.tasks && s.state[t].Sleeping? && t != Fallback(s.idle[s.lists.target[t]]) ==>
              t in s.sleepers.sleep
  {
    hide Queues, SleepList, AtHome, RowOk, Linked, Sorted;
    forall c, d | 0 <= c < s.cpus && 0 <= d < s.cpus && s.current[c] == s.current[d] ensures c == d {
      s.RunsOnce(c, d);
    }
    forall t, c, d | 0 <= c < s.cpus && 0 <= d < s.cpus && t in s.lists.ready[c]
      ensures s.current[d] != t && (t in s.lists.ready[d] ==> c == d)
    {
      s.QueuedOnce(t, c, d);
    }
    s.ListsFormed(0);
    forall c | 0 <= c < s.cpus
      ensures |s.lists.count| == s.cpus && s.lists.count[c] == |s.lists.ready[c]|
      ensures Linked(s.lists.ready[c], s.lists.next, s.lists.prev)
    {
      s.ListsFormed(c);
    }
    forall t | 0 <= t < s.tasks && s.used[t] && t !in s.building && Runnable(s.state[t])
      ensures exists c :: 0 <= c < s.cpus && (t in s.lists.ready[c] || s.current[c] == t)
    {
      s.NothingLost(t);
    }
    s.SleepDistinct();
    forall t | 0 <= t < s.tasks && s.state[t].Sleeping? && t != Fallback(s.idle[s.lists.target[t]])
      ensures t in s.sleepers.sleep
    {
      s.SleepersKept(t);
    }
  }
}
