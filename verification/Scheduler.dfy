/** The SMP scheduler: per-CPU ready queues, one sleep queue and the task table, changed by steps
    that hold the scheduler lock. Valid() is what every step of every CPU keeps. */
module SmpScheduler {
  import opened LinkedQueue
  import opened SchedulerQueues
  import opened SchedulerLists
  import opened Selection

  const SCHEDULER_HZ: int := 10

  datatype State = Ready | Running | Blocked | Sleeping | Stopped | Dead

  /** Off the CPU until someone wakes it. */
  predicate Waiting(s: State) { s.Blocked? || s.Sleeping? || s.Stopped? }
  predicate Runnable(s: State) { s.Running? || s.Ready? }

  /** Where one task stands: its state and which of the structures hold it. */
  datatype Row = Row(state: State, used: bool, building: bool, queued: bool, current: bool,
                     asleep: bool, fallback: bool)

  /** The placement rule of one task. A built, runnable task is queued or running, never both; a
      sleeper is in the sleep queue unless it is the task a CPU falls back to. */
  predicate RowOk(r: Row) {
    && (r.queued ==> r.used && !r.building && r.state.Ready? && !r.current)
    && (r.current ==> r.used && !r.building)
    && (r.used && !r.building && r.state.Ready? ==> r.queued || r.current)
    && (r.state.Running? ==> r.current)
    && (!r.used || r.building ==> r.state.Ready?)
    && (r.building ==> r.used)
    && (r.asleep ==> r.state.Blocked? || r.state.Sleeping?)
    && (r.state.Sleeping? && !r.fallback ==> r.asleep)
    && (r.fallback ==> r.used && !r.building && !r.state.Dead?)
  }

  /** The task a CPU runs when nothing is ready: its idle task, or task 0 when it has none. */
  function Fallback(idle: int): int { if idle != NULL then idle else 0 }

  /** Every CPU runs, and falls back to, a task of its own. */
  ghost predicate AtHome(target: seq<int>, current: seq<int>, idle: seq<int>) {
    && |current| == |idle|
    && (forall c :: 0 <= c < |current| ==> 0 <= current[c] < |target| && target[current[c]] == c)
    && (forall c :: 0 <= c < |idle| ==> 0 <= Fallback(idle[c]) < |target| && target[Fallback(idle[c])] == c)
  }

  lemma WithoutEach(q: seq<int>, t: int)
    requires Distinct(q)
    ensures forall u :: u in Without(q, t) <==> u in q && u != t
  {
    forall u ensures u in Without(q, t) <==> u in q && u != t { WithoutMembers(q, t, u); }
  }

  lemma InsertEach(q: seq<int>, i: nat, t: int)
    requires i <= |q|
    ensures forall u :: u in Insert(q, i, t) <==> u in q || u == t
  {
    forall u ensures u in Insert(q, i, t) <==> u in q || u == t { InsertMembers(q, i, t, u); }
  }

  /** The ready lists once t has been made ready: appended to its CPU's, unless a CPU runs it. */
  function Arrive(ready: seq<seq<int>>, target: seq<int>, current: seq<int>, t: int): (r: seq<seq<int>>)
    requires |ready| == |current| && InRange(target, |ready|) && 0 <= t < |target|
    ensures |r| == |ready|
  {
    var c := target[t];
    if current[c] == t then ready else ready[c := ready[c] + [t]]
  }

  /** Several tasks made ready, one after the other. */
  function ArriveAll(ready: seq<seq<int>>, target: seq<int>, current: seq<int>, ts: seq<int>): (r: seq<seq<int>>)
    requires |ready| == |current| && InRange(target, |ready|) && InRange(ts, |target|)
    ensures |r| == |ready|
  {
    if ts == [] then ready
    else Arrive(ArriveAll(ready, target, current, ts[..|ts| - 1]), target, current, ts[|ts| - 1])
  }

  lemma NoneArrives(ready: seq<seq<int>>, target: seq<int>, current: seq<int>)
    requires |ready| == |current| && InRange(target, |ready|)
    ensures ArriveAll(ready, target, current, []) == ready
  {}

  lemma ArriveStep(ready: seq<seq<int>>, target: seq<int>, current: seq<int>, ts: seq<int>, t: int)
    requires |ready| == |current| && InRange(target, |ready|) && InRange(ts, |target|) && 0 <= t < |target|
    ensures InRange(ts + [t], |target|)
    ensures ArriveAll(ready, target, current, ts + [t]) == Arrive(ArriveAll(ready, target, current, ts), target, current, t)
  {
    assert (ts + [t])[..|ts|] == ts;
  }

  /** The states once the first n slots that are marked have been made ready. */
  function Readied(state: seq<State>, mark: seq<bool>, n: nat): seq<State>
    requires |mark| == |state|
  {
    seq(|state|, t requires 0 <= t < |state| => if t < n && mark[t] then Ready else state[t])
  }

  /** The table when a task gives up its CPU: a runnable one is ready, any other stays as it is. */
  function Passed(state: seq<State>, t: int): (r: seq<State>)
    requires 0 <= t < |state|
    ensures |r| == |state|
  {
    if Runnable(state[t]) then state[t := Ready] else state
  }

  /** The ready list of a CPU after a switch away from t. */
  function Turned(q: seq<int>, s: State, t: int): seq<int> {
    (if q == [] then [] else q[1..]) + if Runnable(s) then [t] else []
  }

  lemma WithoutSubset(q: seq<int>, t: int)
    ensures forall u :: u in Without(q, t) ==> u in q
  {}

  lemma NotIn(q: seq<int>, t: int)
    ensures t !in q ==> Without(q, t) == q
  {}

  /** Appending the old task and unlinking the next one, which heads the list if it is listed. */
  lemma TurnedMembers(q: seq<int>, s: State, t: int, next: int)
    requires Distinct(q) && t !in q && t != next && (q != [] ==> q[0] == next)
    ensures q != [] ==> Turned(q, s, t) == Without(if Runnable(s) then q + [t] else q, next)
    ensures forall u :: u in Turned(q, s, t) <==> (u in q && u != next) || (u == t && Runnable(s))
  {
    if q != [] {
      var full := if Runnable(s) then q + [t] else q;
      assert full[0] == next;
      assert Without(full, next) == full[1..];
      assert Turned(q, s, t) == full[1..];
      WithoutEach(full, next);
    }
  }

  /** A CPU that switches to another task of its own. */
  lemma HomeMoves(target: seq<int>, current: seq<int>, idle: seq<int>, c: int, t: int)
    requires AtHome(target, current, idle) && 0 <= c < |current| && 0 <= t < |target| && target[t] == c
    ensures AtHome(target, current[c := t], idle)
  {}

  /** The slots marked by who whose task waits. */
  function Wanted(who: seq<bool>, state: seq<State>): (r: seq<bool>)
    requires |who| == |state|
    ensures |r| == |state|
  {
    seq(|state|, t requires 0 <= t < |state| => who[t] && Waiting(state[t]))
  }

  /** The sleepers q without the marked ones of the first n. */
  ghost predicate Roused(q: seq<int>, mark: seq<bool>, n: nat, q': seq<int>)
    requires n <= |mark|
  {
    forall u :: u in q' <==> u in q && !(0 <= u < n && mark[u])
  }

  /** The slots that carry a given id. */
  function WithId(id: seq<nat>, p: nat): (r: seq<bool>)
    ensures |r| == |id|
  {
    seq(|id|, t requires 0 <= t < |id| => id[t] == p)
  }

  /** The slots of a thread group below the high-water mark, slot 0 excepted. */
  function InGroup(tgid: seq<nat>, pid: nat, n: nat): (r: seq<bool>)
    ensures |r| == |tgid|
  {
    seq(|tgid|, t requires 0 <= t < |tgid| => 1 <= t < n && tgid[t] == pid)
  }

  /** The parents after the task with id gone has exited: its children belong to task 0. */
  function Orphaned(id: seq<nat>, parent: seq<nat>, gone: nat): (r: seq<nat>)
    requires |id| == |parent| > 0
    ensures |r| == |parent|
  {
    seq(|parent|, i requires 0 <= i < |parent| => if id[i] != 0 && parent[i] == gone then id[0] else parent[i])
  }

  /** A dead child of task 0 that no CPU runs. */
  predicate Reapable(t: int, state: seq<State>, parent: seq<nat>, id: seq<nat>, current: seq<int>)
    requires 0 <= t < |state| == |parent| == |id|
  {
    t > 0 && state[t].Dead? && parent[t] == id[0] && t !in current
  }

  /** Every slot is in use, and none by a dead child of task 0 that no CPU runs. */
  ghost predicate NoSlot(used: seq<bool>, state: seq<State>, parent: seq<nat>, id: seq<nat>, current: seq<int>)
    requires |used| == |state| == |parent| == |id| > 0
  {
    forall t :: 0 <= t < |used| ==> used[t] && !(t > 0 && state[t].Dead? && parent[t] == id[0] && t !in current)
  }

  /** No slot was taken after all. Nothing has changed, but that a dead task may have been reaped for a slot
      that then got no stack. */
  ghost predicate Untaken(used: seq<bool>, state: seq<State>, parent: seq<nat>, id: seq<nat>, current: seq<int>, same: bool,
                          used': seq<bool>, state': seq<State>, id': seq<nat>)
    requires |used| == |state| == |parent| == |id|
  {
    || (used' == used && state' == state && id' == id)
    || (!same && exists t :: 0 <= t < |state| && Reapable(t, state, parent, id, current)
                             && used' == used[t := false] && state' == state[t := Ready] && id' == id[t := 0])
  }

  lemma NoSlotIs(used: seq<bool>, state: seq<State>, parent: seq<nat>, id: seq<nat>, current: seq<int>)
    requires |used| == |state| == |parent| == |id| > 0
    ensures NoSlot(used, state, parent, id, current) <==>
              forall t :: 0 <= t < |used| ==> used[t] && !Reapable(t, state, parent, id, current)
  {
    forall t | 0 <= t < |used|
      ensures Reapable(t, state, parent, id, current) <==> t > 0 && state[t].Dead? && parent[t] == id[0] && t !in current
    {}
  }

  lemma HeadRemoved(q: seq<int>, k: nat)
    requires k < |q| && Distinct(q)
    ensures q[k..][0] == q[k] && Without(q[k..], q[k]) == q[k + 1..] && q[k..][1..] == q[k + 1..]
  {}

  lemma SweepMembers(q: seq<int>, wake: seq<nat>, now: nat, k: nat, t: int)
    requires InRange(q, |wake|) && Sorted(q, wake) && k <= |q|
    requires forall j :: 0 <= j < k ==> wake[q[j]] <= now
    requires k < |q| ==> wake[q[k]] > now
    ensures t in q[..k] <==> t in q && wake[t] <= now
  {
    hide Select;
    SweepIsScan(q, wake, now, k);
    SelectMembers(q, Due(wake, now), t);
  }

  class Scheduler {
    const tasks: nat
    const cpus: nat
    const lists: ReadyLists
    const sleepers: SleepQueue

    // The task table, one entry per slot; queue links and wake ticks are in lists and sleepers.
    var state: seq<State>
    var used: seq<bool>
    var signalled: seq<bool>
    var id: seq<nat>
    var parent: seq<nat>
    var tgid: seq<nat>
    var taskCount: nat
    var nextId: nat

    // Per-CPU data.
    var current: seq<int>
    var idle: seq<int>
    var ticks: seq<int>

    /** Slots taken but not yet handed to a ready queue: the lock is dropped while they are filled. */
    ghost var building: set<int>

    ghost predicate Shape()
      reads this, lists, sleepers
    {
      && |state| == |used| == |signalled| == |id| == |parent| == |tgid| == tasks
      && |lists.target| == |sleepers.wake| == tasks
      && |current| == |idle| == |ticks| == |lists.ready| == cpus
      && cpus > 0 && 0 < taskCount <= tasks
      && InRange(lists.target, cpus)
    }

    ghost function RowOf(t: int): Row
      reads this, lists, sleepers
      requires Shape() && 0 <= t < tasks
    {
      var c := lists.target[t];
      Row(state[t], used[t], t in building, t in lists.ready[c], current[c] == t,
          t in sleepers.sleep, Fallback(idle[c]) == t)
    }

    ghost predicate RowsOk()
      reads this, lists, sleepers
      requires Shape()
    {
      && (forall t :: 0 <= t < tasks ==> RowOk(RowOf(t)))
      && (forall t :: 0 <= t < tasks && used[t] && t !in building ==> t < taskCount)
    }

    ghost predicate Valid()
      reads this, lists, sleepers
    {
      Shape() && lists.Valid() && sleepers.Valid() && RowsOk() && AtHome(lists.target, current, idle)
    }

    /** After boot: task 0 runs on CPU 0, and each further CPU runs the idle task made for it, in
        the order the CPUs came up. Every other slot is free. */
    constructor (target: seq<int>, cpus: nat)
      requires 0 < cpus <= |target| && InRange(target, cpus)
      requires forall c :: 0 <= c < cpus ==> target[c] == c
      ensures Valid() && fresh(lists) && fresh(sleepers)
      ensures tasks == |target| && this.cpus == cpus && lists.target == target
      ensures building == {} && current == seq(cpus, c => c)
    {
      var n := |target|;
      tasks := n;
      this.cpus := cpus;
      lists := new ReadyLists(target, cpus);
      sleepers := new SleepQueue(n);
      state := seq(n, t => if t < cpus then Running else Ready);
      used := seq(n, t => t < cpus);
      signalled := seq(n, t => false);
      id := seq(n, t => if t < cpus then t else 0);
      parent := seq(n, t => 0);
      tgid := seq(n, t => if t < cpus then t else 0);
      taskCount := cpus;
      nextId := cpus;
      current := seq(cpus, c => c);
      idle := seq(cpus, c => if c == 0 then NULL else c);
      ticks := seq(cpus, c => 0);
      building := {};
    }

    /** The scan over the CPUs for one that runs t. */
    method IsActive(t: int) returns (b: bool)
      requires Shape() && AtHome(lists.target, current, idle) && 0 <= t < tasks
      ensures b <==> current[lists.target[t]] == t
      ensures b <==> t in current
    {
      b := false;
      for c := 0 to cpus
        invariant !b && forall d :: 0 <= d < c ==> current[d] != t
      {
        if current[c] == t { b := true; return; }
      }
    }

    /** A waiting task becomes ready: it leaves the sleep queue and joins its CPU's ready list,
        except while some CPU is still running it. */
    method Resume(t: int)
      requires Valid() && 0 <= t < tasks && Waiting(state[t])
      modifies this`state, lists, sleepers
      ensures Valid()
      ensures state == old(state)[t := Ready]
      ensures sleepers.sleep == Without(old(sleepers.sleep), t) && sleepers.wake == old(sleepers.wake)
      ensures lists.ready == Arrive(old(lists.ready), lists.target, current, t)
    {
      hide Queues, SleepList, Distinct, Without, First, Last, AtHome;
      assert !RowOf(t).queued;
      assert Distinct(sleepers.sleep) by { SleepDistinct(); }
      WithoutEach(sleepers.sleep, t);
      var active := IsActive(t);
      state := state[t := Ready];
      sleepers.Dequeue(t);
      if !active { lists.Enqueue(t); }
      forall u | 0 <= u < tasks ensures RowOk(RowOf(u)) {
        assert RowOk(old(RowOf(u)));
        assert u != t ==> RowOf(u) == old(RowOf(u));
      }
    }

    /** task_block: a task with a pending signal stays ready instead. */
    method Block(c: int)
      requires Valid() && 0 <= c < cpus && current[c] !in sleepers.sleep
      modifies this`state, sleepers`wake
      ensures Valid()
      ensures state == old(state)[current[c] := if signalled[current[c]] then Ready else Blocked]
      ensures sleepers.wake == if signalled[current[c]] then old(sleepers.wake) else old(sleepers.wake)[current[c] := 0]
    {
      hide Queues, SleepList, Distinct, AtHome;
      HomeOf(c);
      var t := current[c];
      if signalled[t] {
        state := state[t := Ready];
      } else {
        sleepers.SetWake(t, 0);
        state := state[t := Blocked];
      }
      forall u | 0 <= u < tasks ensures RowOk(RowOf(u)) {
        assert RowOk(old(RowOf(u)));
        assert u != t ==> RowOf(u) == old(RowOf(u));
      }
    }

    /** task_block_with_timeout (s is Blocked) and the locked part of task_sleep (s is Sleeping),
        which takes no notice of signals. */
    method BlockUntil(c: int, tick: nat, s: State)
      requires Valid() && 0 <= c < cpus && current[c] !in sleepers.sleep
      requires s.Blocked? || s.Sleeping?
      modifies this`state, sleepers
      ensures Valid()
      ensures var t := current[c];
              if s.Blocked? && signalled[t] then
                state == old(state)[t := Ready] && sleepers.sleep == old(sleepers.sleep) && sleepers.wake == old(sleepers.wake)
              else
                && state == old(state)[t := s] && sleepers.wake == old(sleepers.wake)[t := tick]
                && exists i: nat :: InRange(old(sleepers.sleep), tasks) && SleepPlace(old(sleepers.sleep), sleepers.wake, t, i)
                                 && i <= |old(sleepers.sleep)| && sleepers.sleep == Insert(old(sleepers.sleep), i, t)
    {
      hide Queues, SleepList, Distinct, AtHome, Insert, SleepPlace;
      HomeOf(c);
      var t := current[c];
      if s.Blocked? && signalled[t] {
        state := state[t := Ready];
      } else {
        sleepers.SetWake(t, tick);
        state := state[t := s];
        sleepers.Enqueue(t);
        ghost var i: nat :| InRange(old(sleepers.sleep), tasks) && SleepPlace(old(sleepers.sleep), sleepers.wake, t, i)
                            && i <= |old(sleepers.sleep)| && sleepers.sleep == Insert(old(sleepers.sleep), i, t);
        InsertEach(old(sleepers.sleep), i, t);
      }
      forall u | 0 <= u < tasks ensures RowOk(RowOf(u)) {
        assert RowOk(old(RowOf(u)));
        assert u != t ==> RowOf(u) == old(RowOf(u));
      }
    }

    lemma HomeOf(c: int)
      requires Valid() && 0 <= c < cpus
      ensures 0 <= current[c] < tasks && lists.target[current[c]] == c
      ensures 0 <= Fallback(idle[c]) < tasks && lists.target[Fallback(idle[c])] == c
    {}

    /** The task schedule picks: the head of the ready list, else the current one while it can run
        on, else the fallback. */
    ghost function Chosen(c: int): int
      reads this, lists, sleepers
      requires Valid() && 0 <= c < cpus
    {
      if lists.ready[c] != [] then lists.ready[c][0]
      else if Runnable(state[current[c]]) then current[c] else Fallback(idle[c])
    }

    /** A runnable task keeps its CPU for ten calls. */
    ghost predicate Switches(c: int)
      reads this, lists, sleepers
      requires Valid() && 0 <= c < cpus
    {
      Chosen(c) != current[c] && (Runnable(state[current[c]]) ==> ticks[c] + 1 >= 10)
    }

    /** What schedule relies on in its choice. */
    lemma ChosenFacts(c: int)
      requires Valid() && 0 <= c < cpus
      ensures 0 <= Chosen(c) < tasks && lists.target[Chosen(c)] == c
      ensures lists.ready[c] != [] ==> state[Chosen(c)].Ready? && Chosen(c) != current[c]
      ensures lists.ready[c] == [] && Chosen(c) != current[c] ==> !Runnable(state[current[c]]) && !Runnable(state[Chosen(c)])
      ensures used[Chosen(c)] && Chosen(c) !in building
      ensures current[c] !in lists.ready[c]
      ensures Runnable(state[Chosen(c)]) ==> Chosen(c) !in sleepers.sleep
      ensures Distinct(lists.ready[c])
      ensures |lists.head| == cpus && lists.head[c] == First(lists.ready[c])
    {
      HomeOf(c);
      var q := lists.ready[c];
      assert QueueOk(c, q, lists.next, lists.prev, lists.target, lists.head[c], lists.tail[c], lists.count[c]);
      if q != [] { assert lists.target[q[0]] == c && q[0] in q; }
      assert RowOk(RowOf(Chosen(c))) && RowOk(RowOf(current[c]));
    }

    /** schedule: the chosen task runs next, and a preempted one goes to the end of the list. */
    method Schedule(c: int)
      requires Valid() && 0 <= c < cpus
      modifies this`state, this`current, this`ticks, lists, sleepers
      ensures Valid()
      ensures current == if old(Switches(c)) then old(current)[c := old(Chosen(c))] else old(current)
      ensures current[c] !in sleepers.sleep
      ensures old(Switches(c)) ==>
                && ticks == old(ticks)[c := 0]
                && state == old(Passed(state, current[c]))[current[c] := Running]
                && lists.ready == old(lists.ready)[c := old(Turned(lists.ready[c], state[current[c]], current[c]))]
      ensures !old(Switches(c)) ==> lists.ready == old(lists.ready)
      ensures !old(Switches(c)) ==>
                state == if old(Chosen(c)) == current[c] && old(state[current[c]]).Ready? then old(state)[current[c] := Running] else old(state)
      ensures !old(Switches(c)) ==>
                ticks == if old(Chosen(c)) == current[c] then old(ticks) else old(ticks)[c := old(ticks[c]) + 1]
      ensures sleepers.sleep == Without(old(sleepers.sleep), current[c])
      ensures sleepers.wake == if old(Switches(c)) || old(Chosen(c)) == current[c]
                               then old(sleepers.wake)[current[c] := 0] else old(sleepers.wake)
      ensures forall t :: 0 <= t < tasks && old(state[t]).Blocked? && !state[t].Blocked? ==> t == Fallback(idle[c])
    {
      hide Queues, SleepList, Distinct, AtHome, Without;
      HomeOf(c);
      ChosenFacts(c);
      var cur := current[c];
      var next := lists.head[c];
      if next == NULL && Runnable(state[cur]) { next := cur; }
      if next == NULL { next := Fallback(idle[c]); }
      assert next == Chosen(c) by { assert lists.ready[c] != [] ==> lists.ready[c][0] != NULL; }
      if next == cur {
        KeepRunning(c);
      } else if Runnable(state[cur]) && ticks[c] + 1 < SCHEDULER_HZ {
        assert RowOk(RowOf(cur));
        NotIn(sleepers.sleep, cur);
        CountTick(c);
      } else {
        SwitchTo(c, next);
      }
    }

    /** The current task has not used up its turn. */
    method CountTick(c: int)
      requires Valid() && 0 <= c < cpus
      modifies this`ticks
      ensures Valid() && ticks == old(ticks)[c := old(ticks[c]) + 1]
    {
      hide Queues, SleepList, AtHome, RowOk;
      ticks := ticks[c := ticks[c] + 1];
      forall u | 0 <= u < tasks ensures RowOk(RowOf(u)) {
        assert RowOk(old(RowOf(u)));
        assert RowOf(u) == old(RowOf(u));
      }
    }

    /** Nothing else to run: the current task goes on, and any timeout of it is dropped. */
    method KeepRunning(c: int)
      requires Valid() && 0 <= c < cpus && Chosen(c) == current[c]
      modifies this`state, lists, sleepers
      ensures Valid()
      ensures state == if old(state[current[c]]).Ready? then old(state)[current[c] := Running] else old(state)
      ensures lists.ready == old(lists.ready) && sleepers.sleep == Without(old(sleepers.sleep), current[c])
      ensures current[c] !in sleepers.sleep && sleepers.wake == old(sleepers.wake)[current[c] := 0]
    {
      hide Queues, SleepList, Distinct, AtHome, Without;
      HomeOf(c);
      ChosenFacts(c);
      var cur := current[c];
      NotIn(lists.ready[c], cur);
      if state[cur].Ready? {
        lists.Dequeue(cur);
        state := state[cur := Running];
      }
      sleepers.Drop(cur);
      forall u | 0 <= u < tasks ensures RowOk(RowOf(u)) {
        assert RowOk(old(RowOf(u)));
        assert u != cur ==> RowOf(u) == old(RowOf(u));
      }
    }

    /** The ready list of the CPU: the old task joins it if it can run on, the next one leaves it. */
    method PassOn(c: int, cur: int, next: int)
      requires lists.Valid() && 0 <= c < |lists.ready| && 0 <= cur < |state| && 0 <= next < |state|
      requires |lists.target| == |state| && lists.target[cur] == lists.target[next] == c && cur != next
      requires cur !in lists.ready[c] && Distinct(lists.ready[c])
      requires if lists.ready[c] == [] then !Runnable(state[cur]) && !Runnable(state[next])
               else lists.ready[c][0] == next && state[next].Ready?
      modifies this`state, lists
      ensures lists.Valid() && state == Passed(old(state), cur)
      ensures lists.ready == old(lists.ready)[c := Turned(old(lists.ready[c]), old(state[cur]), cur)]
    {
      hide Queues, Distinct, Without;
      TurnedMembers(lists.ready[c], state[cur], cur, next);
      if Runnable(state[cur]) {
        state := state[cur := Ready];
        lists.Enqueue(cur);
      }
      if state[next].Ready? { lists.Dequeue(next); }
    }

    method SwitchTo(c: int, next: int)
      requires Valid() && 0 <= c < cpus && Switches(c) && next == Chosen(c)
      modifies this`state, this`current, this`ticks, lists, sleepers
      ensures Valid()
      ensures current == old(current)[c := next] && ticks == old(ticks)[c := 0]
      ensures next !in sleepers.sleep
      ensures state == old(Passed(state, current[c]))[next := Running]
      ensures lists.ready == old(lists.ready)[c := old(Turned(lists.ready[c], state[current[c]], current[c]))]
      ensures sleepers.sleep == Without(old(sleepers.sleep), next) && sleepers.wake == old(sleepers.wake)[next := 0]
    {
      hide Queues, SleepList, Distinct, AtHome, Without;
      HomeOf(c);
      ChosenFacts(c);
      var cur := current[c];
      TurnedMembers(lists.ready[c], state[cur], cur, next);
      ticks := ticks[c := 0];
      PassOn(c, cur, next);
      state := state[next := Running];
      sleepers.Drop(next);
      current := current[c := next];
      HomeMoves(lists.target, old(current), idle, c, next);
      forall u | 0 <= u < tasks ensures RowOk(RowOf(u)) {
        assert RowOk(old(RowOf(u)));
        assert u != cur && u != next ==> RowOf(u) == old(RowOf(u));
      }
    }

    /** task_yield: the turn is over at once. */
    method Yield(c: int)
      requires Valid() && 0 <= c < cpus
      modifies this`state, this`current, this`ticks, lists, sleepers
      ensures Valid()
      ensures current[c] == old(Chosen(c)) && current == old(current)[c := current[c]]
      ensures old(lists.ready[c]) != [] ==> current[c] == old(lists.ready[c])[0]
      ensures old(Chosen(c) != current[c]) ==>
                && ticks == old(ticks)[c := 0]
                && state == old(Passed(state, current[c]))[current[c] := Running]
                && lists.ready == old(lists.ready)[c := old(Turned(lists.ready[c], state[current[c]], current[c]))]
      ensures old(Chosen(c) == current[c]) ==>
                && ticks == old(ticks)[c := 10] && lists.ready == old(lists.ready)
                && state == if old(state[current[c]]).Ready? then old(state)[current[c] := Running] else old(state)
      ensures sleepers.sleep == Without(old(sleepers.sleep), current[c]) && sleepers.wake == old(sleepers.wake)[current[c] := 0]
      ensures forall t :: 0 <= t < tasks && old(state[t]).Blocked? && !state[t].Blocked? ==> t == Fallback(idle[c])
    {
      hide Queues, SleepList, Distinct, AtHome, Without, Turned;
      EndTurn(c);
      ChosenFacts(c);
      Schedule(c);
    }

    method EndTurn(c: int)
      requires Valid() && 0 <= c < cpus
      modifies this`ticks
      ensures Valid() && ticks == old(ticks)[c := SCHEDULER_HZ]
    {
      hide Queues, SleepList, AtHome, RowOk;
      ticks := ticks[c := SCHEDULER_HZ];
      forall u | 0 <= u < tasks ensures RowOk(RowOf(u)) {
        assert RowOk(old(RowOf(u)));
        assert RowOf(u) == old(RowOf(u));
      }
    }

    /** task_wakeup: only a waiting task is affected. */
    method Wakeup(t: int)
      requires Valid() && 0 <= t < tasks
      modifies this`state, lists, sleepers
      ensures Valid() && sleepers.wake == old(sleepers.wake)
      ensures if old(state[t]).Blocked? || old(state[t]).Sleeping? || old(state[t]).Stopped? then
                && state == old(state)[t := Ready]
                && sleepers.sleep == Without(old(sleepers.sleep), t)
                && lists.ready == Arrive(old(lists.ready), lists.target, current, t)
              else
                state == old(state) && sleepers.sleep == old(sleepers.sleep) && lists.ready == old(lists.ready)
    {
      if Waiting(state[t]) { Resume(t); }
    }

    /** task_wake_expired: the sweep from the head that stops at the first later tick does what a
        scan of the whole queue would. */
    method WakeExpired(now: nat)
      requires Valid()
      modifies this`state, lists, sleepers
      ensures Valid() && sleepers.wake == old(sleepers.wake) && InRange(old(sleepers.sleep), tasks)
      ensures sleepers.sleep == Select(old(sleepers.sleep), NotDue(sleepers.wake, now))
      ensures lists.ready == ArriveAll(old(lists.ready), lists.target, current,
                                       Select(old(sleepers.sleep), Due(sleepers.wake, now)))
      ensures forall t :: 0 <= t < tasks ==>
                state[t] == if t in old(sleepers.sleep) && sleepers.wake[t] <= now then Ready else old(state[t])
    {
      hide Queues, SleepList, RowOk, AtHome, Without, Distinct, Sorted;
      ghost var q, w := sleepers.sleep, sleepers.wake;
      SleepDistinct();
      ghost var k := 0;
      var curr := sleepers.head;
      assert q[..0] == [] && q[0..] == q;
      while curr != NULL && sleepers.wake[curr] <= now
        invariant Valid() && k <= |q| && sleepers.sleep == q[k..] && curr == First(q[k..]) && sleepers.wake == w
        invariant forall j :: 0 <= j < k ==> w[q[j]] <= now
        invariant lists.ready == ArriveAll(old(lists.ready), lists.target, current, q[..k])
        invariant forall t :: 0 <= t < tasks ==> state[t] == if t in q[..k] then Ready else old(state[t])
        decreases |q| - k
      {
        HeadWaits();
        var next := sleepers.next[curr];
        ArriveStep(old(lists.ready), lists.target, current, q[..k], curr);
        assert q[..k + 1] == q[..k] + [curr];
        HeadRemoved(q, k);
        Resume(curr);
        k := k + 1;
        curr := next;
      }
      SweepIsScan(q, w, now, k);
      forall t | 0 <= t < tasks ensures t in q[..k] <==> t in q && w[t] <= now {
        SweepMembers(q, w, now, k, t);
      }
    }

    /** The head of the sleep queue waits, and its link is the next sleeper. */
    lemma HeadWaits()
      requires Valid() && sleepers.sleep != []
      ensures |sleepers.next| == tasks && 0 <= sleepers.sleep[0] < tasks && Waiting(state[sleepers.sleep[0]])
      ensures sleepers.next[sleepers.sleep[0]] == First(sleepers.sleep[1..])
    {
      SleepDistinct();
      assert sleepers.sleep[0] in sleepers.sleep && RowOk(RowOf(sleepers.sleep[0]));
      NextOf(sleepers.sleep, sleepers.next, sleepers.prev, 0);
    }

    /** One slot of a loop that wakes marked waiting tasks in slot order. */
    method ResumeIf(i: int, wanted: bool, ghost mark: seq<bool>, ghost st: seq<State>, ghost rd: seq<seq<int>>)
      requires Valid() && 0 <= i < tasks && |mark| == |st| == tasks && |rd| == cpus
      requires wanted == mark[i] && (wanted ==> Waiting(st[i]))
      requires state == Readied(st, mark, i)
      requires lists.ready == ArriveAll(rd, lists.target, current, Select(Upto(i), mark))
      modifies this`state, lists, sleepers
      ensures Valid() && sleepers.wake == old(sleepers.wake)
      ensures state == Readied(st, mark, i + 1)
      ensures lists.ready == ArriveAll(rd, lists.target, current, Select(Upto(i + 1), mark))
      ensures forall u :: u in sleepers.sleep <==> u in old(sleepers.sleep) && !(wanted && u == i)
    {
      hide Queues, SleepList, RowOk, AtHome, Without, Distinct, Sorted, Select;
      SleepDistinct();
      WithoutEach(sleepers.sleep, i);
      UptoStep(i);
      SelectStep(Upto(i), i, mark);
      if wanted {
        ArriveStep(rd, lists.target, current, Select(Upto(i), mark), i);
        Resume(i);
      } else {
        assert Select(Upto(i), mark) + [] == Select(Upto(i), mark);
      }
      assert state == Readied(st, mark, i + 1);
    }

    /** task_wake_parent_waiter: every waiting task with the parent's id becomes ready. */
    method WakeParentWaiter(t: int)
      requires Valid() && 0 <= t < tasks
      modifies this`state, lists, sleepers
      ensures Valid()
      ensures var mark := Wanted(WithId(id, parent[t]), old(state));
              && state == Readied(old(state), mark, tasks)
              && lists.ready == ArriveAll(old(lists.ready), lists.target, current, Select(Upto(tasks), mark))
              && sleepers.wake == old(sleepers.wake) && Roused(old(sleepers.sleep), mark, tasks, sleepers.sleep)
    {
      hide Queues, SleepList, RowOk, AtHome, Without, Distinct, Sorted, Select;
      ghost var mark := Wanted(WithId(id, parent[t]), state);
      assert state == Readied(state, mark, 0);
      assert Select(Upto(0), mark) == [] by { SelectNone(Upto(0), mark); }
      for i := 0 to tasks
        invariant Valid() && state == Readied(old(state), mark, i)
        invariant lists.ready == ArriveAll(old(lists.ready), lists.target, current, Select(Upto(i), mark))
        invariant sleepers.wake == old(sleepers.wake) && Roused(old(sleepers.sleep), mark, i, sleepers.sleep)
      {
        ResumeIf(i, id[i] == parent[t] && Waiting(state[i]), mark, old(state), old(lists.ready));
      }
    }

    /** The reparenting loop of task_exit_internal. */
    method Reparent(t: int)
      requires Valid() && 0 <= t < tasks
      modifies this`parent
      ensures Valid() && parent == Orphaned(id, old(parent), id[t])
    {
      hide Queues, SleepList, RowOk, AtHome;
      for i := 0 to tasks
        invariant |parent| == tasks
        invariant forall j :: 0 <= j < tasks ==> parent[j] == if j < i then Orphaned(id, old(parent), id[t])[j] else old(parent[j])
      {
        if id[i] != 0 && parent[i] == id[t] { parent := parent[i := id[0]]; }
      }
      assert parent == Orphaned(id, old(parent), id[t]);
      forall u | 0 <= u < tasks ensures RowOk(RowOf(u)) {
        assert RowOk(old(RowOf(u)));
        assert RowOf(u) == old(RowOf(u));
      }
    }

    /** The current task of a CPU takes a new state from which only others can bring it back. */
    method Leave(c: int, s: State)
      requires Valid() && 0 <= c < cpus && current[c] !in sleepers.sleep
      requires s.Stopped? || (s.Dead? && current[c] != Fallback(idle[c]))
      modifies this`state
      ensures Valid() && state == old(state)[current[c] := s]
    {
      hide Queues, SleepList, Distinct, AtHome;
      HomeOf(c);
      var t := current[c];
      state := state[t := s];
      forall u | 0 <= u < tasks ensures RowOk(RowOf(u)) {
        assert RowOk(old(RowOf(u)));
        assert u != t ==> RowOf(u) == old(RowOf(u));
      }
    }

    /** task_exit_internal up to its own call of schedule. */
    method Exit(c: int)
      requires Valid() && 0 <= c < cpus && current[c] !in sleepers.sleep && current[c] != Fallback(idle[c])
      modifies this`state, this`parent, lists, sleepers
      ensures Valid()
      ensures parent == Orphaned(id, old(parent), id[current[c]])
      ensures state[current[c]].Dead?
      ensures forall u :: 0 <= u < tasks && u != current[c] ==>
                state[u] == if id[u] == parent[current[c]] && Waiting(old(state[u])) then Ready else old(state[u])
      ensures 0 <= current[c] < tasks &&
              var mark := Wanted(WithId(id, parent[current[c]]), old(state)[current[c] := Dead]);
              && lists.ready == ArriveAll(old(lists.ready), lists.target, current, Select(Upto(tasks), mark))
              && sleepers.wake == old(sleepers.wake) && Roused(old(sleepers.sleep), mark, tasks, sleepers.sleep)
    {
      hide Queues, SleepList, Distinct, AtHome, RowOk, Select;
      HomeOf(c);
      Leave(c, Dead);
      Reparent(current[c]);
      WakeParentWaiter(current[c]);
    }

    /** task_kill under the lock: the whole thread group is signalled and none of it stays waiting.
        The caller then exits when self is set. */
    method Kill(c: int, pid: nat) returns (r: int, self: bool)
      requires Valid() && 0 <= c < cpus
      modifies this`state, this`signalled, lists, sleepers
      ensures Valid()
      ensures pid == 0 ==> r == -1 && !self && state == old(state) && signalled == old(signalled)
                           && lists.ready == old(lists.ready) && sleepers.sleep == old(sleepers.sleep)
      ensures pid != 0 ==> forall t :: 0 <= t < tasks ==>
                && signalled[t] == (old(signalled[t]) || Hit(pid, t, old(state[t])))
                && state[t] == if Hit(pid, t, old(state[t])) && Waiting(old(state[t])) then Ready else old(state[t])
      ensures pid != 0 ==> (r == 0 <==> exists t :: 0 <= t < tasks && Hit(pid, t, old(state[t])))
      ensures r == 0 || r == -1
      ensures pid != 0 ==> forall t :: 1 <= t < tasks && used[t] && t !in building && tgid[t] == pid && !state[t].Dead? ==>
                signalled[t] && !state[t].Blocked? && !state[t].Sleeping? && !state[t].Stopped?
      ensures pid != 0 ==>
                var mark := Wanted(InGroup(tgid, pid, taskCount), old(state));
                && lists.ready == ArriveAll(old(lists.ready), lists.target, current, Select(Upto(taskCount), mark))
                && Roused(old(sleepers.sleep), mark, taskCount, sleepers.sleep)
      ensures sleepers.wake == old(sleepers.wake)
      ensures self <==> 0 <= current[c] < tasks && pid != 0 && Hit(pid, current[c], old(state[current[c]]))
    {
      hide Queues, SleepList, RowOk, AtHome, Without, Distinct, Sorted, Select, ArriveAll;
      HomeOf(c);
      r, self := -1, false;
      if pid == 0 { return; }
      ghost var mark := Wanted(InGroup(tgid, pid, taskCount), state);
      assert Readied(state, mark, 1) == state;
      assert ArriveAll(lists.ready, lists.target, current, Select(Upto(1), mark)) == lists.ready by {
        SelectNone(Upto(1), mark);
        NoneArrives(lists.ready, lists.target, current);
      }
      for i := 1 to taskCount
        invariant Valid() && |signalled| == tasks
        invariant state == Readied(old(state), mark, i)
        invariant lists.ready == ArriveAll(old(lists.ready), lists.target, current, Select(Upto(i), mark))
        invariant forall t :: 0 <= t < tasks ==>
                    signalled[t] == (old(signalled[t]) || (t < i && Hit(pid, t, old(state[t]))))
        invariant r == 0 || r == -1
        invariant r == 0 <==> exists t :: 0 <= t < i && Hit(pid, t, old(state[t]))
        invariant self <==> current[c] < i && Hit(pid, current[c], old(state[current[c]]))
        invariant sleepers.wake == old(sleepers.wake) && Roused(old(sleepers.sleep), mark, i, sleepers.sleep)
      {
        var hit := KillSlot(i, pid, mark, old(state), old(lists.ready));
        if hit {
          if current[c] == i { self := true; }
          r := 0;
        }
      }
    }

    /** task_kill reaches this slot. */
    predicate Hit(pid: nat, t: int, s: State)
      reads this
      requires 0 <= t < |tgid|
    {
      1 <= t < taskCount && tgid[t] == pid && !s.Dead?
    }

    /** One slot of task_kill's loop. */
    method KillSlot(i: int, pid: nat, ghost mark: seq<bool>, ghost st: seq<State>, ghost rd: seq<seq<int>>)
      returns (hit: bool)
      requires Valid() && 1 <= i < taskCount && |st| == tasks && |rd| == cpus
      requires mark == Wanted(InGroup(tgid, pid, taskCount), st)
      requires state == Readied(st, mark, i)
      requires lists.ready == ArriveAll(rd, lists.target, current, Select(Upto(i), mark))
      modifies this`state, this`signalled, lists, sleepers
      ensures Valid() && hit == Hit(pid, i, st[i]) && sleepers.wake == old(sleepers.wake)
      ensures forall u :: u in sleepers.sleep <==> u in old(sleepers.sleep) && !(mark[i] && u == i)
      ensures signalled == if hit then old(signalled)[i := true] else old(signalled)
      ensures state == Readied(st, mark, i + 1)
      ensures lists.ready == ArriveAll(rd, lists.target, current, Select(Upto(i + 1), mark))
    {
      hide Queues, SleepList, RowOk, AtHome, Without, Distinct, Sorted, Select, ArriveAll;
      hit := tgid[i] == pid && !state[i].Dead?;
      if hit { Signal(i); }
      ResumeIf(i, hit && Waiting(state[i]), mark, st, rd);
    }

    method Signal(t: int)
      requires Valid() && 0 <= t < tasks
      modifies this`signalled
      ensures Valid() && signalled == old(signalled)[t := true]
    {
      hide Queues, SleepList, AtHome, RowOk;
      signalled := signalled[t := true];
      forall u | 0 <= u < tasks ensures RowOk(RowOf(u)) {
        assert RowOk(old(RowOf(u)));
        assert RowOf(u) == old(RowOf(u));
      }
    }

    /** task_reap_zombie_locked: the slot of a dead task that no CPU runs is free again. */
    method Reap(t: int)
      requires Valid() && 0 <= t < tasks && state[t].Dead? && t !in current
      modifies this`state, this`used, this`id
      ensures Valid()
      ensures state == old(state)[t := Ready] && used == old(used)[t := false] && id == old(id)[t := 0]
    {
      hide Queues, SleepList, AtHome;
      assert RowOk(RowOf(t)) && !RowOf(t).current;
      id := id[t := 0];
      state := state[t := Ready];
      used := used[t := false];
      forall u | 0 <= u < tasks ensures RowOk(RowOf(u)) {
        assert RowOk(old(RowOf(u)));
        assert u != t ==> RowOf(u) == old(RowOf(u));
      }
    }

    /** A reaped task's slot still carries its group, so a kill of that group finds it: the answer is 0
        and the free slot is signalled, even when no thread of the group is left. */
    method KillReaped(c: int, t: int) returns (r: int)
      requires Valid() && 0 <= c < cpus && 1 <= t < taskCount && state[t].Dead? && t !in current && tgid[t] != 0
      modifies this`state, this`used, this`id, this`signalled, lists, sleepers
      ensures Valid() && r == 0 && !used[t] && signalled[t]
      ensures forall u :: 0 <= u < tasks && u != t && tgid[u] == tgid[t] && old(state)[u].Dead? ==>
                state[u].Dead? && signalled[u] == old(signalled)[u]
    {
      hide Queues, SleepList, RowOk, AtHome, Select, ArriveAll;
      assert tasks == |state|;
      Reap(t);
      ghost var st := state;
      var self;
      r, self := Kill(c, tgid[t]);
      assert Hit(tgid[t], t, st[t]);
    }

    /** find_free_slot: the lowest free slot, else the lowest dead child of task 0, else none. The
        slot is then under construction. */
    method FindFreeSlot() returns (slot: int)
      requires Valid()
      modifies this`state, this`used, this`id, this`building
      ensures Valid() && NULL <= slot < tasks
      ensures slot == NULL ==>
                && state == old(state) && used == old(used) && id == old(id) && building == old(building)
                && (forall t :: 0 <= t < tasks ==> used[t] && !Reapable(t, state, parent, id, current))
      ensures slot >= 0 ==>
                && slot !in old(building) && building == old(building) + {slot}
                && used == old(used)[slot := true] && state == old(state)[slot := Ready]
                && (old(state[slot]).Dead? || old(state[slot]).Ready?)
                && (if old(used[slot]) then
                      && id == old(id)[slot := 0] && Reapable(slot, old(state), parent, old(id), current)
                      && (forall t :: 0 <= t < tasks ==> old(used[t]))
                      && (forall t :: 0 <= t < slot ==> !Reapable(t, old(state), parent, old(id), current))
                    else id == old(id) && forall t :: 0 <= t < slot ==> old(used[t]))
    {
      hide Queues, SleepList, AtHome;
      slot := LowestFree();
      if slot != NULL {
        Take(slot);
        assert state == old(state)[slot := Ready];
        return;
      }
      slot := LowestReapable();
      if slot != NULL {
        assert RowOk(RowOf(slot));
        Reap(slot);
        Take(slot);
        assert used == old(used)[slot := true];
      }
    }

    /** The lowest clear bit of the slot bitmap. */
    method LowestFree() returns (slot: int)
      requires Valid()
      ensures NULL <= slot < tasks
      ensures if slot == NULL then forall t :: 0 <= t < tasks ==> used[t]
              else !used[slot] && forall t :: 0 <= t < slot ==> used[t]
    {
      slot := 0;
      while slot < tasks && used[slot]
        invariant 0 <= slot <= tasks && forall t :: 0 <= t < slot ==> used[t]
      {
        slot := slot + 1;
      }
      if slot == tasks { slot := NULL; }
    }

    method LowestReapable() returns (slot: int)
      requires Valid()
      ensures NULL <= slot < tasks
      ensures if slot == NULL then forall t :: 0 <= t < tasks ==> !Reapable(t, state, parent, id, current)
              else Reapable(slot, state, parent, id, current) && forall t :: 0 <= t < slot ==> !Reapable(t, state, parent, id, current)
    {
      for i := 1 to tasks
        invariant forall t :: 0 <= t < i ==> !Reapable(t, state, parent, id, current)
      {
        if state[i].Dead? && parent[i] == id[0] {
          var active := IsActive(i);
          if !active { return i; }
        }
      }
      slot := NULL;
    }

    /** A free slot's bit is set; from here the slot is under construction. */
    method Take(t: int)
      requires Valid() && 0 <= t < tasks && !used[t]
      modifies this`used, this`building
      ensures Valid() && used == old(used)[t := true]
      ensures t !in old(building) && building == old(building) + {t} && state[t].Ready?
    {
      hide Queues, SleepList, AtHome;
      assert RowOk(RowOf(t));
      used := used[t := true];
      building := building + {t};
      forall u | 0 <= u < tasks ensures RowOk(RowOf(u)) {
        assert RowOk(old(RowOf(u)));
        assert u != t ==> RowOf(u) == old(RowOf(u));
      }
    }

    /** No stack for the slot: its bit is cleared again. */
    method GiveUp(t: int)
      requires Valid() && t in building && 0 <= t < tasks
      modifies this`used, this`building
      ensures Valid() && used == old(used)[t := false] && building == old(building) - {t}
    {
      hide Queues, SleepList, AtHome;
      assert RowOk(RowOf(t));
      used := used[t := false];
      building := building - {t};
      forall u | 0 <= u < tasks ensures RowOk(RowOf(u)) {
        assert RowOk(old(RowOf(u)));
        assert u != t ==> RowOf(u) == old(RowOf(u));
      }
    }

    /** The end of task_create, task_fork and task_clone: the slot is filled in and queued. */
    method Finish(t: int)
      requires Valid() && t in building && 0 <= t < tasks
      modifies this`state, this`signalled, this`taskCount, this`building, lists
      ensures Valid() && building == old(building) - {t}
      ensures state == old(state) && signalled == old(signalled)[t := false]
      ensures taskCount == if t >= old(taskCount) then t + 1 else old(taskCount)
      ensures lists.ready == old(lists.ready)[lists.target[t] := old(lists.ready)[lists.target[t]] + [t]]
    {
      hide Queues, SleepList, AtHome;
      assert RowOk(RowOf(t));
      signalled := signalled[t := false];
      if t >= taskCount { taskCount := t + 1; }
      state := state[t := Ready];
      lists.Enqueue(t);
      building := building - {t};
      forall u | 0 <= u < tasks ensures RowOk(RowOf(u)) {
        assert RowOk(old(RowOf(u)));
        assert u != t ==> RowOf(u) == old(RowOf(u));
      }
    }

    /** The first locked part of task_fork and task_clone, and the start of task_create: a slot, a
        stack and the identity of the new task. stack says whether the stack could be allocated. */
    method Begin(stack: bool, parentId: nat, group: nat, thread: bool) returns (slot: int)
      requires Valid()
      modifies this`state, this`used, this`id, this`building, this`parent, this`tgid, this`nextId
      ensures Valid() && NULL <= slot < tasks
      ensures slot == NULL <==> old(taskCount) >= tasks || !stack || old(NoSlot(used, state, parent, id, current))
      ensures slot == NULL ==>
                && building == old(building) && nextId == old(nextId) && parent == old(parent) && tgid == old(tgid)
                && Untaken(old(used), old(state), old(parent), old(id), current, stack || old(taskCount) >= tasks, used, state, id)
      ensures forall t :: 0 <= t < tasks ==> state[t] == old(state[t]) || (old(state[t]).Dead? && state[t].Ready?)
      ensures slot >= 0 ==>
                && slot !in old(building) && building == old(building) + {slot}
                && used == old(used)[slot := true] && state == old(state)[slot := Ready]
                && id == old(id)[slot := old(nextId)] && nextId == old(nextId) + 1
                && parent == old(parent)[slot := parentId] && tgid == old(tgid)[slot := if thread then group else old(nextId)]
    {
      hide Queues, SleepList, AtHome, NoSlot, Reapable;
      slot := NULL;
      if taskCount >= tasks { return; }
      ghost var id0 := id;
      NoSlotIs(used, state, parent, id, current);
      var t := FindFreeSlot();
      if t == NULL { return; }
      if !stack {
        GiveUp(t);
        assert used == (if old(used[t]) then old(used)[t := false] else old(used));
        assert !old(used[t]) ==> state == old(state) by { assert old(RowOk(RowOf(t))); }
        return;
      }
      Identify(t, parentId, group, thread);
      assert id == id0[t := old(nextId)];
      slot := t;
    }

    method Identify(t: int, parentId: nat, group: nat, thread: bool)
      requires Valid() && 0 <= t < tasks
      modifies this`id, this`parent, this`tgid, this`nextId
      ensures Valid() && nextId == old(nextId) + 1 && id == old(id)[t := old(nextId)]
      ensures parent == old(parent)[t := parentId]
      ensures tgid == old(tgid)[t := if thread then group else old(nextId)]
    {
      hide Queues, SleepList, AtHome, RowOk;
      id := id[t := nextId];
      nextId := nextId + 1;
      parent := parent[t := parentId];
      tgid := tgid[t := if thread then group else id[t]];
      forall u | 0 <= u < tasks ensures RowOk(RowOf(u)) {
        assert RowOk(old(RowOf(u)));
        assert RowOf(u) == old(RowOf(u));
      }
    }

    /** task_create: the new task is at the end of its CPU's ready list. */
    method Create(stack: bool) returns (slot: int)
      requires Valid()
      modifies this`state, this`used, this`signalled, this`id, this`parent, this`tgid, this`taskCount, this`nextId, this`building, lists
      ensures Valid() && NULL <= slot < tasks && building == old(building)
      ensures forall t :: 0 <= t < tasks ==> state[t] == old(state[t]) || (old(state[t]).Dead? && state[t].Ready?)
      ensures slot == NULL <==> old(taskCount) >= tasks || !stack || old(NoSlot(used, state, parent, id, current))
      ensures slot == NULL ==> lists.ready == old(lists.ready) && taskCount == old(taskCount) && nextId == old(nextId)
                               && parent == old(parent) && tgid == old(tgid) && signalled == old(signalled)
                               && Untaken(old(used), old(state), old(parent), old(id), current, stack || old(taskCount) >= tasks, used, state, id)
      ensures slot >= 0 ==>
                && used == old(used)[slot := true] && state == old(state)[slot := Ready] && signalled == old(signalled)[slot := false]
                && id == old(id)[slot := old(nextId)] && nextId == old(nextId) + 1
                && parent == old(parent)[slot := 0] && tgid == old(tgid)[slot := old(nextId)]
                && taskCount == (if slot >= old(taskCount) then slot + 1 else old(taskCount))
                && lists.ready == old(lists.ready)[lists.target[slot] := old(lists.ready)[lists.target[slot]] + [slot]]
    {
      hide Queues, SleepList, AtHome, RowOk, NoSlot, Untaken;
      slot := Begin(stack, 0, 0, false);
      if slot != NULL { Finish(slot); }
    }

    /** No task is current on two CPUs. */
    lemma RunsOnce(c: int, d: int)
      requires Valid() && 0 <= c < cpus && 0 <= d < cpus && current[c] == current[d]
      ensures c == d
    {
      HomeOf(c);
      HomeOf(d);
    }

    /** A queued task is queued once, on its target CPU, ready, and current nowhere. */
    lemma QueuedOnce(t: int, c: int, d: int)
      requires Valid() && 0 <= c < cpus && 0 <= d < cpus && t in lists.ready[c]
      ensures current[d] != t && (t in lists.ready[d] ==> c == d)
      ensures 0 <= t < tasks && lists.target[t] == c && state[t].Ready? && used[t]
    {
      hide Queues, AtHome;
      HomeOf(d);
      MemberTarget(t, c);
      if t in lists.ready[d] { MemberTarget(t, d); }
      assert RowOk(RowOf(t));
    }

    lemma MemberTarget(t: int, c: int)
      requires Valid() && 0 <= c < cpus && t in lists.ready[c]
      ensures 0 <= t < tasks && lists.target[t] == c
    {
      hide Linked, AtHome;
      var q := lists.ready[c];
      assert QueueOk(c, q, lists.next, lists.prev, lists.target, lists.head[c], lists.tail[c], lists.count[c]);
      LinkedRange(q, lists.next, lists.prev);
      assert lists.target[q[Place(q, t)]] == c;
    }

    /** Each ready list is a well-formed doubly linked list as long as the CPU's count. */
    lemma ListsFormed(c: int)
      requires Valid() && 0 <= c < cpus
      ensures Linked(lists.ready[c], lists.next, lists.prev)
      ensures |lists.count| == |lists.head| == |lists.tail| == cpus && lists.count[c] == |lists.ready[c]|
      ensures lists.head[c] == First(lists.ready[c]) && lists.tail[c] == Last(lists.ready[c])
    {
      hide Linked, AtHome;
      assert QueueOk(c, lists.ready[c], lists.next, lists.prev, lists.target, lists.head[c], lists.tail[c], lists.count[c]);
    }

    /** No runnable task is lost: it is queued or some CPU runs it. */
    lemma NothingLost(t: int)
      requires Valid() && 0 <= t < tasks && used[t] && t !in building && Runnable(state[t])
      ensures exists c :: 0 <= c < cpus && (t in lists.ready[c] || current[c] == t)
    {
      hide Queues, AtHome;
      assert RowOk(RowOf(t));
      var c := lists.target[t];
      assert t in lists.ready[c] || current[c] == t;
    }

    /** No sleeper is lost: a sleeping task is in the sorted sleep queue unless a CPU falls back to
        it, and only blocked or sleeping tasks are there. */
    lemma SleepersKept(t: int)
      requires Valid() && 0 <= t < tasks
      ensures Linked(sleepers.sleep, sleepers.next, sleepers.prev) && InRange(sleepers.sleep, tasks)
              && Sorted(sleepers.sleep, sleepers.wake)
      ensures t in sleepers.sleep ==> state[t].Blocked? || state[t].Sleeping?
      ensures state[t].Sleeping? && t != Fallback(idle[lists.target[t]]) ==> t in sleepers.sleep
    {
      hide Queues, AtHome, Linked;
      SleepDistinct();
      assert RowOk(RowOf(t));
      assert 0 <= lists.target[t] < cpus;
    }

    lemma SleepDistinct()
      requires sleepers.Valid()
      ensures Distinct(sleepers.sleep) && InRange(sleepers.sleep, |sleepers.wake|)
      ensures Sorted(sleepers.sleep, sleepers.wake) && sleepers.head == First(sleepers.sleep)
    {
      LinkedRange(sleepers.sleep, sleepers.next, sleepers.prev);
    }
  }
}
