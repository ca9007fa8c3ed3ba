/** Runs of futex calls and scheduler steps in any order on any CPUs. */
module FutexRuns {
  import opened FutexLists
  import opened SchedulerQueues
  import opened SmpScheduler
  import opened SchedulerRuns
  import opened Futex

  datatype Act =
    | Other(step: Step)
    | Wait(cpu: nat, uaddr: bv64, val: bv32, early: bv32, shared: bool, bitset: BitSet, deadline: Deadline, node: int)
    | Return(cpu: nat, now: nat)
    | Wake(cpu: nat, uaddr: bv64, count: int, shared: bool, bitset: BitSet)
    | Store(spot: int, v: bv32)

  /** A scheduler step of anyone but a waiter; a task inside futex_wait takes none of its own. */
  method Scheduled(f: FutexTable, step: Step, open: set<int>) returns (open': set<int>)
    requires f.Valid() && f.sched.building == open
    modifies f.sched, f.sched.lists, f.sched.sleepers
    ensures f.Valid() && f.sched.building == open'
  {
    hide Bucket, Owned, NoneStuck, Queues, SleepList, AtHome, RowOk, Listed, FrameOk;
    open' := open;
    if ByTask(step) {
      if step.cpu >= f.sched.cpus { return; }
      f.sched.HomeOf(step.cpu);
      if f.sched.current[step.cpu] in f.frames { return; }
    }
    ghost var before, running := f.sched.state, f.sched.current;
    open' := Perform(f.sched, step, open);
    StepNoneStuck(f.frames, f.woken, before, f.sched.state, running, step);
  }

  lemma StepNoneStuck(frames: map<int, Frame>, woken: set<int>, before: seq<State>, after: seq<State>,
                      running: seq<int>, step: Step)
    requires NoneStuck(frames, woken, before) && BlocksOnly(before, after, running, step)
    requires ByTask(step) && step.cpu < |running| ==> running[step.cpu] !in frames
    ensures NoneStuck(frames, woken, after)
  {}

  /** After a store the word holds its value, and no waiter the signal has to reach is still linked
      on another one. */
  ghost predicate Done(f: FutexTable, g: Signal)
    reads f
  {
    WordAt(f.words, g.spot) == g.v && Settled(g, f.frames, f.info, f.cr3, f.woken, f.place)
  }

  predicate Overwrites(a: Act, g: Signal) { a.Store? && a.spot == g.spot && a.v != g.v }

  /** One act; one that the task on that CPU could not take at that point is skipped. What a signal
      has settled stays so unless the act stores another value at its word. */
  method PerformAct(f: FutexTable, a: Act, open: set<int>, ghost g: Signal) returns (open': set<int>)
    requires f.Valid() && f.sched.building == open
    modifies f, f.sched, f.sched.lists, f.sched.sleepers
    ensures f.Valid() && f.sched.building == open'
    ensures old(Done(f, g)) && !Overwrites(a, g) ==> Done(f, g)
    ensures !a.Store? ==> f.words == old(f.words)
    ensures a.Store? ==> f.words == old(f.words)[a.spot := a.v]
  {
    hide Bucket, Owned, NoneStuck, Queues, SleepList, AtHome, RowOk, Listed, FrameOk, Taken, Left, Set, Unstuck, Settled;
    open' := open;
    if a.Other? {
      open' := Scheduled(f, a.step, open);
    } else if a.Store? {
      f.Store(a.spot, a.v);
    } else if a.cpu < f.sched.cpus {
      f.sched.HomeOf(a.cpu);
      var t := f.sched.current[a.cpu];
      var busy := f.sched.sleepers.Listed(t);
      if a.Wait? && !busy && t !in f.frames && a.node !in f.info {
        WaitAct(f, a, g);
      } else if a.Return? && t in f.frames {
        ReturnAct(f, a, g);
      } else if a.Wake? && t !in f.frames {
        WakeAct(f, a, g);
      }
    }
  }

  method WaitAct(f: FutexTable, a: Act, ghost g: Signal)
    requires f.Valid() && a.Wait? && a.cpu < f.sched.cpus && f.sched.current[a.cpu] !in f.sched.sleepers.sleep
    requires f.sched.current[a.cpu] !in f.frames && a.node !in f.info
    modifies f, f.sched`state, f.sched.sleepers
    ensures f.Valid() && f.words == old(f.words) && (old(Done(f, g)) ==> Done(f, g))
  {
    hide Bucket, NoneStuck, Queues, SleepList, AtHome, RowOk, Listed, Settled;
    ghost var frames, info := f.frames, f.info;
    assert forall u :: u in frames ==> frames[u].node in info by { NodesHeld(f); }
    hide Owned, FrameOk;
    var r := f.WaitBegin(a.cpu, a.uaddr, a.val, a.early, a.shared, a.bitset, a.deadline, a.node);
    if r == Queued && old(Done(f, g)) {
      var t := f.sched.current[a.cpu];
      SettledQueue(g, frames, info, f.cr3, f.woken, f.place, t, f.frames[t], f.info[a.node], f.words);
    }
  }

  lemma NodesHeld(f: FutexTable)
    requires f.Valid()
    ensures forall u :: u in f.frames ==> f.frames[u].node in f.info
  {
    hide Bucket, NoneStuck, Queues, SleepList, AtHome, RowOk, Listed;
  }

  method ReturnAct(f: FutexTable, a: Act, ghost g: Signal)
    requires f.Valid() && a.Return? && a.cpu < f.sched.cpus && f.sched.current[a.cpu] in f.frames
    modifies f
    ensures f.Valid() && f.words == old(f.words) && (old(Done(f, g)) ==> Done(f, g))
  {
    hide Bucket, Owned, NoneStuck, Queues, SleepList, AtHome, RowOk, Listed, FrameOk, Settled;
    ghost var frames, info, woken := f.frames, f.info, f.woken;
    var _ := f.WaitEnd(a.cpu, a.now);
    if old(Done(f, g)) {
      SettledLeave(g, frames, info, f.cr3, woken, f.place, f.sched.current[a.cpu]);
    }
  }

  method WakeAct(f: FutexTable, a: Act, ghost g: Signal)
    requires f.Valid() && a.Wake? && a.cpu < f.sched.cpus && 0 <= f.sched.current[a.cpu] < f.sched.tasks
    modifies f`heads, f`next, f`lists, f`woken, f.sched`state, f.sched.lists, f.sched.sleepers
    ensures f.Valid() && (old(Done(f, g)) ==> Done(f, g))
  {
    hide Bucket, Owned, NoneStuck, Queues, SleepList, AtHome, RowOk, Listed, FrameOk, Taken, Left, Set, Unstuck, Settled;
    ghost var woken := f.woken;
    var _ := f.Wake(a.cpu, a.uaddr, a.count, a.shared, a.bitset);
    if old(Done(f, g)) {
      SettledWoken(g, f.frames, f.info, f.cr3, woken, f.woken, f.place);
    }
  }

  /** After any run: every waiter's node is allocated to it alone; it is linked, in the waiter's own
      bucket, exactly while no wake has taken it; a taken node's waiter is not blocked; and no
      freed node is linked anywhere. What a signal has settled stays so while no act stores another
      value at its word. */
  method Run(f: FutexTable, acts: seq<Act>, open: set<int>, ghost g: Signal) returns (open': set<int>)
    requires f.Valid() && f.sched.building == open
    modifies f, f.sched, f.sched.lists, f.sched.sleepers
    ensures f.Valid() && f.sched.building == open'
    ensures forall t :: t in f.frames ==> WaiterOk(f, t)
    ensures forall t, u :: t in f.frames && u in f.frames && f.frames[t].node == f.frames[u].node ==> t == u
    ensures |f.lists| == BUCKETS && forall b, n :: 0 <= b < BUCKETS && n in f.lists[b] ==> n in f.info
    ensures f.words == Stored(old(f.words), acts)
    ensures old(Done(f, g)) && (forall a :: a in acts ==> !Overwrites(a, g)) ==> Done(f, g)
  {
    hide Bucket, Owned, NoneStuck, Queues, SleepList, AtHome, RowOk, Listed, FrameOk, Done;
    open' := open;
    for i := 0 to |acts|
      invariant f.Valid() && f.sched.building == open'
      invariant f.words == Stored(old(f.words), acts[..i])
      invariant old(Done(f, g)) && (forall a :: a in acts[..i] ==> !Overwrites(a, g)) ==> Done(f, g)
    {
      assert acts[..i + 1][..i] == acts[..i] && acts[i] in acts[..i + 1];
      open' := PerformAct(f, acts[i], open', g);
    }
    assert acts[..|acts|] == acts;
    Meaning(f);
  }

  /** The words after the stores among the acts. */
  function Stored(words: map<int, bv32>, acts: seq<Act>): map<int, bv32> {
    if acts == [] then words
    else
      var w, a := Stored(words, acts[..|acts| - 1]), acts[|acts| - 1];
      if a.Store? then w[a.spot := a.v] else w
  }

  /** No wake-up is lost: once the word holds v and a wake has taken fewer nodes than it might, no
      waiter of that key on another value of the word is blocked, however the run goes on, while no
      other value is stored there. */
  method WakeThenRun(f: FutexTable, c: nat, uaddr: bv64, count: int, shared: bool, bitset: BitSet, spot: int,
                     acts: seq<Act>, open: set<int>)
    returns (r: int, open': set<int>)
    requires f.Valid() && f.sched.building == open && c < f.sched.cpus
    modifies f, f.sched, f.sched.lists, f.sched.sleepers
    ensures f.Valid() && f.sched.building == open' && 0 <= old(f.sched.current[c]) < |f.cr3|
    ensures var g := Signal(uaddr, shared, f.cr3[old(f.sched.current[c])], bitset, spot, WordAt(old(f.words), spot));
            ValidAddress(uaddr) && r < count && (forall a :: a in acts ==> !Overwrites(a, g)) ==>
              forall t :: t in f.frames ==> Seen(f, g, t)
  {
    hide Bucket, Owned, NoneStuck, Queues, SleepList, AtHome, RowOk, Listed, FrameOk, Taken, Left, Set, Unstuck, Settled;
    f.sched.HomeOf(c);
    ghost var g := Signal(uaddr, shared, f.cr3[f.sched.current[c]], bitset, spot, WordAt(f.words, spot));
    r := f.Wake(c, uaddr, count, shared, bitset);
    if ValidAddress(uaddr) && r < count { AllTaken(f, g); }
    open' := Run(f, acts, open, g);
    if Done(f, g) { AllSeen(f, g); }
  }

  lemma AllTaken(f: FutexTable, g: Signal)
    requires forall t :: t in f.frames && f.Keyed(t, g.uaddr, g.shared, g.mine, g.bitset) ==> f.frames[t].node in f.woken
    ensures Settled(g, f.frames, f.info, f.cr3, f.woken, f.place)
  {}

  /** A waiter that is not behind the signal, or is awake. */
  ghost predicate Seen(f: FutexTable, g: Signal, t: int)
    reads f, f.sched
  {
    && t in f.frames && 0 <= t < |f.cr3| == |f.sched.state| && f.frames[t].node in f.info
    && (Behind(g, f.frames[t], f.info[f.frames[t].node], f.cr3[t], f.place) ==>
          f.frames[t].node in f.woken && !f.sched.state[t].Blocked?)
  }

  lemma AllSeen(f: FutexTable, g: Signal)
    requires f.Valid() && Done(f, g)
    ensures forall t :: t in f.frames ==> Seen(f, g, t)
  {
    hide Bucket, Queues, SleepList, AtHome, RowOk, Listed;
    forall t | t in f.frames ensures Seen(f, g, t) {
      assert FrameOk(t, f.frames[t], f.lists, f.info, f.cr3, f.woken);
    }
  }

  ghost predicate WaiterOk(f: FutexTable, t: int)
    reads f, f.sched
  {
    && t in f.frames && |f.lists| == BUCKETS
    && var n := f.frames[t].node;
    && 0 <= t < |f.sched.state| && n in f.info && f.info[n].task == t
    && 0 <= f.frames[t].bucket < BUCKETS
    && (n in f.lists[f.frames[t].bucket] <==> n !in f.woken)
    && (n in f.woken ==> !f.sched.state[t].Blocked?)
  }

  lemma Meaning(f: FutexTable)
    requires f.Valid()
    ensures forall t :: t in f.frames ==> WaiterOk(f, t)
    ensures forall t, u :: t in f.frames && u in f.frames && f.frames[t].node == f.frames[u].node ==> t == u
    ensures |f.lists| == BUCKETS && forall b, n :: 0 <= b < BUCKETS && n in f.lists[b] ==> n in f.info
  {
    hide Bucket, Queues, SleepList, AtHome, RowOk, Listed;
    forall t | t in f.frames ensures WaiterOk(f, t) && f.info[f.frames[t].node].task == t {
      assert FrameOk(t, f.frames[t], f.lists, f.info, f.cr3, f.woken);
    }
  }
}
