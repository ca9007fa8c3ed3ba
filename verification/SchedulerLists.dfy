/** The scheduler's queues as it changes them: links in the task table, heads, tails and counts
    per CPU. A ghost sequence says what each list holds. */
module SchedulerLists {
  import opened LinkedQueue
  import opened SchedulerQueues

  function Joined(q: seq<int>, t: int): seq<int> { if t in q then q else q + [t] }

  class ReadyLists {
    /** Each task's CPU. */
    const target: seq<int>
    var next: seq<int>
    var prev: seq<int>
    var head: seq<int>
    var tail: seq<int>
    var count: seq<int>
    ghost var ready: seq<seq<int>>

    ghost predicate Valid()
      reads this
    {
      Queues(ready, next, prev, target, head, tail, count)
    }

    /** Every list empty. */
    constructor (target: seq<int>, cpus: nat)
      requires InRange(target, cpus)
      ensures Valid() && this.target == target && |ready| == cpus
      ensures forall c :: 0 <= c < cpus ==> ready[c] == []
    {
      this.target := target;
      next := seq(|target|, i => NULL);
      prev := seq(|target|, i => NULL);
      head := seq(cpus, i => NULL);
      tail := seq(cpus, i => NULL);
      count := seq(cpus, i => 0);
      ready := seq(cpus, i => []);
    }

    /** enqueue_ready: a task already listed is left where it is. */
    method Enqueue(t: int)
      requires Valid() && 0 <= t < |target|
      modifies this
      ensures Valid() && |ready| == old(|ready|)
      ensures 0 <= target[t] < |ready|
      ensures ready == old(ready)[target[t] := Joined(old(ready)[target[t]], t)]
    {
      hide Queues, InRange, Distinct;
      TaskLinks(ready, next, prev, target, head, tail, count, t);
      var c := target[t];
      ghost var q := ready[c];
      if next[t] != NULL || prev[t] != NULL { return; }
      if head[c] == t { return; }
      EnqueueKeeps(ready, next, prev, target, head, tail, count, t);
      ghost var n', p' := NextWith(q, |q|, t, next), PrevWith(q, |q|, t, prev);
      ghost var h' := head[c := First(q + [t])];
      next := next[t := NULL];
      prev := prev[t := tail[c]];
      if tail[c] != NULL {
        assert Last(q) == tail[c] && 0 <= tail[c] < |next| by { LastInRange(q, |next|); }
        next := next[tail[c] := t];
      } else {
        assert q == [] by { LastInRange(q, |next|); }
        head := head[c := t];
      }
      tail := tail[c := t];
      count := count[c := count[c] + 1];
      ready := ready[c := q + [t]];
      assert next == n' && prev == p' && head == h';
    }

    /** dequeue_ready: a task that is not listed is left alone. */
    method Dequeue(t: int)
      requires Valid() && 0 <= t < |target|
      modifies this
      ensures Valid() && |ready| == old(|ready|)
      ensures 0 <= target[t] < |ready|
      ensures ready == old(ready)[target[t] := Without(old(ready)[target[t]], t)]
    {
      hide Queues, InRange, Distinct;
      TaskLinks(ready, next, prev, target, head, tail, count, t);
      var c := target[t];
      ghost var q := ready[c];
      if prev[t] == NULL && head[c] != t { return; }
      DequeueKeeps(ready, next, prev, target, head, tail, count, t);
      ghost var i, r := Place(q, t), Without(q, t);
      EndsWithout(q, i, |next|);
      ghost var n', p' := NextWithout(q, i, next), PrevWithout(q, i, prev);
      ghost var h', l' := head[c := First(r)], tail[c := Last(r)];
      if prev[t] != NULL {
        next := next[prev[t] := next[t]];
      } else {
        head := head[c := next[t]];
      }
      if next[t] != NULL {
        prev := prev[next[t] := prev[t]];
      } else if tail[c] == t {
        tail := tail[c := prev[t]];
      }
      next := next[t := NULL];
      prev := prev[t := NULL];
      count := count[c := count[c] - 1];
      ready := ready[c := r];
      assert next == n';
      assert prev == p';
      assert head == h' && tail == l';
    }
  }

  class SleepQueue {
    var next: seq<int>
    var prev: seq<int>
    var wake: seq<nat>
    var head: int
    ghost var sleep: seq<int>

    ghost predicate Valid()
      reads this
    {
      SleepList(sleep, next, prev, wake, head)
    }

    constructor (tasks: nat)
      ensures Valid() && sleep == [] && |wake| == tasks
    {
      next := seq(tasks, i => NULL);
      prev := seq(tasks, i => NULL);
      wake := seq(tasks, i => 0);
      head := NULL;
      sleep := [];
    }

    /** The test by which dequeue_sleep tells whether a task is listed. */
    method Listed(t: int) returns (b: bool)
      requires Valid() && 0 <= t < |wake|
      ensures b <==> t in sleep
    {
      hide Linked, Sorted;
      SleeperLinks(sleep, next, prev, wake, head, t);
      b := prev[t] != NULL || next[t] != NULL || head == t;
    }

    /** A new wake tick for a task that is not listed. */
    method SetWake(t: int, tick: nat)
      requires Valid() && 0 <= t < |wake| && t !in sleep
      modifies this`wake
      ensures Valid() && wake == old(wake)[t := tick]
    {
      hide Linked, Sorted;
      SleepFrame(sleep, next, prev, wake, wake[t := tick], head);
      wake := wake[t := tick];
    }

    /** What schedule does to the timeout of the task it runs: unlisted, and the tick cleared. */
    method Drop(t: int)
      requires Valid() && 0 <= t < |wake|
      modifies this
      ensures Valid() && |wake| == old(|wake|) && t !in sleep
      ensures forall u :: u != t ==> (u in sleep <==> u in old(sleep))
      ensures sleep == Without(old(sleep), t) && wake == old(wake)[t := 0]
    {
      hide Linked, Sorted, InRange, Distinct, Without, SleepList;
      SleeperLinks(sleep, next, prev, wake, head, t);
      forall u ensures u in Without(sleep, t) <==> u in sleep && u != t { WithoutMembers(sleep, t, u); }
      Dequeue(t);
      SetWake(t, 0);
    }

    /** enqueue_sleep: before the first sleeper that wakes no earlier. */
    method Enqueue(t: int)
      requires Valid() && 0 <= t < |wake| && t !in sleep
      modifies this`next, this`prev, this`head, this`sleep
      ensures Valid() && |wake| == old(|wake|)
      ensures exists i: nat :: InRange(old(sleep), |wake|) && SleepPlace(old(sleep), wake, t, i)
                            && i <= |old(sleep)| && sleep == Insert(old(sleep), i, t)
    {
      hide Linked, Sorted, InRange, SleepPlace, Distinct;
      SleeperLinks(sleep, next, prev, wake, head, t);
      var before := FindPlace(t);
      ghost var i: nat :| i <= |sleep| && SleepPlace(sleep, wake, t, i) && before == if i == 0 then NULL else sleep[i - 1];
      InsertSleep(sleep, next, prev, wake, head, t, i);
      PlaceLinks(sleep, next, prev, wake, head, i, t);
      ghost var n', p' := NextWith(sleep, i, t, next), PrevWith(sleep, i, t, prev);
      if before == NULL {
        next := next[t := head];
        prev := prev[t := NULL];
        if head != NULL { prev := prev[head := t]; }
        head := t;
      } else {
        var after := next[before];
        next := next[t := after];
        if after != NULL { prev := prev[after := t]; }
        prev := prev[t := before];
        next := next[before := t];
      }
      sleep := Insert(sleep, i, t);
      assert next == n';
      assert prev == p';
    }

    /** The walk of enqueue_sleep: the last sleeper that wakes before t, or none. */
    method FindPlace(t: int) returns (before: int)
      requires Valid() && 0 <= t < |wake|
      ensures InRange(sleep, |wake|)
      ensures exists i: nat :: i <= |sleep| && SleepPlace(sleep, wake, t, i) && before == if i == 0 then NULL else sleep[i - 1]
    {
      hide Linked;
      LinkedRange(sleep, next, prev);
      before := NULL;
      if head == NULL || wake[head] >= wake[t] {
        assert SleepPlace(sleep, wake, t, 0);
        return;
      }
      ghost var i := 1;
      before := head;
      SleeperLinks(sleep, next, prev, wake, head, sleep[0]);
      assert next[before] == After(sleep, i - 1) by { NextOf(sleep, next, prev, 0); }
      while next[before] != NULL && wake[next[before]] < wake[t]
        invariant 1 <= i <= |sleep| && before == sleep[i - 1] && next[before] == After(sleep, i - 1)
        invariant forall j :: 0 <= j < i ==> wake[sleep[j]] < wake[t]
        decreases |sleep| - i
      {
        before := next[before];
        i := i + 1;
        assert next[before] == After(sleep, i - 1) by { NextOf(sleep, next, prev, i - 1); }
      }
      assert SleepPlace(sleep, wake, t, i);
    }

    /** dequeue_sleep: a task that is not listed is left alone. */
    method Dequeue(t: int)
      requires Valid() && 0 <= t < |wake|
      modifies this`next, this`prev, this`head, this`sleep
      ensures Valid() && |wake| == old(|wake|) && sleep == Without(old(sleep), t)
    {
      hide Linked, Sorted, InRange, Distinct;
      SleeperLinks(sleep, next, prev, wake, head, t);
      if prev[t] == NULL && next[t] == NULL && head != t { return; }
      RemoveSleep(sleep, next, prev, wake, head, t);
      ghost var i, r := Place(sleep, t), Without(sleep, t);
      EndsWithout(sleep, i, |next|);
      ghost var n', p' := NextWithout(sleep, i, next), PrevWithout(sleep, i, prev);
      if prev[t] != NULL {
        next := next[prev[t] := next[t]];
      } else if head == t {
        head := next[t];
      }
      if next[t] != NULL { prev := prev[next[t] := prev[t]]; }
      next := next[t := NULL];
      prev := prev[t := NULL];
      sleep := r;
      assert next == n';
      assert prev == p';
    }
  }

  lemma NextOf(q: seq<int>, next: seq<int>, prev: seq<int>, i: nat)
    requires Linked(q, next, prev) && i < |q|
    ensures 0 <= q[i] < |next| && next[q[i]] == After(q, i)
  {}

  /** The neighbours of place i in the sleep list. */
  lemma PlaceLinks(sleep: seq<int>, next: seq<int>, prev: seq<int>, wake: seq<nat>, head: int, i: nat, t: int)
    requires SleepList(sleep, next, prev, wake, head) && i <= |sleep| && t !in sleep
    ensures i > 0 ==> 0 <= sleep[i - 1] < |next| && sleep[i - 1] != t
                      && next[sleep[i - 1]] == if i < |sleep| then sleep[i] else NULL
    ensures i < |sleep| ==> 0 <= sleep[i] < |next| && sleep[i] != t && sleep[i] != NULL
    ensures i == 0 ==> head == if i < |sleep| then sleep[i] else NULL
    ensures 0 < i < |sleep| ==> sleep[i - 1] != sleep[i]
    ensures i > 0 ==> First(Insert(sleep, i, t)) == head
  {
    if i > 0 { NextOf(sleep, next, prev, i - 1); }
  }

  /** What the links of any task show about the sleep list. */
  lemma SleeperLinks(sleep: seq<int>, next: seq<int>, prev: seq<int>, wake: seq<nat>, head: int, t: int)
    requires SleepList(sleep, next, prev, wake, head) && 0 <= t < |wake|
    ensures InRange(sleep, |wake|) && Distinct(sleep) && |next| == |prev| == |wake|
    ensures t in sleep ==> next[t] == After(sleep, Place(sleep, t)) && prev[t] == Before(sleep, Place(sleep, t))
    ensures t in sleep ==> (prev[t] == NULL <==> First(sleep) == t)
    ensures t !in sleep ==> next[t] == NULL && prev[t] == NULL && head != t
  {
    hide Sorted;
    LinkedRange(sleep, next, prev);
    if t in sleep { MemberLinks(sleep, next, prev, t); }
  }

  lemma LastInRange(q: seq<int>, n: nat)
    requires InRange(q, n)
    ensures Last(q) == NULL <==> q == []
    ensures q != [] ==> 0 <= Last(q) < n && 0 <= First(q) < n
  {}

  /** The ends of a list after the element at place i leaves, and what its neighbours are. */
  lemma EndsWithout(q: seq<int>, i: nat, n: nat)
    requires InRange(q, n) && Distinct(q) && i < |q|
    ensures First(Remove(q, i)) == if i == 0 then After(q, i) else First(q)
    ensures Last(Remove(q, i)) == if i + 1 == |q| then Before(q, i) else Last(q)
    ensures Before(q, i) == NULL <==> i == 0
    ensures After(q, i) == NULL <==> i + 1 == |q|
    ensures i > 0 ==> 0 <= Before(q, i) < n && Before(q, i) != q[i]
    ensures i + 1 < |q| ==> 0 <= After(q, i) < n && After(q, i) != q[i]
  {}
}
