/** The two queue structures of the scheduler, over values: one ready list per CPU sharing one
    pair of link arrays, and one sleep list ordered by wake tick. */
module SchedulerQueues {
  import opened LinkedQueue

  /** The ready lists of all CPUs. A task can only be listed on its target CPU, and a task that is
      not listed has null links. */
  ghost predicate Queues(ready: seq<seq<int>>, next: seq<int>, prev: seq<int>, target: seq<int>,
                         head: seq<int>, tail: seq<int>, count: seq<int>)
  {
    && |head| == |tail| == |count| == |ready|
    && |next| == |prev| == |target|
    && InRange(target, |ready|)
    && (forall c :: 0 <= c < |ready| ==> QueueOk(c, ready[c], next, prev, target, head[c], tail[c], count[c]))
    && (forall t :: 0 <= t < |target| && t !in ready[target[t]] ==> next[t] == NULL && prev[t] == NULL)
  }

  ghost predicate QueueOk(c: int, q: seq<int>, next: seq<int>, prev: seq<int>, target: seq<int>,
                          head: int, tail: int, count: int)
  {
    && Linked(q, next, prev) && |target| == |next|
    && head == First(q) && tail == Last(q) && count == |q|
    && (forall i {:trigger target[q[i]]} :: 0 <= i < |q| ==> target[q[i]] == c)
  }

  /** A list none of whose members' links changed is still well formed. */
  lemma QueueFrame(c: int, q: seq<int>, next: seq<int>, prev: seq<int>, next': seq<int>, prev': seq<int>,
                   target: seq<int>, head: int, tail: int, count: int)
    requires QueueOk(c, q, next, prev, target, head, tail, count)
    requires |next'| == |next| && |prev'| == |prev|
    requires forall t :: 0 <= t < |next| && target[t] == c ==> next'[t] == next[t] && prev'[t] == prev[t]
    ensures QueueOk(c, q, next', prev', target, head, tail, count)
  {
    forall i | 0 <= i < |q| ensures next'[q[i]] == next[q[i]] && prev'[q[i]] == prev[q[i]] {
      assert target[q[i]] == c;
    }
    LinkedFrame(q, next, prev, next', prev');
  }

  /** What a member's own place says about its links: both are null only for the sole member. */
  lemma MemberLinks(q: seq<int>, next: seq<int>, prev: seq<int>, t: int)
    requires Linked(q, next, prev) && t in q
    ensures 0 <= t < |next|
    ensures next[t] == After(q, Place(q, t)) && prev[t] == Before(q, Place(q, t))
    ensures prev[t] == NULL <==> First(q) == t
    ensures next[t] == NULL <==> Last(q) == t
  {
    var i := Place(q, t);
    assert q[i] == t;
    assert next[q[i]] == After(q, i);
    assert prev[q[i]] == Before(q, i);
  }

  /** What the links of any task show: null links and not the head exactly when it is not listed. */
  lemma TaskLinks(ready: seq<seq<int>>, next: seq<int>, prev: seq<int>, target: seq<int>,
                  head: seq<int>, tail: seq<int>, count: seq<int>, t: int)
    requires Queues(ready, next, prev, target, head, tail, count) && 0 <= t < |target|
    ensures |head| == |tail| == |count| == |ready| && |next| == |prev| == |target| && 0 <= target[t] < |ready|
    ensures var q := ready[target[t]];
            && head[target[t]] == First(q) && tail[target[t]] == Last(q) && InRange(q, |next|) && Distinct(q)
            && (t in q ==> next[t] == After(q, Place(q, t)) && prev[t] == Before(q, Place(q, t)))
            && (t in q ==> (prev[t] == NULL <==> First(q) == t) && (next[t] == NULL <==> Last(q) == t))
            && (t !in q ==> next[t] == NULL && prev[t] == NULL && First(q) != t)
  {
    hide Linked;
    var c := target[t];
    var q := ready[c];
    assert QueueOk(c, q, next, prev, target, head[c], tail[c], count[c]);
    QueueDistinct(c, q, next, prev, target, head[c], tail[c], count[c]);
    if t in q { MemberLinks(q, next, prev, t); }
  }

  /** Appending t to its CPU's list keeps all lists well formed. */
  lemma EnqueueKeeps(ready: seq<seq<int>>, next: seq<int>, prev: seq<int>, target: seq<int>,
                     head: seq<int>, tail: seq<int>, count: seq<int>, t: int)
    requires Queues(ready, next, prev, target, head, tail, count)
    requires 0 <= t < |target| && t !in ready[target[t]]
    ensures var c := target[t]; var q := ready[c];
            Queues(ready[c := q + [t]], NextWith(q, |q|, t, next), PrevWith(q, |q|, t, prev), target,
                   head[c := First(q + [t])], tail[c := t], count[c := count[c] + 1])
  {
    hide Linked;
    var c := target[t];
    var q := ready[c];
    QueueDistinct(c, q, next, prev, target, head[c], tail[c], count[c]);
    var next', prev' := NextWith(q, |q|, t, next), PrevWith(q, |q|, t, prev);
    AppendQueue(c, q, next, prev, target, head[c], tail[c], count[c], t);
    forall d | 0 <= d < |ready| && d != c
      ensures QueueOk(d, ready[d], next', prev', target, head[d], tail[d], count[d])
    {
      QueueFrame(d, ready[d], next, prev, next', prev', target, head[d], tail[d], count[d]);
    }
  }

  lemma AppendQueue(c: int, q: seq<int>, next: seq<int>, prev: seq<int>, target: seq<int>,
                    head: int, tail: int, count: int, t: int)
    requires QueueOk(c, q, next, prev, target, head, tail, count)
    requires 0 <= t < |target| && t !in q && target[t] == c
    ensures InRange(q, |next|)
    ensures QueueOk(c, q + [t], NextWith(q, |q|, t, next), PrevWith(q, |q|, t, prev), target,
                    First(q + [t]), t, count + 1)
  {
    InsertLinked(q, |q|, t, next, prev);
    assert Insert(q, |q|, t) == q + [t];
  }

  /** Unlinking a member keeps all lists well formed. */
  lemma DequeueKeeps(ready: seq<seq<int>>, next: seq<int>, prev: seq<int>, target: seq<int>,
                     head: seq<int>, tail: seq<int>, count: seq<int>, t: int)
    requires Queues(ready, next, prev, target, head, tail, count)
    requires 0 <= t < |target| && t in ready[target[t]]
    ensures var c := target[t]; var q := ready[c]; var r := Remove(q, Place(q, t));
            Queues(ready[c := r], NextWithout(q, Place(q, t), next), PrevWithout(q, Place(q, t), prev), target,
                   head[c := First(r)], tail[c := Last(r)], count[c := count[c] - 1])
  {
    hide Linked, QueueOk, Distinct;
    var c := target[t];
    var q := ready[c];
    var i := Place(q, t);
    var r := Remove(q, i);
    QueueDistinct(c, q, next, prev, target, head[c], tail[c], count[c]);
    var next', prev' := NextWithout(q, i, next), PrevWithout(q, i, prev);
    OnlyListMoves(c, q, i, next, prev, target);
    RemoveQueue(c, q, next, prev, target, head[c], tail[c], count[c], t);
    forall d | 0 <= d < |ready| && d != c
      ensures QueueOk(d, ready[d], next', prev', target, head[d], tail[d], count[d])
    {
      QueueFrame(d, ready[d], next, prev, next', prev', target, head[d], tail[d], count[d]);
    }
    forall u | 0 <= u < |target| && u !in ready[c := r][target[u]]
      ensures next'[u] == NULL && prev'[u] == NULL
    {
      if target[u] == c { RemoveUnlinks(q, t, next, prev, u); }
    }
  }

  /** After unlinking t, a task of that CPU outside the list has null links, t among them. */
  lemma RemoveUnlinks(q: seq<int>, t: int, next: seq<int>, prev: seq<int>, u: int)
    requires |next| == |prev| && InRange(q, |next|) && Distinct(q) && t in q && 0 <= u < |next|
    requires u !in q ==> next[u] == NULL && prev[u] == NULL
    requires u !in Remove(q, Place(q, t))
    ensures NextWithout(q, Place(q, t), next)[u] == NULL && PrevWithout(q, Place(q, t), prev)[u] == NULL
  {
    WithoutMembers(q, t, u);
  }

  lemma QueueDistinct(c: int, q: seq<int>, next: seq<int>, prev: seq<int>, target: seq<int>,
                      head: int, tail: int, count: int)
    requires QueueOk(c, q, next, prev, target, head, tail, count)
    ensures Distinct(q) && InRange(q, |next|) && |next| == |prev| == |target|
    ensures forall j {:trigger target[q[j]]} :: 0 <= j < |q| ==> target[q[j]] == c
  {}

  /** Unlinking writes only the links of members of the list. */
  lemma OnlyListMoves(c: int, q: seq<int>, i: nat, next: seq<int>, prev: seq<int>, target: seq<int>)
    requires |next| == |prev| == |target| && InRange(q, |next|) && i < |q|
    requires forall j {:trigger target[q[j]]} :: 0 <= j < |q| ==> target[q[j]] == c
    ensures forall u :: 0 <= u < |next| && u !in q
              ==> NextWithout(q, i, next)[u] == next[u] && PrevWithout(q, i, prev)[u] == prev[u]
    ensures forall u :: 0 <= u < |next| && target[u] != c
              ==> NextWithout(q, i, next)[u] == next[u] && PrevWithout(q, i, prev)[u] == prev[u]
  {}

  lemma RemoveQueue(c: int, q: seq<int>, next: seq<int>, prev: seq<int>, target: seq<int>,
                    head: int, tail: int, count: int, t: int)
    requires QueueOk(c, q, next, prev, target, head, tail, count)
    requires t in q
    ensures InRange(q, |next|)
    ensures var i := Place(q, t);
            QueueOk(c, Remove(q, i), NextWithout(q, i, next), PrevWithout(q, i, prev), target,
                    First(Remove(q, i)), Last(Remove(q, i)), count - 1)
  {
    var i := Place(q, t);
    RemoveLinked(q, i, next, prev);
    hide Linked;
    var r := Remove(q, i);
    forall j | 0 <= j < |r| ensures target[r[j]] == c {
      assert r[j] == if j < i then q[j] else q[j + 1];
      assert target[q[if j < i then j else j + 1]] == c;
    }
  }

  /** The sleep list: members in order of wake tick, everyone else unlinked. */
  ghost predicate SleepList(sleep: seq<int>, next: seq<int>, prev: seq<int>, wake: seq<nat>, head: int) {
    && Linked(sleep, next, prev) && |wake| == |next| && head == First(sleep)
    && (forall t :: 0 <= t < |next| && t !in sleep ==> next[t] == NULL && prev[t] == NULL)
    && Sorted(sleep, wake)
  }

  ghost predicate Sorted(q: seq<int>, wake: seq<nat>)
    requires InRange(q, |wake|)
  {
    forall i, j :: 0 <= i < j < |q| ==> wake[q[i]] <= wake[q[j]]
  }

  /** t goes before the first sleeper that wakes no earlier. */
  ghost predicate SleepPlace(sleep: seq<int>, wake: seq<nat>, t: int, i: nat)
    requires InRange(sleep, |wake|) && 0 <= t < |wake|
  {
    && i <= |sleep|
    && (forall j :: 0 <= j < i ==> wake[sleep[j]] < wake[t])
    && (i < |sleep| ==> wake[t] <= wake[sleep[i]])
  }

  lemma InsertSleep(sleep: seq<int>, next: seq<int>, prev: seq<int>, wake: seq<nat>, head: int, t: int, i: nat)
    requires SleepList(sleep, next, prev, wake, head)
    requires 0 <= t < |next| && t !in sleep && i <= |sleep| && SleepPlace(sleep, wake, t, i)
    ensures var r := Insert(sleep, i, t);
            SleepList(r, NextWith(sleep, i, t, next), PrevWith(sleep, i, t, prev), wake, First(r))
  {
    hide Linked, Sorted, SleepPlace;
    var r := Insert(sleep, i, t);
    LinkedRange(sleep, next, prev);
    InsertLinked(sleep, i, t, next, prev);
    InsertSorted(sleep, wake, t, i);
    forall u | 0 <= u < |next| && u !in r
      ensures NextWith(sleep, i, t, next)[u] == NULL && PrevWith(sleep, i, t, prev)[u] == NULL
    {
      InsertMembers(sleep, i, t, u);
    }
  }

  lemma InsertSorted(sleep: seq<int>, wake: seq<nat>, t: int, i: nat)
    requires InRange(sleep, |wake|) && 0 <= t < |wake| && Sorted(sleep, wake) && SleepPlace(sleep, wake, t, i)
    ensures InRange(Insert(sleep, i, t), |wake|) && Sorted(Insert(sleep, i, t), wake)
  {
    var r := Insert(sleep, i, t);
    forall a, b | 0 <= a < b < |r| ensures wake[r[a]] <= wake[r[b]] {
      if b == i { } else if b > i {
        assert r[b] == sleep[b - 1];
        if a == i { assert wake[t] <= wake[sleep[i]]; }
      }
    }
  }

  lemma RemoveSleep(sleep: seq<int>, next: seq<int>, prev: seq<int>, wake: seq<nat>, head: int, t: int)
    requires SleepList(sleep, next, prev, wake, head) && t in sleep
    ensures var i := Place(sleep, t); var r := Remove(sleep, i);
            SleepList(r, NextWithout(sleep, i, next), PrevWithout(sleep, i, prev), wake, First(r))
  {
    hide Linked, Sorted;
    var i := Place(sleep, t);
    var r := Remove(sleep, i);
    LinkedRange(sleep, next, prev);
    RemoveLinked(sleep, i, next, prev);
    RemoveSorted(sleep, wake, i);
    var next', prev' := NextWithout(sleep, i, next), PrevWithout(sleep, i, prev);
    forall u | 0 <= u < |next| && u !in r ensures next'[u] == NULL && prev'[u] == NULL {
      RemoveUnlinks(sleep, t, next, prev, u);
    }
  }

  lemma RemoveSorted(sleep: seq<int>, wake: seq<nat>, i: nat)
    requires InRange(sleep, |wake|) && Sorted(sleep, wake) && i < |sleep|
    ensures InRange(Remove(sleep, i), |wake|) && Sorted(Remove(sleep, i), wake)
  {
    var r := Remove(sleep, i);
    forall a, b | 0 <= a < b < |r| ensures wake[r[a]] <= wake[r[b]] {
      assert r[a] == sleep[if a < i then a else a + 1] && r[b] == sleep[if b < i then b else b + 1];
    }
  }

  /** Only members' wake ticks order the list. */
  lemma SleepFrame(sleep: seq<int>, next: seq<int>, prev: seq<int>, wake: seq<nat>, wake': seq<nat>, head: int)
    requires SleepList(sleep, next, prev, wake, head) && |wake'| == |wake|
    requires forall t :: 0 <= t < |wake| && t in sleep ==> wake'[t] == wake[t]
    ensures SleepList(sleep, next, prev, wake', head)
  {
    hide Linked;
    assert InRange(sleep, |wake|) by { LinkedRange(sleep, next, prev); }
    forall a, b | 0 <= a < b < |sleep| ensures wake'[sleep[a]] <= wake'[sleep[b]] {
      assert sleep[a] in sleep && sleep[b] in sleep;
    }
  }

  lemma LinkedRange(q: seq<int>, next: seq<int>, prev: seq<int>)
    requires Linked(q, next, prev)
    ensures InRange(q, |next|) && Distinct(q) && |next| == |prev|
  {}
}
