/** Doubly linked lists kept in two arrays of indices, as the scheduler's queues are: what
    appending, inserting and unlinking do to the sequence they represent. */
module LinkedQueue {
  const NULL: int := -1

  predicate InRange(q: seq<int>, n: nat) {
    forall i :: 0 <= i < |q| ==> 0 <= q[i] < n
  }

  predicate Distinct(q: seq<int>) {
    forall i, j :: 0 <= i < j < |q| ==> q[i] != q[j]
  }

  function After(q: seq<int>, i: int): int
    requires 0 <= i < |q|
  {
    if i + 1 < |q| then q[i + 1] else NULL
  }

  function Before(q: seq<int>, i: int): int
    requires 0 <= i < |q|
  {
    if i > 0 then q[i - 1] else NULL
  }

  function First(q: seq<int>): int { if |q| > 0 then q[0] else NULL }
  function Last(q: seq<int>): int { if |q| > 0 then q[|q| - 1] else NULL }

  /** Every element's forward link is its successor. */
  ghost predicate Forward(q: seq<int>, next: seq<int>)
    requires InRange(q, |next|)
  {
    forall i {:trigger next[q[i]]} :: 0 <= i < |q| ==> next[q[i]] == After(q, i)
  }

  /** Every element's backward link is its predecessor. */
  ghost predicate Backward(q: seq<int>, prev: seq<int>)
    requires InRange(q, |prev|)
  {
    forall i {:trigger prev[q[i]]} :: 0 <= i < |q| ==> prev[q[i]] == Before(q, i)
  }

  /** The arrays link the elements of q in order. */
  ghost predicate Linked(q: seq<int>, next: seq<int>, prev: seq<int>) {
    |next| == |prev| && InRange(q, |next|) && Distinct(q) && Forward(q, next) && Backward(q, prev)
  }

  /** The place of t in q, or |q| when it is not there. */
  function Place(q: seq<int>, t: int): (i: nat)
    ensures i <= |q| && (i < |q| <==> t in q) && (i < |q| ==> q[i] == t)
  {
    if |q| == 0 then 0 else if q[0] == t then 0 else 1 + Place(q[1..], t)
  }

  function Remove(q: seq<int>, i: nat): (r: seq<int>)
    requires i < |q|
    ensures |r| == |q| - 1
    ensures forall j :: 0 <= j < |r| ==> r[j] == if j < i then q[j] else q[j + 1]
  {
    q[..i] + q[i + 1..]
  }

  function Insert(q: seq<int>, i: nat, t: int): (r: seq<int>)
    requires i <= |q|
    ensures |r| == |q| + 1
    ensures forall j :: 0 <= j < |r| ==> r[j] == if j < i then q[j] else if j == i then t else q[j - 1]
  {
    q[..i] + [t] + q[i..]
  }

  /** q without t, in the same order. */
  function Without(q: seq<int>, t: int): (r: seq<int>) {
    if t in q then Remove(q, Place(q, t)) else q
  }

  lemma InsertMembers(q: seq<int>, i: nat, t: int, u: int)
    requires i <= |q|
    ensures u in Insert(q, i, t) <==> u in q || u == t
  {
    assert q == q[..i] + q[i..];
  }

  lemma WithoutMembers(q: seq<int>, t: int, u: int)
    requires Distinct(q)
    ensures u in Without(q, t) <==> u in q && u != t
  {
    if t in q {
      var i := Place(q, t);
      assert q == q[..i] + [t] + q[i + 1..];
    }
  }

  lemma LinkedFrame(q: seq<int>, next: seq<int>, prev: seq<int>, next': seq<int>, prev': seq<int>)
    requires Linked(q, next, prev) && |next'| == |next| && |prev'| == |prev|
    requires forall i :: 0 <= i < |q| ==> next'[q[i]] == next[q[i]] && prev'[q[i]] == prev[q[i]]
    ensures Linked(q, next', prev')
  {}

  lemma InsertDistinct(q: seq<int>, i: nat, t: int, n: nat)
    requires i <= |q| && InRange(q, n) && Distinct(q) && 0 <= t < n && t !in q
    ensures InRange(Insert(q, i, t), n) && Distinct(Insert(q, i, t))
  {}

  lemma InsertForward(q: seq<int>, i: nat, t: int, next: seq<int>, next': seq<int>)
    requires i <= |q| && InRange(q, |next|) && |next'| == |next| && Forward(q, next)
    requires InRange(Insert(q, i, t), |next'|)
    requires 0 <= t < |next| && next'[t] == (if i < |q| then q[i] else NULL)
    requires i > 0 ==> next'[q[i - 1]] == t
    requires forall j :: 0 <= j < |q| && j != i - 1 ==> next'[q[j]] == next[q[j]]
    ensures Forward(Insert(q, i, t), next')
  {
    var r := Insert(q, i, t);
    forall j | 0 <= j < |r| ensures next'[r[j]] == After(r, j) {
      if j < i { assert r[j] == q[j]; } else if j > i { assert r[j] == q[j - 1]; }
    }
  }

  lemma InsertBackward(q: seq<int>, i: nat, t: int, prev: seq<int>, prev': seq<int>)
    requires i <= |q| && InRange(q, |prev|) && |prev'| == |prev| && Backward(q, prev)
    requires InRange(Insert(q, i, t), |prev'|)
    requires 0 <= t < |prev| && prev'[t] == (if i > 0 then q[i - 1] else NULL)
    requires i < |q| ==> prev'[q[i]] == t
    requires forall j :: 0 <= j < |q| && j != i ==> prev'[q[j]] == prev[q[j]]
    ensures Backward(Insert(q, i, t), prev')
  {
    var r := Insert(q, i, t);
    forall j | 0 <= j < |r| ensures prev'[r[j]] == Before(r, j) {
      if j < i { assert r[j] == q[j]; } else if j > i { assert r[j] == q[j - 1]; }
    }
  }

  /** t put at place i: its two neighbours point to it, and the other links stay. */
  lemma InsertLinked(q: seq<int>, i: nat, t: int, next: seq<int>, prev: seq<int>)
    requires Linked(q, next, prev) && i <= |q| && 0 <= t < |next| && t !in q
    ensures Linked(Insert(q, i, t), NextWith(q, i, t, next), PrevWith(q, i, t, prev))
  {
    hide Forward, Backward;
    InsertDistinct(q, i, t, |next|);
    InsertForward(q, i, t, next, NextWith(q, i, t, next));
    InsertBackward(q, i, t, prev, PrevWith(q, i, t, prev));
  }

  /** The forward links after t is put at place i. */
  function NextWith(q: seq<int>, i: nat, t: int, next: seq<int>): (r: seq<int>)
    requires i <= |q| && InRange(q, |next|) && 0 <= t < |next|
    ensures |r| == |next|
  {
    var mid := next[t := if i < |q| then q[i] else NULL];
    if i > 0 then mid[q[i - 1] := t] else mid
  }

  function PrevWith(q: seq<int>, i: nat, t: int, prev: seq<int>): (r: seq<int>)
    requires i <= |q| && InRange(q, |prev|) && 0 <= t < |prev|
    ensures |r| == |prev|
  {
    var mid := prev[t := if i > 0 then q[i - 1] else NULL];
    if i < |q| then mid[q[i] := t] else mid
  }

  /** The forward links after the element at place i is unlinked. */
  function NextWithout(q: seq<int>, i: nat, next: seq<int>): (r: seq<int>)
    requires i < |q| && InRange(q, |next|)
    ensures |r| == |next|
  {
    (if i > 0 then next[q[i - 1] := After(q, i)] else next)[q[i] := NULL]
  }

  function PrevWithout(q: seq<int>, i: nat, prev: seq<int>): (r: seq<int>)
    requires i < |q| && InRange(q, |prev|)
    ensures |r| == |prev|
  {
    (if i + 1 < |q| then prev[q[i + 1] := Before(q, i)] else prev)[q[i] := NULL]
  }

  lemma RemoveForward(q: seq<int>, i: nat, next: seq<int>)
    requires i < |q| && InRange(q, |next|) && Distinct(q) && Forward(q, next)
    ensures InRange(Remove(q, i), |next|) && Forward(Remove(q, i), NextWithout(q, i, next))
  {
    var r, next' := Remove(q, i), NextWithout(q, i, next);
    forall j | 0 <= j < |r| ensures next'[r[j]] == After(r, j) {
      if j < i { assert r[j] == q[j]; } else { assert r[j] == q[j + 1]; }
    }
  }

  lemma RemoveBackward(q: seq<int>, i: nat, prev: seq<int>)
    requires i < |q| && InRange(q, |prev|) && Distinct(q) && Backward(q, prev)
    ensures InRange(Remove(q, i), |prev|) && Backward(Remove(q, i), PrevWithout(q, i, prev))
  {
    var r, prev' := Remove(q, i), PrevWithout(q, i, prev);
    forall j | 0 <= j < |r| ensures prev'[r[j]] == Before(r, j) {
      if j < i { assert r[j] == q[j]; } else { assert r[j] == q[j + 1]; }
    }
  }

  /** Unlinking the element at place i: its neighbours point past it. */
  lemma RemoveLinked(q: seq<int>, i: nat, next: seq<int>, prev: seq<int>)
    requires Linked(q, next, prev) && i < |q|
    ensures Linked(Remove(q, i), NextWithout(q, i, next), PrevWithout(q, i, prev))
  {
    hide Forward, Backward;
    RemoveForward(q, i, next);
    RemoveBackward(q, i, prev);
    var r := Remove(q, i);
    assert Distinct(r);
  }
}
