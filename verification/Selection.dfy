/** Marked members of a queue, in order, and the cut of a sorted sleep queue at a tick. */
module Selection {
  import opened LinkedQueue
  import opened SchedulerQueues

  /** The members of q that are marked, in order. */
  function Select(q: seq<int>, mark: seq<bool>): (r: seq<int>)
    requires InRange(q, |mark|)
    ensures InRange(r, |mark|)
  {
    if q == [] then []
    else Select(q[..|q| - 1], mark) + if mark[q[|q| - 1]] then [q[|q| - 1]] else []
  }

  lemma {:induction false} SelectMembers(q: seq<int>, mark: seq<bool>, t: int)
    requires InRange(q, |mark|)
    ensures t in Select(q, mark) <==> t in q && mark[t]
  {
    if q != [] {
      assert q == q[..|q| - 1] + [q[|q| - 1]];
      SelectMembers(q[..|q| - 1], mark, t);
    }
  }

  lemma SelectStep(q: seq<int>, t: int, mark: seq<bool>)
    requires InRange(q, |mark|) && 0 <= t < |mark|
    ensures InRange(q + [t], |mark|)
    ensures Select(q + [t], mark) == Select(q, mark) + if mark[t] then [t] else []
  {
    assert (q + [t])[..|q|] == q;
  }

  lemma {:induction false} SelectNone(q: seq<int>, mark: seq<bool>)
    requires InRange(q, |mark|) && forall i :: 0 <= i < |q| ==> !mark[q[i]]
    ensures Select(q, mark) == []
  {
    if q != [] {
      var t := q[|q| - 1];
      SelectNone(q[..|q| - 1], mark);
      SelectStep(q[..|q| - 1], t, mark);
      assert q == q[..|q| - 1] + [t];
    }
  }

  lemma {:induction false} SelectAll(q: seq<int>, mark: seq<bool>)
    requires InRange(q, |mark|) && forall i :: 0 <= i < |q| ==> mark[q[i]]
    ensures Select(q, mark) == q
  {
    if q != [] {
      var t := q[|q| - 1];
      SelectAll(q[..|q| - 1], mark);
      SelectStep(q[..|q| - 1], t, mark);
      assert q == q[..|q| - 1] + [t];
    }
  }

  lemma {:induction false} SelectConcat(p: seq<int>, q: seq<int>, mark: seq<bool>)
    requires InRange(p, |mark|) && InRange(q, |mark|)
    ensures InRange(p + q, |mark|) && Select(p + q, mark) == Select(p, mark) + Select(q, mark)
  {
    hide Select, InRange;
    if q == [] {
      SelectNone(q, mark);
      assert p + q == p;
    } else {
      var r, t := q[..|q| - 1], q[|q| - 1];
      assert InRange(r, |mark|) && 0 <= t < |mark| by { ButLast(q, |mark|); }
      SelectConcat(p, r, mark);
      SelectStep(p + r, t, mark);
      SelectStep(r, t, mark);
      assert q == r + [t];
      assert p + q == p + r + [t];
    }
  }

  lemma ButLast(q: seq<int>, n: nat)
    requires InRange(q, n) && q != []
    ensures InRange(q[..|q| - 1], n) && 0 <= q[|q| - 1] < n
  {}

  /** Only the first k are marked, or only the others. */
  lemma SelectPrefix(q: seq<int>, k: nat, mark: seq<bool>)
    requires InRange(q, |mark|) && k <= |q|
    requires (forall i :: 0 <= i < k ==> mark[q[i]]) && (forall i :: k <= i < |q| ==> !mark[q[i]])
    ensures Select(q, mark) == q[..k]
  {
    hide Select;
    SelectAll(q[..k], mark);
    SelectNone(q[k..], mark);
    SelectConcat(q[..k], q[k..], mark);
    assert q == q[..k] + q[k..];
  }

  lemma SelectSuffix(q: seq<int>, k: nat, mark: seq<bool>)
    requires InRange(q, |mark|) && k <= |q|
    requires (forall i :: 0 <= i < k ==> !mark[q[i]]) && (forall i :: k <= i < |q| ==> mark[q[i]])
    ensures Select(q, mark) == q[k..]
  {
    hide Select;
    SelectNone(q[..k], mark);
    SelectAll(q[k..], mark);
    SelectConcat(q[..k], q[k..], mark);
    assert q == q[..k] + q[k..];
  }

  /** Which tasks are due at a tick. */
  function Due(wake: seq<nat>, now: nat): seq<bool> { seq(|wake|, t requires 0 <= t < |wake| => wake[t] <= now) }
  function NotDue(wake: seq<nat>, now: nat): seq<bool> { seq(|wake|, t requires 0 <= t < |wake| => wake[t] > now) }

  lemma RestNotDue(q: seq<int>, wake: seq<nat>, now: nat, k: nat)
    requires InRange(q, |wake|) && Sorted(q, wake) && (k < |q| ==> wake[q[k]] > now)
    ensures forall j :: k <= j < |q| ==> wake[q[j]] > now
  {
    forall j | k <= j < |q| ensures wake[q[j]] > now { assert k < j ==> wake[q[k]] <= wake[q[j]]; }
  }

  /** On a sorted queue, stopping at the first sleeper that is not due misses nobody. */
  lemma SweepIsScan(q: seq<int>, wake: seq<nat>, now: nat, k: nat)
    requires InRange(q, |wake|) && Sorted(q, wake) && k <= |q|
    requires forall j :: 0 <= j < k ==> wake[q[j]] <= now
    requires k < |q| ==> wake[q[k]] > now
    ensures Select(q, Due(wake, now)) == q[..k] && Select(q, NotDue(wake, now)) == q[k..]
  {
    hide Select, Sorted;
    RestNotDue(q, wake, now, k);
    SelectPrefix(q, k, Due(wake, now));
    SelectSuffix(q, k, NotDue(wake, now));
  }

  function Upto(n: nat): seq<int> { seq(n, i => i) }

  lemma UptoStep(n: nat)
    ensures Upto(n + 1) == Upto(n) + [n]
  {}
}
