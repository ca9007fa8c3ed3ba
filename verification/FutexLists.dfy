/** Singly linked bucket lists with links in a map, and the effect of a wake on the list it walks. */
module FutexLists {
  import opened LinkedQueue

  /** head and next spell out q. */
  ghost predicate Listed(q: seq<int>, head: int, next: map<int, int>) {
    && head == First(q) && Distinct(q)
    && (forall i :: 0 <= i < |q| ==> q[i] in next && q[i] != NULL)
    && (forall i {:trigger next[q[i]]} :: 0 <= i < |q| ==> next[q[i]] == After(q, i))
  }

  lemma ListedAt(q: seq<int>, head: int, next: map<int, int>, i: nat)
    requires Listed(q, head, next) && i < |q|
    ensures q[i] in next && q[i] != NULL && next[q[i]] == After(q, i)
    ensures After(q, i) == NULL <==> i + 1 == |q|
    ensures forall j :: 0 <= j < |q| && j != i ==> q[j] != q[i]
  {}

  /** A list none of whose links changed. */
  lemma ListedFrame(q: seq<int>, head: int, next: map<int, int>, next': map<int, int>)
    requires Listed(q, head, next)
    requires forall n :: n in q && n in next ==> n in next' && next'[n] == next[n]
    ensures Listed(q, head, next')
  {
    forall i | 0 <= i < |q| ensures q[i] in next' && next'[q[i]] == After(q, i) {
      assert q[i] in q && next[q[i]] == After(q, i);
    }
  }

  /** A new node in front. */
  lemma PushListed(q: seq<int>, head: int, next: map<int, int>, n: int)
    requires Listed(q, head, next) && n !in q && n != NULL
    ensures Listed([n] + q, n, next[n := head])
  {
    var r := [n] + q;
    forall i | 0 <= i < |r| ensures r[i] in next[n := head] && r[i] != NULL && next[n := head][r[i]] == After(r, i) {
      if i > 0 { assert r[i] == q[i - 1] && next[q[i - 1]] == After(q, i - 1); }
    }
  }

  /** The links after the node at place i is unlinked through the pointer that led to it. */
  function Skip(q: seq<int>, i: nat, next: map<int, int>): (r: map<int, int>)
    requires i < |q|
  {
    if i > 0 then next[q[i - 1] := After(q, i)] else next
  }

  lemma SkipListed(q: seq<int>, head: int, next: map<int, int>, i: nat)
    requires Listed(q, head, next) && i < |q|
    ensures Listed(Remove(q, i), if i == 0 then After(q, 0) else head, Skip(q, i, next))
    ensures forall n :: n in next && n !in q ==> n in Skip(q, i, next) && Skip(q, i, next)[n] == next[n]
    ensures Skip(q, i, next).Keys == next.Keys
  {
    var r, next' := Remove(q, i), Skip(q, i, next);
    forall j | 0 <= j < |r| ensures r[j] in next' && r[j] != NULL && next'[r[j]] == After(r, j) {
      if j < i { assert r[j] == q[j] && next[q[j]] == After(q, j); }
      else { assert r[j] == q[j + 1] && next[q[j + 1]] == After(q, j + 1); }
    }
  }

  /** The members of q that satisfy p, in order. */
  ghost function Filter(q: seq<int>, p: int -> bool): seq<int> {
    if q == [] then [] else (if p(q[0]) then [q[0]] else []) + Filter(q[1..], p)
  }

  /** What a walk that may take k more matching nodes takes, and what it leaves. */
  ghost function Taken(q: seq<int>, p: int -> bool, k: int): seq<int> {
    if q == [] || k <= 0 then []
    else if p(q[0]) then [q[0]] + Taken(q[1..], p, k - 1)
    else Taken(q[1..], p, k)
  }

  ghost function Left(q: seq<int>, p: int -> bool, k: int): seq<int> {
    if q == [] || k <= 0 then q
    else if p(q[0]) then Left(q[1..], p, k - 1)
    else [q[0]] + Left(q[1..], p, k)
  }

  /** The first min(k, matches) matching nodes are taken. */
  lemma {:induction false} TakenPrefix(q: seq<int>, p: int -> bool, k: int)
    ensures var f := Filter(q, p);
            Taken(q, p, k) == f[..if k <= 0 then 0 else if k < |f| then k else |f|]
  {
    if q != [] && k > 0 {
      TakenPrefix(q[1..], p, if p(q[0]) then k - 1 else k);
    }
  }

  /** The others stay, in order: what is left is q without the nodes taken. */
  lemma {:induction false} LeftRest(q: seq<int>, p: int -> bool, k: int)
    requires Distinct(q)
    ensures Left(q, p, k) == Filter(q, n => n !in Taken(q, p, k))
    ensures forall n :: n in Taken(q, p, k) ==> n in q && p(n)
  {
    var t := Taken(q, p, k);
    if q == [] {
    } else if k <= 0 {
      FilterAll(q, n => n !in t);
    } else {
      var k' := if p(q[0]) then k - 1 else k;
      var t' := Taken(q[1..], p, k');
      LeftRest(q[1..], p, k');
      assert q[0] !in q[1..];
      assert forall n :: n in q[1..] ==> (n in t <==> n in t');
      FilterSame(q[1..], n => n !in t', n => n !in t);
    }
  }

  lemma {:induction false} FilterAll(q: seq<int>, p: int -> bool)
    requires forall n :: n in q ==> p(n)
    ensures Filter(q, p) == q
  {
    if q != [] {
      var n := q[0];
      assert n in q && p(n) && q == [n] + q[1..];
      FilterAll(q[1..], p);
      assert Filter(q, p) == [q[0]] + Filter(q[1..], p);
    }
  }

  lemma {:induction false} FilterSame(q: seq<int>, p: int -> bool, r: int -> bool)
    requires forall n :: n in q ==> p(n) == r(n)
    ensures Filter(q, p) == Filter(q, r)
  {
    if q != [] {
      var n := q[0];
      assert n in q && p(n) == r(n);
      FilterSame(q[1..], p, r);
      assert Filter(q, r) == (if r(q[0]) then [q[0]] else []) + Filter(q[1..], r);
    }
  }

  lemma {:induction false} TakenMembers(q: seq<int>, p: int -> bool, k: int, n: int)
    requires Distinct(q)
    ensures n in q <==> n in Taken(q, p, k) || n in Left(q, p, k)
    ensures !(n in Taken(q, p, k) && n in Left(q, p, k))
    ensures n in Taken(q, p, k) ==> p(n)
    ensures n in Left(q, p, k) && |Taken(q, p, k)| < k ==> !p(n)
  {
    if q != [] && k > 0 {
      TakenMembers(q[1..], p, if p(q[0]) then k - 1 else k, n);
      assert q[0] !in q[1..];
    }
  }
}
