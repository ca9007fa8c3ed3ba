/** Futexes over the scheduler: a waiter puts its node into a bucket and blocks in one locked
    region, a wake unlinks matching nodes and readies their tasks, and each waiter frees its own
    node on the way out. */
module Futex {
  import opened Bits
  import opened LinkedQueue
  import opened FutexLists
  import opened SchedulerQueues
  import opened SmpScheduler

  const BUCKETS: nat := 16

  /** Thirty-two bits, the lowest first. */
  type BitSet = b: seq<bool> | |b| == 32 witness seq(32, _ => false)

  const NONE: BitSet := seq(32, _ => false)
  const ALL: BitSet := seq(32, _ => true)

  /** A node: who waits, on what word, for which bits. */
  datatype Info = Info(task: int, uaddr: bv64, bitset: BitSet)

  datatype Deadline = Never | At(tick: nat)

  /** The locals of a task inside futex_wait that outlive its blocking, with the value it waits on. */
  datatype Frame = Frame(node: int, bucket: int, shared: bool, deadline: Deadline, val: bv32)

  function WordAt(words: map<int, bv32>, spot: int): bv32 { if spot in words then words[spot] else 0 }

  datatype Outcome = Queued | EFault | EAgain | ENoMem
  datatype Answer = Woken | TimedOut | Interrupted

  function Bucket(uaddr: bv64, cr3: bv64, shared: bool): (b: int)
    ensures 0 <= b < BUCKETS
  {
    (((uaddr >> 2) ^ (if shared then 0 else cr3 >> 12)) % 16) as int
  }

  predicate ValidAddress(uaddr: bv64) { uaddr & 3 == 0 && uaddr != 0 }

  lemma AddressMeans(uaddr: bv64)
    ensures ValidAddress(uaddr) <==> uaddr != 0 && uaddr % 4 == 0
  {}

  /** A wake by a task with address space mine reaches this node: the same address, for a private futex
      the same address space, and some bit that both sets have. */
  ghost predicate Aimed(i: Info, cr3: bv64, uaddr: bv64, shared: bool, mine: bv64, bitset: BitSet) {
    && i.uaddr == uaddr && (shared || cr3 == mine)
    && exists k :: 0 <= k < 32 && i.bitset[k] && bitset[k]
  }

  lemma CommonBit(p: BitSet, q: BitSet)
    ensures And(p, q) != NONE <==> exists k :: 0 <= k < 32 && p[k] && q[k]
  {
    if And(p, q) != NONE {
      var k :| 0 <= k < 32 && And(p, q)[k] != NONE[k];
      assert p[k] && q[k];
    } else {
      forall k | 0 <= k < 32 ensures !(p[k] && q[k]) { assert And(p, q)[k] == NONE[k]; }
    }
  }

  /** A wake with all bits, as a plain FUTEX_WAKE is, reaches every node of its key that has any. */
  lemma AllBits(i: Info, cr3: bv64, uaddr: bv64, shared: bool, mine: bv64)
    requires i.uaddr == uaddr && (shared || cr3 == mine) && i.bitset != NONE
    ensures Aimed(i, cr3, uaddr, shared, mine, ALL)
  {
    var k :| 0 <= k < 32 && i.bitset[k] != NONE[k];
    assert i.bitset[k] && ALL[k];
  }

  ghost function Reached(info: map<int, Info>, cr3: seq<bv64>, uaddr: bv64, shared: bool, mine: bv64, bitset: BitSet): int -> bool {
    n => n in info && 0 <= info[n].task < |cr3| && Aimed(info[n], cr3[info[n].task], uaddr, shared, mine, bitset)
  }

  /** Every bucket is a well-formed list of allocated nodes. */
  ghost predicate BucketsOk(lists: seq<seq<int>>, heads: seq<int>, next: map<int, int>) {
    && |lists| == |heads| == BUCKETS
    && forall b :: 0 <= b < BUCKETS ==> Listed(lists[b], heads[b], next)
  }

  /** A waiter owns one node; it is linked in the waiter's bucket until a wake takes it. */
  ghost predicate FrameOk(t: int, f: Frame, lists: seq<seq<int>>, info: map<int, Info>, cr3: seq<bv64>, woken: set<int>)
    requires |lists| == BUCKETS
  {
    && 0 <= t < |cr3| && f.node in info && info[f.node].task == t && f.node != NULL
    && f.bucket == Bucket(info[f.node].uaddr, cr3[t], f.shared)
    && (f.node in lists[f.bucket] <==> f.node !in woken)
  }

  /** Allocated nodes and waiters correspond one to one, and linked nodes are allocated. */
  ghost predicate Owned(lists: seq<seq<int>>, info: map<int, Info>, frames: map<int, Frame>, cr3: seq<bv64>, woken: set<int>)
    requires |lists| == BUCKETS
  {
    && (forall t :: t in frames ==> FrameOk(t, frames[t], lists, info, cr3, woken))
    && (forall n :: n in info ==> info[n].task in frames && frames[info[n].task].node == n)
    && (forall b, n :: 0 <= b < BUCKETS && n in lists[b] ==> n in info && frames[info[n].task].bucket == b)
    && (forall n :: n in woken ==> n in info)
  }

  /** No waiter whose node a wake has taken is still blocked. */
  ghost predicate NoneStuck(frames: map<int, Frame>, woken: set<int>, state: seq<State>) {
    forall t :: t in frames && frames[t].node in woken && 0 <= t < |state| ==> !state[t].Blocked?
  }

  lemma PushOwned(lists: seq<seq<int>>, info: map<int, Info>, frames: map<int, Frame>, cr3: seq<bv64>, woken: set<int>,
                  t: int, f: Frame, i: Info)
    requires |lists| == BUCKETS && Owned(lists, info, frames, cr3, woken)
    requires t !in frames && 0 <= t < |cr3| && f.node !in info && f.node != NULL && i.task == t
    requires f.bucket == Bucket(i.uaddr, cr3[t], f.shared)
    ensures Owned(lists[f.bucket := [f.node] + lists[f.bucket]], info[f.node := i], frames[t := f], cr3, woken)
  {
    hide Bucket;
    assert f.node !in woken;
    var lists' := lists[f.bucket := [f.node] + lists[f.bucket]];
    var frames' := frames[t := f];
    forall u | u in frames' ensures FrameOk(u, frames'[u], lists', info[f.node := i], cr3, woken) {
      if u != t { assert FrameOk(u, frames[u], lists, info, cr3, woken); }
    }
  }

  /** A wake takes a linked node out of its bucket. */
  lemma TakeOwned(lists: seq<seq<int>>, info: map<int, Info>, frames: map<int, Frame>, cr3: seq<bv64>, woken: set<int>,
                  b: int, i: nat)
    requires |lists| == BUCKETS && Owned(lists, info, frames, cr3, woken)
    requires 0 <= b < BUCKETS && i < |lists[b]| && Distinct(lists[b])
    ensures Owned(lists[b := Remove(lists[b], i)], info, frames, cr3, woken + {lists[b][i]})
  {
    hide Bucket;
    var q, n := lists[b], lists[b][i];
    var lists' := lists[b := Remove(q, i)];
    assert n in q;
    forall m ensures m in Remove(q, i) <==> m in q && m != n { RemoveMembers(q, i, m); }
    forall u | u in frames ensures FrameOk(u, frames[u], lists', info, cr3, woken + {n}) {
      assert FrameOk(u, frames[u], lists, info, cr3, woken);
    }
  }

  /** A waiter that leaves unlinks its node if it is still linked, and frees it. */
  lemma LeaveOwned(lists: seq<seq<int>>, info: map<int, Info>, frames: map<int, Frame>, cr3: seq<bv64>, woken: set<int>,
                   lists': seq<seq<int>>, t: int)
    requires |lists| == |lists'| == BUCKETS && Owned(lists, info, frames, cr3, woken) && t in frames
    requires forall b, m :: 0 <= b < BUCKETS ==> (m in lists'[b] <==> m in lists[b] && m != frames[t].node)
    ensures Owned(lists', info - {frames[t].node}, frames - {t}, cr3, woken - {frames[t].node})
  {
    hide Bucket;
    var n := frames[t].node;
    assert FrameOk(t, frames[t], lists, info, cr3, woken);
    var frames' := frames - {t};
    forall u | u in frames' ensures FrameOk(u, frames'[u], lists', info - {n}, cr3, woken - {n}) {
      assert FrameOk(u, frames[u], lists, info, cr3, woken);
    }
  }

  lemma RemoveMembers(q: seq<int>, i: nat, m: int)
    requires i < |q| && Distinct(q)
    ensures m in Remove(q, i) <==> m in q && m != q[i]
  {
    assert q == q[..i] + [q[i]] + q[i + 1..];
  }

  class FutexTable {
    const sched: Scheduler
    /** Each task's address space. */
    const cr3: seq<bv64>
    /** Where an address space has the word of an address. */
    const place: (bv64, bv64) -> int

    var heads: seq<int>
    // The allocated nodes: their links and their contents.
    var next: map<int, int>
    var info: map<int, Info>
    /** The tasks inside futex_wait. */
    var frames: map<int, Frame>
    /** The words of memory, zero where nothing was stored. */
    var words: map<int, bv32>

    ghost var lists: seq<seq<int>>
    /** Nodes a wake has unlinked and whose waiter has not returned yet. */
    ghost var woken: set<int>

    ghost predicate TableOk()
      reads this
    {
      && BucketsOk(lists, heads, next) && Owned(lists, info, frames, cr3, woken) && next.Keys == info.Keys
    }

    ghost predicate Valid()
      reads this, sched, sched.lists, sched.sleepers
    {
      TableOk() && sched.Valid() && |cr3| == sched.tasks && NoneStuck(frames, woken, sched.state)
    }

    constructor (sched: Scheduler, cr3: seq<bv64>, place: (bv64, bv64) -> int)
      requires sched.Valid() && |cr3| == sched.tasks
      ensures Valid() && this.sched == sched && this.cr3 == cr3 && this.place == place && frames == map[] && woken == {}
    {
      this.sched := sched;
      this.cr3 := cr3;
      this.place := place;
      heads := seq(BUCKETS, b => NULL);
      next, info, frames, words := map[], map[], map[], map[];
      lists := seq(BUCKETS, b => []);
      woken := {};
    }

    /** A store to a word of memory, by any task on any CPU. */
    method Store(spot: int, v: bv32)
      requires Valid()
      modifies this`words
      ensures Valid() && words == old(words)[spot := v]
    {
      hide Bucket, Owned, NoneStuck, Queues, SleepList, AtHome, RowOk, Listed;
      words := words[spot := v];
    }

    /** futex_wait up to its call of schedule. early is the word as it was read some time before; under
        the bucket lock it is read again. node is the address the allocator returned, NULL when it had
        none. */
    method WaitBegin(c: int, uaddr: bv64, val: bv32, early: bv32, shared: bool, bitset: BitSet,
                     deadline: Deadline, node: int) returns (r: Outcome)
      requires Valid() && 0 <= c < sched.cpus && sched.current[c] !in sched.sleepers.sleep
      requires sched.current[c] !in frames && node !in info
      modifies this, sched`state, sched.sleepers
      ensures Valid()
      ensures 0 <= sched.current[c] < |cr3| && words == old(words)
      ensures r == if uaddr == 0 || uaddr % 4 != 0 then EFault else if early != val then EAgain
                   else if node == NULL then ENoMem
                   else
                     var spot := place(cr3[sched.current[c]], uaddr);
                     if (if spot in words then words[spot] else 0) != val then EAgain else Queued
      ensures r != Queued ==> lists == old(lists) && frames == old(frames) && info == old(info) && woken == old(woken)
                              && sched.state == old(sched.state)
      ensures r == Queued ==>
                var t := sched.current[c];
                && var b := Bucket(uaddr, cr3[t], shared);
                && lists == old(lists)[b := [node] + old(lists)[b]]
                && frames == old(frames)[t := Frame(node, b, shared, deadline, val)]
                && info == old(info)[node := Info(t, uaddr, bitset)] && woken == old(woken)
                && sched.state == old(sched.state)[t := if sched.signalled[t] then Ready else Blocked]
    {
      hide Bucket, Owned, NoneStuck, Queues, SleepList, AtHome, RowOk, Listed, ValidAddress;
      sched.HomeOf(c);
      AddressMeans(uaddr);
      if !ValidAddress(uaddr) { return EFault; }
      if early != val { return EAgain; }
      if node == NULL { return ENoMem; }
      var t := sched.current[c];
      if WordAt(words, place(cr3[t], uaddr)) != val { return EAgain; }
      Queue(c, Info(t, uaddr, bitset), Frame(node, Bucket(uaddr, cr3[t], shared), shared, deadline, val));
      return Queued;
    }

    /** The node is linked and the task blocked, or kept ready by a pending signal. */
    method Queue(c: int, i: Info, f: Frame)
      requires Valid() && 0 <= c < sched.cpus && sched.current[c] !in sched.sleepers.sleep
      requires sched.current[c] !in frames && i.task == sched.current[c] && 0 <= i.task < |cr3|
      requires f.node !in info && f.node != NULL && f.bucket == Bucket(i.uaddr, cr3[i.task], f.shared)
      modifies this, sched`state, sched.sleepers
      ensures Valid() && words == old(words) && woken == old(woken)
      ensures lists == old(lists)[f.bucket := [f.node] + old(lists)[f.bucket]]
      ensures frames == old(frames)[i.task := f] && info == old(info)[f.node := i]
      ensures sched.state == old(sched.state)[i.task := if sched.signalled[i.task] then Ready else Blocked]
    {
      hide Bucket, Owned, NoneStuck, Queues, SleepList, AtHome, RowOk, Listed;
      Link(i.task, f.bucket, i, f);
      match f.deadline {
        case Never => sched.Block(c);
        case At(tick) => sched.BlockUntil(c, tick, Blocked);
      }
      StillNoneStuck(old(frames), i.task, f, info, woken, old(sched.state), sched.state);
    }

    /** The node goes to the front of its bucket. */
    method Link(t: int, b: int, i: Info, f: Frame)
      requires TableOk() && t !in frames && 0 <= t < |cr3| && f.node !in info && f.node != NULL && i.task == t
      requires f.bucket == b == Bucket(i.uaddr, cr3[t], f.shared)
      modifies this
      ensures TableOk() && f.node !in woken
      ensures lists == old(lists)[b := [f.node] + old(lists)[b]] && frames == old(frames)[t := f]
      ensures info == old(info)[f.node := i] && woken == old(woken) && words == old(words)
    {
      hide Bucket, Listed;
      PushOwned(lists, info, frames, cr3, woken, t, f, i);
      PushListed(lists[b], heads[b], next, f.node);
      info := info[f.node := i];
      next := next[f.node := heads[b]];
      heads := heads[b := f.node];
      frames := frames[t := f];
      lists := lists[b := [f.node] + lists[b]];
      forall d | 0 <= d < BUCKETS && d != b ensures Listed(lists[d], heads[d], next) {
        ListedFrame(lists[d], heads[d], old(next), next);
      }
    }

    /** The rest of futex_wait, once schedule has returned to the waiter: its node is unlinked if a
        wake has not done so, and freed. The answer is success exactly when a wake took the node. */
    method WaitEnd(c: int, now: nat) returns (r: Answer)
      requires Valid() && 0 <= c < sched.cpus && sched.current[c] in frames
      modifies this
      ensures Valid()
      ensures var t := sched.current[c]; var f := old(frames)[t];
              && frames == old(frames) - {t} && info == old(info) - {f.node} && woken == old(woken) - {f.node}
              && (r == Woken <==> f.node in old(woken))
              && (r == TimedOut <==> f.node !in old(woken) && f.deadline.At? && now >= f.deadline.tick)
              && 0 <= f.bucket < |old(lists)|
              && lists == old(lists)[f.bucket := Without(old(lists)[f.bucket], f.node)]
              && (forall b :: 0 <= b < BUCKETS ==> f.node !in lists[b])
      ensures words == old(words)
    {
      hide Bucket, Owned, NoneStuck, Queues, SleepList, AtHome, RowOk, Listed, Distinct;
      var t := sched.current[c];
      var f := frames[t];
      FrameFacts(t);
      BucketsApart(lists, info, frames, cr3, woken);
      WithoutEach(lists[f.bucket], f.node);
      ghost var left := lists[f.bucket := Without(lists[f.bucket], f.node)];
      LeaveOwned(lists, info, frames, cr3, woken, left, t);
      var late := f.deadline.At? && now >= f.deadline.tick;
      var found, prev := Search(f.bucket, f.node);
      if found { Unlink(f.bucket, Place(lists[f.bucket], f.node), prev, f.node); }
      assert lists == left;
      Free(t);
      LeaveNoneStuck(old(frames), old(woken), t, sched.state);
      r := if !found then Woken else if late then TimedOut else Interrupted;
    }

    lemma FrameFacts(t: int)
      requires TableOk() && t in frames
      ensures 0 <= frames[t].bucket < BUCKETS == |lists| && frames[t].node in info && frames[t].node != NULL
      ensures frames[t].node in lists[frames[t].bucket] <==> frames[t].node !in woken
      ensures forall b :: 0 <= b < BUCKETS && frames[t].node in lists[b] ==> b == frames[t].bucket
      ensures forall b :: 0 <= b < BUCKETS ==> Distinct(lists[b])
    {
      hide Bucket;
      assert FrameOk(t, frames[t], lists, info, cr3, woken);
    }

    /** The walk of a returning waiter: whether the node is linked, and what leads to it. */
    method Search(b: int, node: int) returns (found: bool, prev: int)
      requires TableOk() && 0 <= b < BUCKETS && node != NULL
      ensures |lists| == BUCKETS && (found <==> node in lists[b])
      ensures found ==> prev == Before(lists[b], Place(lists[b], node))
    {
      hide Owned, Listed;
      ghost var q := lists[b];
      assert Listed(q, heads[b], next);
      HeadOf(q, heads[b], next);
      prev := NULL;
      var curr := heads[b];
      ghost var i := 0;
      while curr != NULL
        invariant 0 <= i <= |q| && curr == (if i < |q| then q[i] else NULL) && prev == if i == 0 then NULL else q[i - 1]
        invariant forall j :: 0 <= j < i ==> q[j] != node
        invariant curr != NULL <==> i < |q|
        decreases |q| - i
      {
        ListedAt(q, heads[b], next, i);
        if curr == node {
          assert Place(q, node) == i by { PlaceAt(q, i); }
          return true, prev;
        }
        prev := curr;
        curr := next[curr];
        i := i + 1;
        if i < |q| { ListedAt(q, heads[b], next, i); }
      }
      return false, prev;
    }

    /** *pp = curr->next, where prev leads to curr. */
    method Unlink(b: int, ghost i: nat, prev: int, curr: int)
      requires BucketsOk(lists, heads, next) && 0 <= b < BUCKETS && i < |lists[b]|
      requires curr == lists[b][i] && prev == Before(lists[b], i)
      requires forall d, n :: 0 <= d < BUCKETS && n in lists[d] && n in lists[b] ==> d == b
      modifies this`heads, this`next, this`lists
      ensures BucketsOk(lists, heads, next) && next.Keys == old(next.Keys)
      ensures lists == old(lists)[b := Remove(old(lists)[b], i)]
      ensures next[curr] == After(old(lists)[b], i)
    {
      hide Listed;
      ghost var q := lists[b];
      ListedAt(q, heads[b], next, i);
      if i > 0 { ListedAt(q, heads[b], next, i - 1); }
      SkipListed(q, heads[b], next, i);
      if prev != NULL {
        next := next[prev := next[curr]];
      } else {
        heads := heads[b := next[curr]];
      }
      lists := lists[b := Remove(q, i)];
      forall d | 0 <= d < BUCKETS && d != b ensures Listed(lists[d], heads[d], next) {
        ListedFrame(lists[d], heads[d], old(next), next);
      }
    }

    /** kfree of a node that is in no bucket. */
    method Free(t: int)
      requires BucketsOk(lists, heads, next) && t in frames && next.Keys == info.Keys
      requires forall b :: 0 <= b < BUCKETS ==> frames[t].node !in lists[b]
      modifies this`next, this`info, this`frames, this`woken
      ensures BucketsOk(lists, heads, next) && next.Keys == info.Keys
      ensures frames == old(frames) - {t} && info == old(info) - {old(frames)[t].node} && woken == old(woken) - {old(frames)[t].node}
    {
      hide Listed;
      var n := frames[t].node;
      info := info - {n};
      next := next - {n};
      woken := woken - {n};
      frames := frames - {t};
      forall b | 0 <= b < BUCKETS ensures Listed(lists[b], heads[b], next) {
        ListedFrame(lists[b], heads[b], old(next), next);
      }
    }

    /** A wake takes the node that prev leads to: its task, if still blocked, is woken, and the
        node is unlinked but left to its waiter to free. */
    method TakeNode(b: int, ghost i: nat, prev: int, curr: int)
      requires Valid() && 0 <= b < BUCKETS && i < |lists[b]| && curr == lists[b][i] && prev == Before(lists[b], i)
      modifies this`heads, this`next, this`lists, this`woken, sched`state, sched.lists, sched.sleepers
      ensures Valid() && woken == old(woken) + {curr}
      ensures lists == old(lists)[b := Remove(old(lists)[b], i)]
      ensures curr in next && next[curr] == After(old(lists)[b], i)
      ensures curr in info && 0 <= info[curr].task < sched.tasks
      ensures sched.state == if old(sched.state)[info[curr].task].Blocked?
                             then old(sched.state)[info[curr].task := Ready] else old(sched.state)
    {
      hide Bucket, Owned, NoneStuck, Queues, SleepList, AtHome, RowOk, Listed;
      BucketsApart(lists, info, frames, cr3, woken);
      HeadOf(lists[b], heads[b], next);
      TakeOwned(lists, info, frames, cr3, woken, b, i);
      OwnerOf(b, curr);
      var t := info[curr].task;
      if sched.state[t].Blocked? { sched.Wakeup(t); }
      Unlink(b, i, prev, curr);
      woken := woken + {curr};
      TakeNoneStuck(frames, old(woken), curr, t, old(sched.state), sched.state);
    }

    lemma OwnerOf(b: int, n: int)
      requires Valid() && 0 <= b < BUCKETS && n in lists[b]
      ensures n in info && n in next && info[n].task in frames && frames[info[n].task].node == n
      ensures 0 <= info[n].task < sched.tasks
      ensures forall u :: u in frames && frames[u].node == n ==> u == info[n].task
    {
      hide Bucket, Listed, Queues, SleepList, AtHome, RowOk;
      assert FrameOk(info[n].task, frames[info[n].task], lists, info, cr3, woken);
    }

    /** futex_wake: the first count matching nodes of the bucket are taken and the rest keep their
        order. If it took fewer than count, every waiter with that key has been taken. */
    method Wake(c: int, uaddr: bv64, count: int, shared: bool, bitset: BitSet) returns (r: int)
      requires Valid() && 0 <= c < sched.cpus && 0 <= sched.current[c] < sched.tasks
      modifies this`heads, this`next, this`lists, this`woken, sched`state, sched.lists, sched.sleepers
      ensures Valid()
      ensures r == -14 <==> uaddr == 0 || uaddr % 4 != 0
      ensures !ValidAddress(uaddr) ==> lists == old(lists) && woken == old(woken) && sched.state == old(sched.state)
      ensures ValidAddress(uaddr) ==>
                var mine := cr3[sched.current[c]];
                var b, p := Bucket(uaddr, mine, shared), Reached(info, cr3, uaddr, shared, mine, bitset);
                var taken := Taken(old(lists)[b], p, count);
                && r == |taken|
                && lists == old(lists)[b := Left(old(lists)[b], p, count)]
                && woken == old(woken) + Set(taken)
                && Unstuck(taken, info, sched.state)
                && forall n :: n in taken ==> n in info && 0 <= info[n].task < |cr3|
                                              && Aimed(info[n], cr3[info[n].task], uaddr, shared, mine, bitset)
      ensures ValidAddress(uaddr) && r < count ==>
                forall t :: t in frames && Keyed(t, uaddr, shared, cr3[sched.current[c]], bitset) ==>
                  frames[t].node in woken && !sched.state[t].Blocked?
    {
      hide Bucket, Owned, NoneStuck, Queues, SleepList, AtHome, RowOk, Listed, FrameOk, ValidAddress;
      AddressMeans(uaddr);
      if !ValidAddress(uaddr) { return -14; }
      var mine := cr3[sched.current[c]];
      var b := Bucket(uaddr, mine, shared);
      HeadOf(lists[b], heads[b], next);
      r := Walk(b, uaddr, count, shared, mine, bitset);
      LeftRest(old(lists)[b], Reached(info, cr3, uaddr, shared, mine, bitset), count);
      if r < count {
        forall t | t in frames && Keyed(t, uaddr, shared, mine, bitset)
          ensures frames[t].node in woken && !sched.state[t].Blocked?
        {
          NotMissed(old(lists), lists, info, frames, cr3, old(woken), woken, uaddr, shared, mine, bitset, count, t);
          StuckFact(t);
        }
      }
    }

    /** A waiter a wake with this key has to reach: same word, same kind of futex, and for a private
        one the same address space. */
    ghost predicate Keyed(t: int, uaddr: bv64, shared: bool, mine: bv64, bitset: BitSet)
      reads this
    {
      && t in frames && frames[t].node in info && 0 <= t < |cr3| && frames[t].shared == shared
      && Aimed(info[frames[t].node], cr3[t], uaddr, shared, mine, bitset)
    }

    lemma StuckFact(t: int)
      requires Valid() && t in frames && frames[t].node in woken
      ensures 0 <= t < sched.tasks && !sched.state[t].Blocked?
    {
      hide Bucket, Listed, Queues, SleepList, AtHome, RowOk;
      assert FrameOk(t, frames[t], lists, info, cr3, woken);
    }

    /** One node of the walk: taken if the wake reaches it. */
    method Visit(b: int, ghost i: nat, prev: int, curr: int, uaddr: bv64, shared: bool, mine: bv64, bitset: BitSet)
      returns (took: bool, prev': int, curr': int)
      requires Valid() && 0 <= b < BUCKETS && i < |lists[b]| && curr == lists[b][i] && prev == Before(lists[b], i)
      modifies this`heads, this`next, this`lists, this`woken, sched`state, sched.lists, sched.sleepers
      ensures Valid() && curr in info && 0 <= info[curr].task < |cr3|
      ensures took == Reached(info, cr3, uaddr, shared, mine, bitset)(curr)
      ensures curr' == After(old(lists)[b], i) && (curr' != NULL <==> i + 1 < |old(lists)[b]|)
      ensures took ==>
                && prev' == prev && woken == old(woken) + {curr} && lists == old(lists)[b := Remove(old(lists)[b], i)]
                && sched.state == if old(sched.state)[info[curr].task].Blocked?
                                  then old(sched.state)[info[curr].task := Ready] else old(sched.state)
      ensures !took ==> prev' == curr && woken == old(woken) && lists == old(lists) && sched.state == old(sched.state)
    {
      hide Bucket, Owned, NoneStuck, Queues, SleepList, AtHome, RowOk, Listed, FrameOk, Distinct, Remove, Before, After, And;
      OwnerOf(b, curr);
      NotNull(lists[b], heads[b], next);
      CommonBit(info[curr].bitset, bitset);
      took := info[curr].uaddr == uaddr && (shared || cr3[info[curr].task] == mine) && And(info[curr].bitset, bitset) != NONE;
      if took {
        TakeNode(b, i, prev, curr);
        prev', curr' := prev, next[curr];
      } else {
        ListedAt(lists[b], heads[b], next, i);
        prev', curr' := curr, next[curr];
      }
    }

    /** The loop of futex_wake over one bucket. */
    method Walk(b: int, uaddr: bv64, count: int, shared: bool, mine: bv64, bitset: BitSet) returns (r: int)
      requires Valid() && 0 <= b < BUCKETS
      modifies this`heads, this`next, this`lists, this`woken, sched`state, sched.lists, sched.sleepers
      ensures Valid()
      ensures var p := Reached(info, cr3, uaddr, shared, mine, bitset);
              var taken := Taken(old(lists)[b], p, count);
              && r == |taken|
              && lists == old(lists)[b := Left(old(lists)[b], p, count)]
              && woken == old(woken) + Set(taken)
              && Unstuck(taken, info, sched.state)
    {
      hide Bucket, Owned, NoneStuck, Queues, SleepList, AtHome, RowOk, Listed, FrameOk, Taken, Left, Standing,
           Distinct, First, Last, Remove, Before, After, Reached, Unstuck, Set;
      ghost var p := Reached(info, cr3, uaddr, shared, mine, bitset);
      ghost var w := Walked(lists, b, woken, [], [], lists[b]);
      HeadOf(lists[b], heads[b], next);
      var prev, curr := NULL, heads[b];
      r := 0;
      StandingStart(w, p, count, info, sched.state);
      while curr != NULL && r < count
        invariant Valid() && w.from == old(lists) && w.bucket == b && w.marked == old(woken)
        invariant Standing(w, p, count, lists, woken, info, sched.state, prev, curr) && r == |w.taken|
        decreases |w.rest|
      {
        StandingFacts(w, p, count, lists, woken, info, sched.state, prev, curr);
        ghost var before, lists', woken', prev', curr' := sched.state, lists, woken, prev, curr;
        var took;
        took, prev, curr := Visit(b, |w.kept|, prev, curr, uaddr, shared, mine, bitset);
        if took {
          StandingTake(w, p, count, lists', woken', info, before, sched.state, prev', curr', curr);
          r := r + 1;
          w := w.(taken := w.taken + [curr'], rest := w.rest[1..]);
        } else {
          StandingKeep(w, p, count, lists, woken, info, sched.state, prev', curr', curr);
          w := w.(kept := w.kept + [curr'], rest := w.rest[1..]);
        }
      }
      StandingEnd(w, p, count, lists, woken, info, sched.state, prev, curr);
    }
  }

  lemma StillNoneStuck(frames: map<int, Frame>, t: int, f: Frame, info: map<int, Info>, woken: set<int>,
                       before: seq<State>, after: seq<State>)
    requires NoneStuck(frames, woken, before) && t !in frames && f.node !in woken
    requires |after| == |before| && forall u :: 0 <= u < |before| && u != t ==> after[u] == before[u]
    ensures NoneStuck(frames[t := f], woken, after)
  {}

  /** A node is linked in one bucket only. */
  lemma BucketsApart(lists: seq<seq<int>>, info: map<int, Info>, frames: map<int, Frame>, cr3: seq<bv64>, woken: set<int>)
    requires |lists| == BUCKETS && Owned(lists, info, frames, cr3, woken)
    ensures forall d, e, n :: 0 <= d < BUCKETS && 0 <= e < BUCKETS && n in lists[d] && n in lists[e] ==> d == e
  {
    hide FrameOk;
    forall d, e, n | 0 <= d < BUCKETS && 0 <= e < BUCKETS && n in lists[d] && n in lists[e] ensures d == e {
      assert frames[info[n].task].bucket == d;
    }
  }

  lemma LeaveNoneStuck(frames: map<int, Frame>, woken: set<int>, t: int, state: seq<State>)
    requires NoneStuck(frames, woken, state) && t in frames
    ensures NoneStuck(frames - {t}, woken - {frames[t].node}, state)
  {}

  lemma HeadOf(q: seq<int>, head: int, next: map<int, int>)
    requires Listed(q, head, next)
    ensures head == First(q) == (if |q| > 0 then q[0] else NULL) && (head != NULL <==> |q| > 0) && Distinct(q)
  {}

  lemma PlaceAt(q: seq<int>, i: nat)
    requires i < |q| && Distinct(q)
    ensures Place(q, q[i]) == i
  {}

  lemma TakeNoneStuck(frames: map<int, Frame>, woken: set<int>, n: int, t: int, before: seq<State>, after: seq<State>)
    requires NoneStuck(frames, woken, before) && |after| == |before|
    requires forall u :: u in frames && frames[u].node == n ==> u == t
    requires 0 <= t < |before| && !after[t].Blocked? && forall u :: 0 <= u < |before| && u != t ==> after[u] == before[u]
    ensures NoneStuck(frames, woken + {n}, after)
  {}

  ghost function Set(ns: seq<int>): set<int> { set n | n in ns }

  lemma SetAppend(ns: seq<int>, n: int)
    ensures Set(ns + [n]) == Set(ns) + {n} && Set([]) == {}
  {}

  /** None of the waiters of these nodes is blocked. */
  ghost predicate Unstuck(ns: seq<int>, info: map<int, Info>, state: seq<State>) {
    forall n :: n in ns ==> n in info && 0 <= info[n].task < |state| && !state[info[n].task].Blocked?
  }

  lemma UnstuckTake(ns: seq<int>, n: int, info: map<int, Info>, before: seq<State>, after: seq<State>)
    requires Unstuck(ns, info, before) && n in info && 0 <= info[n].task < |before|
    requires after == if before[info[n].task].Blocked? then before[info[n].task := Ready] else before
    ensures Unstuck(ns + [n], info, after)
  {}

  /** Where a walk over q stands: it has taken and kept these, and has the rest to go. */
  ghost predicate Progress(q: seq<int>, p: int -> bool, count: int, taken: seq<int>, kept: seq<int>, rest: seq<int>) {
    && Taken(q, p, count) == taken + Taken(rest, p, count - |taken|)
    && Left(q, p, count) == kept + Left(rest, p, count - |taken|)
  }

  lemma ProgressStart(q: seq<int>, p: int -> bool, count: int)
    ensures Progress(q, p, count, [], [], q)
  {}

  lemma ProgressTake(q: seq<int>, p: int -> bool, count: int, taken: seq<int>, kept: seq<int>, rest: seq<int>)
    requires Progress(q, p, count, taken, kept, rest) && rest != [] && |taken| < count && p(rest[0])
    ensures Progress(q, p, count, taken + [rest[0]], kept, rest[1..])
  {
    assert taken + ([rest[0]] + Taken(rest[1..], p, count - |taken| - 1)) == taken + [rest[0]] + Taken(rest[1..], p, count - |taken| - 1);
  }

  lemma ProgressKeep(q: seq<int>, p: int -> bool, count: int, taken: seq<int>, kept: seq<int>, rest: seq<int>)
    requires Progress(q, p, count, taken, kept, rest) && rest != [] && |taken| < count && !p(rest[0])
    ensures Progress(q, p, count, taken, kept + [rest[0]], rest[1..])
  {
    assert kept + ([rest[0]] + Left(rest[1..], p, count - |taken|)) == kept + [rest[0]] + Left(rest[1..], p, count - |taken|);
  }

  lemma ProgressEnd(q: seq<int>, p: int -> bool, count: int, taken: seq<int>, kept: seq<int>, rest: seq<int>)
    requires Progress(q, p, count, taken, kept, rest) && (rest == [] || |taken| >= count)
    ensures Taken(q, p, count) == taken && Left(q, p, count) == kept + rest
  {}

  /** A walk over one bucket: the lists and marks it started from, and the nodes it has taken, kept
      and still has to visit. */
  datatype Walked = Walked(from: seq<seq<int>>, bucket: int, marked: set<int>, taken: seq<int>, kept: seq<int>, rest: seq<int>)

  /** The table and the pointers agree with how far the walk is. */
  ghost predicate Standing(w: Walked, p: int -> bool, count: int, lists: seq<seq<int>>, woken: set<int>,
                           info: map<int, Info>, state: seq<State>, prev: int, curr: int)
  {
    && 0 <= w.bucket < |w.from| && lists == w.from[w.bucket := w.kept + w.rest]
    && woken == w.marked + Set(w.taken) && Unstuck(w.taken, info, state)
    && prev == Last(w.kept) && curr == First(w.rest) && (curr != NULL <==> w.rest != [])
    && Progress(w.from[w.bucket], p, count, w.taken, w.kept, w.rest)
  }

  lemma StandingStart(w: Walked, p: int -> bool, count: int, info: map<int, Info>, state: seq<State>)
    requires 0 <= w.bucket < |w.from| && w.taken == w.kept == [] && w.rest == w.from[w.bucket]
    requires w.rest != [] ==> w.rest[0] != NULL
    ensures Standing(w, p, count, w.from, w.marked, info, state, NULL, First(w.rest))
  {
    ProgressStart(w.rest, p, count);
    assert w.kept + w.rest == w.rest;
    assert w.from == w.from[w.bucket := w.rest];
    assert w.marked + Set([]) == w.marked;
  }

  lemma StandingFacts(w: Walked, p: int -> bool, count: int, lists: seq<seq<int>>, woken: set<int>,
                      info: map<int, Info>, state: seq<State>, prev: int, curr: int)
    requires Standing(w, p, count, lists, woken, info, state, prev, curr) && curr != NULL
    ensures w.rest != [] && 0 <= w.bucket < |lists| && |w.kept| < |lists[w.bucket]|
    ensures curr == lists[w.bucket][|w.kept|] && prev == Before(lists[w.bucket], |w.kept|)
  {
    EndsOf(w.kept, w.rest);
  }

  lemma StandingTake(w: Walked, p: int -> bool, count: int, lists: seq<seq<int>>, woken: set<int>, info: map<int, Info>,
                     before: seq<State>, after: seq<State>, prev: int, curr: int, curr': int)
    requires Standing(w, p, count, lists, woken, info, before, prev, curr) && curr != NULL && |w.taken| < count && p(curr)
    requires curr in info && 0 <= info[curr].task < |before| && |w.kept| < |lists[w.bucket]|
    requires after == if before[info[curr].task].Blocked? then before[info[curr].task := Ready] else before
    requires curr' == After(lists[w.bucket], |w.kept|) && (curr' != NULL <==> |w.kept| + 1 < |lists[w.bucket]|)
    ensures Standing(w.(taken := w.taken + [curr], rest := w.rest[1..]), p, count,
                     lists[w.bucket := Remove(lists[w.bucket], |w.kept|)], woken + {curr}, info, after, prev, curr')
  {
    hide Progress, Unstuck, Set, First, Last, Remove, Before, After;
    TakeLists(w, lists);
    ProgressTake(w.from[w.bucket], p, count, w.taken, w.kept, w.rest);
    UnstuckTake(w.taken, curr, info, before, after);
    SetAppend(w.taken, curr);
  }

  lemma TakeLists(w: Walked, lists: seq<seq<int>>)
    requires 0 <= w.bucket < |w.from| && lists == w.from[w.bucket := w.kept + w.rest] && w.rest != []
    ensures lists[w.bucket := Remove(lists[w.bucket], |w.kept|)] == w.from[w.bucket := w.kept + w.rest[1..]]
    ensures First(w.rest) == w.rest[0] && First(w.rest[1..]) == After(lists[w.bucket], |w.kept|)
    ensures |w.kept| + 1 < |lists[w.bucket]| <==> w.rest[1..] != []
  {
    hide First, Last, Remove, Before, After;
    EndsOf(w.kept, w.rest);
  }

  lemma StandingKeep(w: Walked, p: int -> bool, count: int, lists: seq<seq<int>>, woken: set<int>, info: map<int, Info>,
                     state: seq<State>, prev: int, curr: int, curr': int)
    requires Standing(w, p, count, lists, woken, info, state, prev, curr) && curr != NULL && |w.taken| < count && !p(curr)
    requires |w.kept| < |lists[w.bucket]|
    requires curr' == After(lists[w.bucket], |w.kept|) && (curr' != NULL <==> |w.kept| + 1 < |lists[w.bucket]|)
    ensures Standing(w.(kept := w.kept + [curr], rest := w.rest[1..]), p, count, lists, woken, info, state, curr, curr')
  {
    hide Progress, Unstuck, Set, First, Last, Remove, Before, After;
    EndsOf(w.kept, w.rest);
    ProgressKeep(w.from[w.bucket], p, count, w.taken, w.kept, w.rest);
  }

  lemma StandingEnd(w: Walked, p: int -> bool, count: int, lists: seq<seq<int>>, woken: set<int>, info: map<int, Info>,
                    state: seq<State>, prev: int, curr: int)
    requires Standing(w, p, count, lists, woken, info, state, prev, curr) && (curr == NULL || |w.taken| >= count)
    ensures 0 <= w.bucket < |w.from| && Taken(w.from[w.bucket], p, count) == w.taken
    ensures lists == w.from[w.bucket := Left(w.from[w.bucket], p, count)]
    ensures woken == w.marked + Set(w.taken) && Unstuck(w.taken, info, state)
  {
    ProgressEnd(w.from[w.bucket], p, count, w.taken, w.kept, w.rest);
  }

  /** The pointers of a walk between kept and rest, and how they move. */
  lemma EndsOf(kept: seq<int>, rest: seq<int>)
    ensures kept == [] ==> Last(kept) == NULL && kept + rest == rest && First(rest) == First(kept + rest)
    ensures rest != [] ==>
              && First(rest) == rest[0] == (kept + rest)[|kept|] && rest[0] in kept + rest
              && Last(kept) == Before(kept + rest, |kept|)
              && First(rest[1..]) == After(kept + rest, |kept|)
              && Last(kept + [rest[0]]) == rest[0]
              && Remove(kept + rest, |kept|) == kept + rest[1..]
              && kept + [rest[0]] + rest[1..] == kept + rest
  {}

  lemma NotNull(q: seq<int>, head: int, next: map<int, int>)
    requires Listed(q, head, next)
    ensures forall i :: 0 <= i < |q| ==> (After(q, i) == NULL <==> i + 1 == |q|)
  {}

  /** A wake's key, and the value a store left at one word. */
  datatype Signal = Signal(uaddr: bv64, shared: bool, mine: bv64, bitset: BitSet, spot: int, v: bv32)

  /** A waiter of address space space that such a wake has to reach, on that word but another value. */
  ghost predicate Behind(g: Signal, f: Frame, i: Info, space: bv64, place: (bv64, bv64) -> int) {
    && f.shared == g.shared && Aimed(i, space, g.uaddr, g.shared, g.mine, g.bitset)
    && place(space, g.uaddr) == g.spot && f.val != g.v
  }

  /** No such waiter is still linked. */
  ghost predicate Settled(g: Signal, frames: map<int, Frame>, info: map<int, Info>, cr3: seq<bv64>, woken: set<int>,
                          place: (bv64, bv64) -> int)
  {
    forall t :: t in frames && 0 <= t < |cr3| && frames[t].node in info && frames[t].node !in woken ==>
                  !Behind(g, frames[t], info[frames[t].node], cr3[t], place)
  }

  lemma SettledWoken(g: Signal, frames: map<int, Frame>, info: map<int, Info>, cr3: seq<bv64>, woken: set<int>,
                     woken': set<int>, place: (bv64, bv64) -> int)
    requires Settled(g, frames, info, cr3, woken, place) && woken <= woken'
    ensures Settled(g, frames, info, cr3, woken', place)
  {}

  /** A new waiter has just read the word. */
  lemma SettledQueue(g: Signal, frames: map<int, Frame>, info: map<int, Info>, cr3: seq<bv64>, woken: set<int>,
                     place: (bv64, bv64) -> int, t: int, f: Frame, i: Info, words: map<int, bv32>)
    requires Settled(g, frames, info, cr3, woken, place) && f.node !in info && 0 <= t < |cr3|
    requires forall u :: u in frames ==> frames[u].node in info
    requires f.val == WordAt(words, place(cr3[t], i.uaddr)) && WordAt(words, g.spot) == g.v
    ensures Settled(g, frames[t := f], info[f.node := i], cr3, woken, place)
  {}

  lemma SettledLeave(g: Signal, frames: map<int, Frame>, info: map<int, Info>, cr3: seq<bv64>, woken: set<int>,
                     place: (bv64, bv64) -> int, t: int)
    requires Settled(g, frames, info, cr3, woken, place) && t in frames
    ensures Settled(g, frames - {t}, info - {frames[t].node}, cr3, woken - {frames[t].node}, place)
  {}

  /** A waiter that queued under the key is in the bucket the wake walks, so a wake that stops short
      of its count has taken its node. */
  lemma NotMissed(lists: seq<seq<int>>, lists': seq<seq<int>>, info: map<int, Info>, frames: map<int, Frame>, cr3: seq<bv64>,
                  woken: set<int>, woken': set<int>, uaddr: bv64, shared: bool, mine: bv64, bitset: BitSet, count: int, t: int)
    requires |lists| == |lists'| == BUCKETS && Owned(lists, info, frames, cr3, woken) && t in frames
    requires frames[t].node in info && 0 <= t < |cr3| && frames[t].shared == shared
    requires Aimed(info[frames[t].node], cr3[t], uaddr, shared, mine, bitset)
    requires Distinct(lists[Bucket(uaddr, mine, shared)])
    requires var taken := Taken(lists[Bucket(uaddr, mine, shared)], Reached(info, cr3, uaddr, shared, mine, bitset), count);
             |taken| < count && woken' == woken + Set(taken)
    ensures frames[t].node in woken'
  {
    var f := frames[t];
    assert FrameOk(t, f, lists, info, cr3, woken);
    assert Bucket(info[f.node].uaddr, cr3[t], f.shared) == Bucket(uaddr, mine, shared);
    TakenMembers(lists[f.bucket], Reached(info, cr3, uaddr, shared, mine, bitset), count, f.node);
  }
}
