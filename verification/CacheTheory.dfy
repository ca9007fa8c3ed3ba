/** Every run of the cached device: coherence with the disk, and refinement of a plain
    least-recently-used list. */
module CacheTheory {
  import opened Basics
  import opened BlockCache

  type Disks = map<nat, seq<Sector>>

  predicate OnDisk(disks: Disks, k: Key) {
    k.volume in disks && k.sector < |disks[k.volume]|
  }

  function At(disks: Disks, k: Key): Sector
    requires OnDisk(disks, k)
  {
    disks[k.volume][k.sector]
  }

  function Put(disks: Disks, k: Key, d: Sector): Disks
    requires OnDisk(disks, k)
  {
    var sectors: seq<Sector> := disks[k.volume][k.sector := d];
    disks[k.volume := sectors]
  }

  /** Every valid entry of these disks equals the sector it stands for. */
  predicate Coherent(es: seq<Entry>, disks: Disks) {
    forall i :: 0 <= i < |es| && es[i].valid && es[i].key.volume in disks ==>
      OnDisk(disks, es[i].key) && es[i].data == At(disks, es[i].key)
  }

  /** Storing what the disk holds at k keeps uniqueness and coherence, whichever slot is taken. */
  lemma StoredCoherent(es: seq<Entry>, k: Key, d: Sector, stamp: nat, es': seq<Entry>, disks: Disks)
    requires Unique(es) && Coherent(es, disks) && OnDisk(disks, k)
    requires Stored(es, k, d, stamp, es')
    ensures |es'| == |es| && Unique(es') && Coherent(es', Put(disks, k, d))
  {
    var i := Find(es, k);
    if i < |es| {
      forall j | 0 <= j < |es| && j != i && es[j].valid
        ensures es[j].key != k
      {}
    }
  }

  /** A recency order: the valid slots, most recently stamped first. */
  predicate Order(es: seq<Entry>, counter: nat, order: seq<nat>) {
    && Slots(es, order)
    && Recent(Stamps(es, order), counter)
    && Covers(es, order)
  }

  predicate Slots(es: seq<Entry>, order: seq<nat>) {
    forall p :: 0 <= p < |order| ==> order[p] < |es| && es[order[p]].valid
  }

  /** Strictly falling stamps, none above the counter. */
  predicate Recent(stamps: seq<nat>, counter: nat) {
    && (forall p :: 0 <= p < |stamps| ==> stamps[p] <= counter)
    && (forall p, q :: 0 <= p < q < |stamps| ==> stamps[p] > stamps[q])
  }

  predicate Covers(es: seq<Entry>, order: seq<nat>) {
    forall i :: 0 <= i < |es| && es[i].valid ==> i in order
  }

  function Stamps(es: seq<Entry>, order: seq<nat>): (s: seq<nat>)
    requires Slots(es, order)
    ensures |s| == |order|
    ensures forall p :: 0 <= p < |order| ==> s[p] == es[order[p]].lastAccess
  {
    seq(|order|, p requires 0 <= p < |order| => es[order[p]].lastAccess)
  }

  /** The cache as a list of sectors, most recent first. */
  function View(es: seq<Entry>, order: seq<nat>): (v: seq<(Key, Sector)>)
    requires Slots(es, order)
    ensures |v| == |order|
    ensures forall p :: 0 <= p < |order| ==> v[p] == (es[order[p]].key, es[order[p]].data)
  {
    seq(|order|, p requires 0 <= p < |order| => (es[order[p]].key, es[order[p]].data))
  }

  /** The reference cache: a list without repeated keys, most recent first. */
  function Without(v: seq<(Key, Sector)>, k: Key): seq<(Key, Sector)> {
    if |v| == 0 then [] else if v[0].0 == k then Without(v[1..], k) else [v[0]] + Without(v[1..], k)
  }

  function LruStore(v: seq<(Key, Sector)>, k: Key, d: Sector): seq<(Key, Sector)> {
    var r := [(k, d)] + Without(v, k);
    if |r| <= SIZE then r else r[..SIZE]
  }

  ghost function Elements(s: seq<nat>): set<nat> { set x | x in s }

  lemma {:induction false} ElementsSize(s: seq<nat>)
    ensures |Elements(s)| <= |s|
    ensures (forall p, q :: 0 <= p < q < |s| ==> s[p] != s[q]) ==> |Elements(s)| == |s|
  {
    if |s| > 0 {
      var t := s[..|s| - 1];
      ElementsSize(t);
      assert s == t + [s[|s| - 1]];
      assert Elements(s) == Elements(t) + {s[|s| - 1]};
      if forall p, q :: 0 <= p < q < |s| ==> s[p] != s[q] {
        assert s[|s| - 1] !in t;
      }
    }
  }

  ghost function Below(n: nat): (s: set<nat>)
    ensures |s| == n && forall x: nat :: x in s <==> x < n
  {
    if n == 0 then {} else
      var s := Below(n - 1);
      assert n - 1 !in s;
      s + {n - 1}
  }

  lemma {:induction false} SubsetSize(a: set<nat>, b: set<nat>)
    requires a <= b
    ensures |a| <= |b|
  {
    if a != {} {
      var x :| x in a;
      SubsetSize(a - {x}, b - {x});
    }
  }

  /** Distinct numbers below n are at most n many. */
  lemma AtMost(s: seq<nat>, n: nat)
    requires forall p :: 0 <= p < |s| ==> s[p] < n
    requires forall p, q :: 0 <= p < q < |s| ==> s[p] != s[q]
    ensures |s| <= n
  {
    ElementsSize(s);
    SubsetSize(Elements(s), Below(n));
  }

  /** A sequence that contains every number below n has at least n places. */
  lemma AtLeast(s: seq<nat>, n: nat)
    requires forall i :: 0 <= i < n ==> i in s
    ensures |s| >= n
  {
    ElementsSize(s);
    SubsetSize(Below(n), Elements(s));
  }

  lemma {:induction false} WithoutAbsent(v: seq<(Key, Sector)>, k: Key)
    requires forall p :: 0 <= p < |v| ==> v[p].0 != k
    ensures Without(v, k) == v
  {
    if |v| > 0 {
      WithoutAbsent(v[1..], k);
    }
  }

  lemma {:induction false} WithoutPresent(v: seq<(Key, Sector)>, k: Key, p: nat)
    requires p < |v| && v[p].0 == k
    requires forall q :: 0 <= q < |v| && q != p ==> v[q].0 != k
    ensures Without(v, k) == v[..p] + v[p + 1..]
  {
    if p == 0 {
      WithoutAbsent(v[1..], k);
    } else {
      WithoutPresent(v[1..], k, p - 1);
      assert v[1..][..p - 1] == v[1..p] && v[1..][p..] == v[p + 1..];
      assert v[..p] == [v[0]] + v[1..p];
    }
  }

  lemma Distinct(es: seq<Entry>, counter: nat, order: seq<nat>)
    requires Order(es, counter, order)
    ensures forall p, q :: 0 <= p < |order| && 0 <= q < |order| && p != q ==> order[p] != order[q]
  {
    var s := Stamps(es, order);
    forall p, q | 0 <= p < |order| && 0 <= q < |order| && p != q
      ensures order[p] != order[q]
    {
      assert s[p] != s[q];
    }
  }

  /** The order with its slot at place p moved to the front. */
  function Front(order: seq<nat>, p: nat): (r: seq<nat>)
    requires p < |order|
    ensures |r| == |order| && r[0] == order[p]
    ensures forall q :: 0 <= q < |order| ==> order[q] in r
  {
    var r := [order[p]] + (order[..p] + order[p + 1..]);
    assert forall q :: 0 <= q < |order| ==> order[q] == r[if q < p then q + 1 else if q == p then 0 else q];
    r
  }

  lemma RecentFront(s: seq<nat>, counter: nat, p: nat)
    requires Recent(s, counter) && p < |s|
    ensures Recent([counter + 1] + (s[..p] + s[p + 1..]), counter + 1)
  {
    var r := s[..p] + s[p + 1..];
    assert forall q :: 0 <= q < |r| ==> r[q] == s[if q < p then q else q + 1];
  }

  /** Restamping the slot at place p moves it to the front. */
  lemma OrderFront(es: seq<Entry>, counter: nat, order: seq<nat>, p: nat, e: Entry)
    requires Order(es, counter, order) && p < |order| && e.valid && e.lastAccess == counter + 1
    ensures Order(es[order[p] := e], counter + 1, Front(order, p))
    ensures View(es[order[p] := e], Front(order, p))
         == [(e.key, e.data)] + (View(es, order)[..p] + View(es, order)[p + 1..])
  {
    var es', r := es[order[p] := e], Front(order, p);
    Distinct(es, counter, order);
    assert Slots(es', r);
    var s := Stamps(es, order);
    RecentFront(s, counter, p);
    assert Stamps(es', r) == [counter + 1] + (s[..p] + s[p + 1..]);
    assert Covers(es', r);
  }

  /** Filling a free slot puts it in front. */
  lemma OrderInsert(es: seq<Entry>, counter: nat, order: seq<nat>, v: nat, e: Entry)
    requires Order(es, counter, order) && v < |es| && !es[v].valid && e.valid && e.lastAccess == counter + 1
    ensures Order(es[v := e], counter + 1, [v] + order)
    ensures View(es[v := e], [v] + order) == [(e.key, e.data)] + View(es, order)
  {
    var es', r := es[v := e], [v] + order;
    assert forall p :: 0 <= p < |order| ==> order[p] != v;
    assert Slots(es', r);
    assert Stamps(es', r) == [counter + 1] + Stamps(es, order);
    assert Recent(Stamps(es', r), counter + 1);
  }

  /** Where k is in the list, and that it is nowhere else. */
  lemma KeyPlace(es: seq<Entry>, counter: nat, order: seq<nat>, k: Key) returns (p: nat)
    requires Unique(es) && Order(es, counter, order) && Find(es, k) < |es|
    ensures p < |order| && order[p] == Find(es, k)
    ensures Without(View(es, order), k) == View(es, order)[..p] + View(es, order)[p + 1..]
  {
    var i := Find(es, k);
    p :| 0 <= p < |order| && order[p] == i;
    Distinct(es, counter, order);
    var v := View(es, order);
    forall q | 0 <= q < |v| && q != p
      ensures v[q].0 != k
    {
      assert order[q] != i;
    }
    WithoutPresent(v, k, p);
  }

  /** Restamping the slot that holds k. */
  lemma HitRefines(es: seq<Entry>, counter: nat, order: seq<nat>, k: Key, d: Sector) returns (order': seq<nat>)
    requires |es| == SIZE && Unique(es) && Order(es, counter, order) && Find(es, k) < |es|
    ensures Order(es[Find(es, k) := Entry(k, d, true, counter + 1)], counter + 1, order')
    ensures View(es[Find(es, k) := Entry(k, d, true, counter + 1)], order') == LruStore(View(es, order), k, d)
  {
    hide Unique, Recent, Covers;
    var p := KeyPlace(es, counter, order, k);
    order' := Front(order, p);
    OrderFront(es, counter, order, p, Entry(k, d, true, counter + 1));
    Distinct(es, counter, order);
    AtMost(order, SIZE);
  }

  lemma ViewAbsent(es: seq<Entry>, counter: nat, order: seq<nat>, k: Key)
    requires Order(es, counter, order) && Find(es, k) == |es|
    ensures Without(View(es, order), k) == View(es, order)
  {
    forall p | 0 <= p < |order|
      ensures View(es, order)[p].0 != k
    {
      assert !Holds(es[order[p]], k);
    }
    WithoutAbsent(View(es, order), k);
  }

  /** The least stamp is the last in the order. */
  lemma LeastIsLast(es: seq<Entry>, counter: nat, order: seq<nat>, v: nat)
    requires Order(es, counter, order) && v < |es| && es[v].valid
    requires forall i :: 0 <= i < |es| ==> es[v].lastAccess <= es[i].lastAccess
    ensures |order| > 0 && order[|order| - 1] == v
  {
    var p :| 0 <= p < |order| && order[p] == v;
    var s := Stamps(es, order);
    assert s[p] <= s[|order| - 1];
  }

  /** With stamps below the maximum there always is a victim. */
  lemma SomeVictim(es: seq<Entry>, counter: nat, order: seq<nat>) returns (v: nat)
    requires |es| == SIZE && Order(es, counter, order) && counter < STAMP_MAX
    ensures v < |es| && IsVictim(es, v)
  {
    if i :| 0 <= i < |es| && !es[i].valid {
      v := i;
    } else {
      assert es[0].valid && 0 in order;
      v := order[|order| - 1];
      var s := Stamps(es, order);
      forall i | 0 <= i < |es|
        ensures es[v].lastAccess <= es[i].lastAccess
      {
        assert es[i].valid;
        var p :| 0 <= p < |order| && order[p] == i;
        assert s[p] >= s[|order| - 1];
      }
    }
  }

  lemma MissRefines(es: seq<Entry>, counter: nat, order: seq<nat>, k: Key, d: Sector, es': seq<Entry>)
    returns (order': seq<nat>)
    requires |es| == SIZE && Order(es, counter, order) && counter < STAMP_MAX
    requires Stored(es, k, d, counter + 1, es') && Find(es, k) == |es|
    ensures Order(es', counter + 1, order')
    ensures |order| <= SIZE
    ensures View(es', order') == if |order| < SIZE then [(k, d)] + View(es, order) else [(k, d)] + View(es, order)[..SIZE - 1]
  {
    Distinct(es, counter, order);
    AtMost(order, SIZE);
    var e := Entry(k, d, true, counter + 1);
    var w := SomeVictim(es, counter, order);
    var v :| 0 <= v < |es| && IsVictim(es, v) && es' == es[v := e];
    if !es[v].valid {
      assert v !in order;
      order' := [v] + order;
      OrderInsert(es, counter, order, v, e);
      AtMost(order', SIZE);
    } else {
      LeastIsLast(es, counter, order, v);
      AtLeast(order, SIZE);
      order' := Front(order, SIZE - 1);
      OrderFront(es, counter, order, SIZE - 1, e);
    }
  }

  /** bcache_write refines the list: the key moves to the front and the list keeps its 128 most
      recent keys, so the one evicted is the least recently used. */
  lemma StoreRefines(es: seq<Entry>, counter: nat, order: seq<nat>, k: Key, d: Sector, es': seq<Entry>)
    returns (order': seq<nat>)
    requires |es| == SIZE && Unique(es) && Order(es, counter, order) && counter < STAMP_MAX
    requires Stored(es, k, d, counter + 1, es')
    ensures Order(es', counter + 1, order')
    ensures View(es', order') == LruStore(View(es, order), k, d)
  {
    if Find(es, k) < SIZE {
      order' := HitRefines(es, counter, order, k, d);
    } else {
      ViewAbsent(es, counter, order, k);
      order' := MissRefines(es, counter, order, k, d, es');
    }
  }

  /** Invalidating a slot takes its key out of the list. */
  lemma InvalidateRefines(es: seq<Entry>, counter: nat, order: seq<nat>, k: Key) returns (order': seq<nat>)
    requires Unique(es) && Order(es, counter, order) && Find(es, k) < |es|
    ensures Order(es[Find(es, k) := es[Find(es, k)].(valid := false)], counter, order')
    ensures View(es[Find(es, k) := es[Find(es, k)].(valid := false)], order') == Without(View(es, order), k)
  {
    var p := KeyPlace(es, counter, order, k);
    order' := order[..p] + order[p + 1..];
    OrderRemove(es, counter, order, p, es[Find(es, k)].(valid := false));
  }

  lemma OrderRemove(es: seq<Entry>, counter: nat, order: seq<nat>, p: nat, e: Entry)
    requires Order(es, counter, order) && p < |order| && !e.valid
    ensures Order(es[order[p] := e], counter, order[..p] + order[p + 1..])
    ensures View(es[order[p] := e], order[..p] + order[p + 1..]) == View(es, order)[..p] + View(es, order)[p + 1..]
  {
    var es', r := es[order[p] := e], order[..p] + order[p + 1..];
    Distinct(es, counter, order);
    assert forall q :: 0 <= q < |r| ==> r[q] == order[if q < p then q else q + 1];
    assert Slots(es', r);
    var s := Stamps(es, order);
    assert Stamps(es', r) == s[..p] + s[p + 1..];
    RecentRemove(s, counter, p);
    CoversRemove(es, order, p, e);
  }

  lemma RecentRemove(s: seq<nat>, counter: nat, p: nat)
    requires Recent(s, counter) && p < |s|
    ensures Recent(s[..p] + s[p + 1..], counter)
  {
    var r := s[..p] + s[p + 1..];
    assert forall q :: 0 <= q < |r| ==> r[q] == s[if q < p then q else q + 1];
  }

  lemma CoversRemove(es: seq<Entry>, order: seq<nat>, p: nat, e: Entry)
    requires Covers(es, order) && p < |order| && order[p] < |es| && !e.valid
    ensures Covers(es[order[p] := e], order[..p] + order[p + 1..])
  {
    var es', r := es[order[p] := e], order[..p] + order[p + 1..];
    forall j | 0 <= j < |es'| && es'[j].valid
      ensures j in r
    {
      var q :| 0 <= q < |order| && order[q] == j;
      assert r[if q < p then q else q - 1] == j;
    }
  }

  /** The device a file system sees: cache entries, stamp counter and what the disks hold. */
  datatype Device = Device(es: seq<Entry>, counter: nat, disks: Disks)

  /** One locked call; io says whether the disk driver would report success. */
  datatype Op =
    | ReadSector(k: Key, io: bool)
    | WriteSector(k: Key, d: Sector, io: bool)
    | Invalidate(k: Key)
    | InvalidateAll

  /** A store into the cache, as Cache.Write leaves it. */
  ghost predicate CacheStore(s: Device, k: Key, d: Sector, s': Device) {
    && Stored(s.es, k, d, Tick(s.counter), s'.es)
    && s'.counter == (if Placed(s.es, k) then Tick(s.counter) else s.counter)
  }

  ghost predicate Step(s: Device, op: Op, s': Device, out: Option<Sector>) {
    match op
    case ReadSector(k, io) =>
      var i := Find(s.es, k);
      && OnDisk(s.disks, k) && s'.disks == s.disks
      && if i < |s.es| then
           && out == Some(s.es[i].data)
           && s'.counter == Tick(s.counter)
           && s'.es == s.es[i := s.es[i].(lastAccess := s'.counter)]
         else if io then
           out == Some(At(s.disks, k)) && CacheStore(s, k, At(s.disks, k), s')
         else
           out == None && s' == s
    case WriteSector(k, d, io) =>
      && OnDisk(s.disks, k) && out == None
      && if io then s'.disks == Put(s.disks, k, d) && CacheStore(s, k, d, s') else s' == s
    case Invalidate(k) =>
      var i := Find(s.es, k);
      && s'.disks == s.disks && s'.counter == s.counter && out == None
      && s'.es == if i < |s.es| then s.es[i := s.es[i].(valid := false)] else s.es
    case InvalidateAll =>
      && s'.disks == s.disks && s'.counter == s.counter && out == None && |s'.es| == |s.es|
      && forall i :: 0 <= i < |s.es| ==> s'.es[i] == s.es[i].(valid := false)
  }

  ghost predicate Good(s: Device) {
    |s.es| == SIZE && Unique(s.es) && Coherent(s.es, s.disks)
  }

  lemma PutSame(disks: Disks, k: Key)
    requires OnDisk(disks, k)
    ensures Put(disks, k, At(disks, k)) == disks
  {
    assert disks[k.volume][k.sector := At(disks, k)] == disks[k.volume];
  }

  lemma StepGood(s: Device, op: Op, s': Device, out: Option<Sector>)
    requires Good(s) && Step(s, op, s', out)
    ensures Good(s')
    ensures op.ReadSector? && out.Some? ==> out.value == At(s.disks, op.k)
    ensures op.ReadSector? && op.io ==> out.Some?
  {
    match op
    case ReadSector(k, io) =>
      if Find(s.es, k) == |s.es| && io {
        StoredCoherent(s.es, k, At(s.disks, k), Tick(s.counter), s'.es, s.disks);
        PutSame(s.disks, k);
      }
    case WriteSector(k, d, io) =>
      if io {
        StoredCoherent(s.es, k, d, Tick(s.counter), s'.es, s.disks);
      }
    case Invalidate(k) =>
    case InvalidateAll =>
  }

  /** The same step on the reference list. */
  function LruStep(v: seq<(Key, Sector)>, op: Op, disks: Disks, hit: bool): seq<(Key, Sector)> {
    match op
    case ReadSector(k, io) => if (hit || io) && OnDisk(disks, k) then LruStore(v, k, At(disks, k)) else v
    case WriteSector(k, d, io) => if io then LruStore(v, k, d) else v
    case Invalidate(k) => Without(v, k)
    case InvalidateAll => []
  }

  ghost predicate Refines(s: Device, v: seq<(Key, Sector)>, order: seq<nat>) {
    Order(s.es, s.counter, order) && View(s.es, order) == v
  }

  lemma AllInvalid(es: seq<Entry>, counter: nat)
    requires forall i :: 0 <= i < |es| ==> !es[i].valid
    ensures Order(es, counter, []) && View(es, []) == []
  {}

  lemma StepRefines(s: Device, op: Op, s': Device, out: Option<Sector>, v: seq<(Key, Sector)>, order: seq<nat>)
    returns (order': seq<nat>)
    requires Good(s) && Step(s, op, s', out) && Refines(s, v, order) && s.counter < STAMP_MAX
    ensures Refines(s', LruStep(v, op, s.disks, out.Some?), order')
    ensures s'.counter <= s.counter + 1
  {
    hide Recent, Covers, LruStore, Without, Stored, Unique, View, Stamps;
    match op {
      case ReadSector(k, io) =>
        if Find(s.es, k) < |s.es| {
          order' := HitRefines(s.es, s.counter, order, k, At(s.disks, k));
        } else if io {
          var w := SomeVictim(s.es, s.counter, order);
          order' := StoreRefines(s.es, s.counter, order, k, At(s.disks, k), s'.es);
        } else {
          order' := order;
        }
      case WriteSector(k, d, io) =>
        if io {
          var w := SomeVictim(s.es, s.counter, order);
          order' := StoreRefines(s.es, s.counter, order, k, d, s'.es);
        } else {
          order' := order;
        }
      case Invalidate(k) =>
        if Find(s.es, k) < |s.es| {
          order' := InvalidateRefines(s.es, s.counter, order, k);
        } else {
          ViewAbsent(s.es, s.counter, order, k);
          order' := order;
        }
      case InvalidateAll =>
        order' := [];
        AllInvalid(s'.es, s'.counter);
    }
  }

  ghost predicate Run(states: seq<Device>, ops: seq<Op>, outs: seq<Option<Sector>>) {
    && |states| == |ops| + 1 && |outs| == |ops|
    && forall n :: 0 <= n < |ops| ==> Step(states[n], ops[n], states[n + 1], outs[n])
  }

  /** In every run from a coherent device, at every moment there is at most one entry per sector
      and it equals the disk; so every read returns what an uncached read would. */
  lemma {:induction false} EveryRunCoherent(states: seq<Device>, ops: seq<Op>, outs: seq<Option<Sector>>, n: nat)
    requires Run(states, ops, outs) && Good(states[0]) && n <= |ops|
    ensures Good(states[n])
    ensures n < |ops| && ops[n].ReadSector? && outs[n].Some? ==>
              OnDisk(states[n].disks, ops[n].k) && outs[n].value == At(states[n].disks, ops[n].k)
  {
    if n > 0 {
      EveryRunCoherent(states, ops, outs, n - 1);
      StepGood(states[n - 1], ops[n - 1], states[n], outs[n - 1]);
    }
    if n < |ops| {
      StepGood(states[n], ops[n], states[n + 1], outs[n]);
    }
  }

  /** The reference list after the first n operations of a run. */
  ghost function LruRun(states: seq<Device>, ops: seq<Op>, outs: seq<Option<Sector>>, v: seq<(Key, Sector)>, n: nat): seq<(Key, Sector)>
    requires Run(states, ops, outs) && n <= |ops|
  {
    if n == 0 then v
    else LruStep(LruRun(states, ops, outs, v, n - 1), ops[n - 1], states[n - 1].disks, outs[n - 1].Some?)
  }

  /** Until the stamp counter wraps, the stamped array is the recency list. */
  lemma {:induction false} EveryRunLru(states: seq<Device>, ops: seq<Op>, outs: seq<Option<Sector>>, v: seq<(Key, Sector)>, order: seq<nat>, n: nat)
    returns (order': seq<nat>)
    requires Run(states, ops, outs) && Good(states[0]) && Refines(states[0], v, order) && n <= |ops|
    requires states[0].counter + n <= STAMP_MAX
    ensures Refines(states[n], LruRun(states, ops, outs, v, n), order')
    ensures states[n].counter <= states[0].counter + n
  {
    hide Step, Good, Refines, LruStep, Order;
    if n == 0 {
      order' := order;
    } else {
      var mid := EveryRunLru(states, ops, outs, v, order, n - 1);
      EveryRunCoherent(states, ops, outs, n - 1);
      order' := StepRefines(states[n - 1], ops[n - 1], states[n], outs[n - 1],
                            LruRun(states, ops, outs, v, n - 1), mid);
    }
  }
}
