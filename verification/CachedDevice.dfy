/** The calls by which the kernel reaches its disks through the cache. Each is one step of the device
    of CacheTheory, so every run of them is one of its runs. */
module CachedDevice {
  import opened Basics
  import opened BlockCache
  import opened CacheTheory

  ghost function State(cache: Cache, disks: Disks): Device
    reads cache, cache.entries
  {
    Device(cache.entries[..], cache.counter, disks)
  }

  /** fat32_read_sector_cached: from the cache, else from the disk and into the cache. io says whether
      the driver would succeed. */
  method CachedRead(cache: Cache, k: Key, disk: seq<Sector>, io: bool, ghost disks: Disks) returns (r: Option<Sector>)
    requires k.volume in disks && disks[k.volume] == disk && k.sector < |disk|
    modifies cache, cache.entries
    ensures Step(old(State(cache, disks)), ReadSector(k, io), State(cache, disks), r)
  {
    hide Stored, Placed;
    var hit, data := cache.Read(k);
    if hit { return Some(data); }
    if !io { return None; }
    data := disk[k.sector];
    cache.Write(k, data);
    r := Some(data);
  }

  /** fat32_write_sector_cached: to the disk, and into the cache when that succeeded. */
  method CachedWrite(cache: Cache, k: Key, d: Sector, disk: seq<Sector>, io: bool, ghost disks: Disks) returns (disk': seq<Sector>)
    requires k.volume in disks && disks[k.volume] == disk && k.sector < |disk|
    modifies cache, cache.entries
    ensures Step(old(State(cache, disks)), WriteSector(k, d, io), State(cache, disks[k.volume := disk']), None)
    ensures disk' == if io then disk[k.sector := d] else disk
  {
    hide Stored, Placed;
    disk' := disk;
    if io {
      disk' := disk[k.sector := d];
      cache.Write(k, d);
    } else {
      assert disks[k.volume := disk'] == disks;
    }
  }

  /** bcache_invalidate */
  method Uncache(cache: Cache, k: Key, ghost disks: Disks)
    modifies cache.entries
    ensures Step(old(State(cache, disks)), Invalidate(k), State(cache, disks), None)
  {
    cache.Invalidate(k);
  }

  /** bcache_invalidate_all */
  method UncacheAll(cache: Cache, ghost disks: Disks)
    modifies cache.entries
    ensures Step(old(State(cache, disks)), InvalidateAll, State(cache, disks), None)
  {
    cache.InvalidateAll();
  }

  predicate Addresses(op: Op, disks: Disks) {
    op.ReadSector? || op.WriteSector? ==> OnDisk(disks, op.k)
  }

  /** Any sequence of calls is a run of the device; so each read returns what the disk holds then, and
      at the end every entry is the only one of its sector and equals it. */
  method Serve(cache: Cache, start: Disks, ops: seq<Op>)
    returns (disks: Disks, outs: seq<Option<Sector>>, ghost states: seq<Device>)
    requires cache.entries.Length == SIZE && Good(State(cache, start))
    requires forall i :: 0 <= i < |ops| ==> Addresses(ops[i], start)
    modifies cache, cache.entries
    ensures Run(states, ops, outs)
    ensures states[0] == old(State(cache, start)) && states[|ops|] == State(cache, disks)
    ensures Good(State(cache, disks))
    ensures forall n :: 0 <= n < |ops| && ops[n].ReadSector? && outs[n].Some? ==>
              OnDisk(states[n].disks, ops[n].k) && outs[n].value == At(states[n].disks, ops[n].k)
  {
    hide Step, Good;
    disks, outs, states := start, [], [State(cache, start)];
    for i := 0 to |ops|
      invariant |states| == i + 1 && |outs| == i && states[0] == old(State(cache, start)) && states[i] == State(cache, disks)
      invariant forall n :: 0 <= n < i ==> Step(states[n], ops[n], states[n + 1], outs[n])
      invariant forall n :: 0 <= n < |ops| ==> Addresses(ops[n], disks)
    {
      var out;
      ghost var was := disks;
      disks, out := Perform(cache, disks, ops[i]);
      outs, states := outs + [out], states + [State(cache, disks)];
      forall n | 0 <= n < |ops| ensures Addresses(ops[n], disks) { assert Addresses(ops[n], was); }
    }
    forall n | 0 <= n < |ops| && ops[n].ReadSector? && outs[n].Some?
      ensures OnDisk(states[n].disks, ops[n].k) && outs[n].value == At(states[n].disks, ops[n].k)
    {
      EveryRunCoherent(states, ops, outs, n);
    }
    EveryRunCoherent(states, ops, outs, |ops|);
  }

  /** One call. */
  method Perform(cache: Cache, disks: Disks, op: Op) returns (disks': Disks, out: Option<Sector>)
    requires Addresses(op, disks)
    modifies cache, cache.entries
    ensures Step(old(State(cache, disks)), op, State(cache, disks'), out)
    ensures disks'.Keys == disks.Keys && forall v :: v in disks ==> |disks'[v]| == |disks[v]|
  {
    hide Step;
    disks', out := disks, None;
    match op
    case ReadSector(k, io) => out := CachedRead(cache, k, disks[k.volume], io, disks);
    case WriteSector(k, d, io) =>
      var disk := CachedWrite(cache, k, d, disks[k.volume], io, disks);
      disks' := disks[k.volume := disk];
    case Invalidate(k) => Uncache(cache, k, disks);
    case InvalidateAll => UncacheAll(cache, disks);
  }

  /** A step on one volume's disk is a step on any set of disks that volume belongs to. */
  lemma StepAmong(s: Device, op: Op, s': Device, out: Option<Sector>, id: nat, others: Disks)
    requires Step(s, op, s', out) && s.disks.Keys == s'.disks.Keys == {id}
    ensures Step(s.(disks := others[id := s.disks[id]]), op, s'.(disks := others[id := s'.disks[id]]), out)
  {
    hide Stored, Placed;
  }
}
