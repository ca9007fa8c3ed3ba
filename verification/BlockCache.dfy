/** The 128-entry write-through sector cache and the recency list it implements. */
module BlockCache {
  import opened Basics

  type Sector = s: seq<Byte> | |s| == 512 witness seq(512, _ => 0)

  const SIZE: nat := 128
  const STAMP_MAX: nat := 0xFFFF_FFFF_FFFF_FFFF

  datatype Key = Key(volume: nat, sector: nat)
  datatype Entry = Entry(key: Key, data: Sector, valid: bool, lastAccess: nat)

  predicate Holds(e: Entry, k: Key) { e.valid && e.key == k }

  /** The first entry holding k, or |es|. */
  function Find(es: seq<Entry>, k: Key): (i: nat)
    ensures i <= |es|
    ensures i < |es| ==> Holds(es[i], k)
    ensures forall j :: 0 <= j < i ==> !Holds(es[j], k)
  {
    if |es| == 0 || Holds(es[0], k) then 0 else 1 + Find(es[1..], k)
  }

  /** At most one valid entry per key. */
  predicate Unique(es: seq<Entry>) {
    forall i, j :: 0 <= i < j < |es| && es[i].valid && es[j].valid ==> es[i].key != es[j].key
  }

  /** The slot a miss is stored in: an invalid one if there is any, else one with the least
      stamp; none only when every stamp has reached the 64-bit maximum. */
  predicate IsVictim(es: seq<Entry>, v: int) {
    if exists i :: 0 <= i < |es| && !es[i].valid then
      0 <= v < |es| && !es[v].valid
    else if v >= 0 then
      v < |es| && es[v].lastAccess < STAMP_MAX && forall i :: 0 <= i < |es| ==> es[v].lastAccess <= es[i].lastAccess
    else
      forall i :: 0 <= i < |es| ==> es[i].lastAccess >= STAMP_MAX
  }

  function Tick(counter: nat): nat { (counter + 1) % 0x1_0000_0000_0000_0000 }

  /** The entries after a store of d under k: the one holding k, else a victim, is overwritten. */
  predicate Stored(es: seq<Entry>, k: Key, d: Sector, stamp: nat, es': seq<Entry>) {
    var i := Find(es, k);
    if i < |es| then
      es' == es[i := Entry(k, d, true, stamp)]
    else if exists v :: 0 <= v < |es| && IsVictim(es, v) then
      exists v :: 0 <= v < |es| && IsVictim(es, v) && es' == es[v := Entry(k, d, true, stamp)]
    else
      es' == es
  }

  /** Whether a store finds a slot at all. */
  predicate Placed(es: seq<Entry>, k: Key) {
    Find(es, k) < |es| || exists v :: 0 <= v < |es| && IsVictim(es, v)
  }

  class Cache {
    const entries: array<Entry>
    var counter: nat

    constructor ()
      ensures fresh(entries) && entries.Length == SIZE == 128 && counter == 0
      ensures forall i :: 0 <= i < SIZE ==> !entries[i].valid
    {
      var zero: Sector := seq(512, _ => 0);
      entries := new Entry[SIZE](_ => Entry(Key(0, 0), zero, false, 0));
      counter := 0;
    }

    /** bcache_read */
    method Read(k: Key) returns (hit: bool, data: Sector)
      modifies this, entries
      ensures hit == (Find(old(entries[..]), k) < entries.Length)
      ensures hit ==>
                var i := Find(old(entries[..]), k);
                && data == old(entries[i]).data
                && counter == (old(counter) + 1) % 0x1_0000_0000_0000_0000
                && entries[..] == old(entries[..])[i := old(entries[i]).(lastAccess := counter)]
      ensures !hit ==> entries[..] == old(entries[..]) && counter == old(counter)
    {
      var i := 0;
      ghost var es := entries[..];
      while i < entries.Length
        invariant 0 <= i <= entries.Length
        invariant entries[..] == es && counter == old(counter)
        invariant forall j :: 0 <= j < i ==> !Holds(es[j], k)
      {
        if entries[i].valid && entries[i].key == k {
          data := entries[i].data;
          counter := Tick(counter);
          entries[i] := entries[i].(lastAccess := counter);
          return true, data;
        }
        i := i + 1;
      }
      data := seq(512, _ => 0);
      return false, data;
    }

    /** bcache_write */
    method Write(k: Key, data: Sector)
      modifies this, entries
      ensures Stored(old(entries[..]), k, data, Tick(old(counter)), entries[..])
      ensures counter == if Placed(old(entries[..]), k) then (old(counter) + 1) % 0x1_0000_0000_0000_0000 else old(counter)
    {
      ghost var es := entries[..];
      var i := 0;
      while i < entries.Length
        invariant 0 <= i <= entries.Length
        invariant entries[..] == es && counter == old(counter)
        invariant forall j :: 0 <= j < i ==> !Holds(es[j], k)
      {
        if entries[i].valid && entries[i].key == k {
          counter := Tick(counter);
          entries[i] := Entry(k, data, true, counter);
          return;
        }
        i := i + 1;
      }
      assert Find(es, k) == |es|;
      var victim := ChooseVictim();
      if victim != -1 {
        counter := Tick(counter);
        entries[victim] := Entry(k, data, true, counter);
        assert IsVictim(es, victim);
        assert entries[..] == es[victim := Entry(k, data, true, counter)];
      } else {
        assert forall v :: 0 <= v < |es| ==> !IsVictim(es, v);
      }
    }

    /** The victim scan of bcache_write. */
    method ChooseVictim() returns (victim: int)
      ensures victim == -1 || 0 <= victim < entries.Length
      ensures IsVictim(entries[..], victim)
      ensures victim == -1 ==> forall v :: 0 <= v < entries.Length ==> entries[v].valid && entries[v].lastAccess >= 0xFFFF_FFFF_FFFF_FFFF
    {
      victim := -1;
      var least := STAMP_MAX;
      var i := 0;
      while i < entries.Length
        invariant 0 <= i <= entries.Length
        invariant forall j :: 0 <= j < i ==> entries[j].valid && least <= entries[j].lastAccess
        invariant victim == -1 ==> least == STAMP_MAX
        invariant victim != -1 ==> 0 <= victim < i && entries[victim].lastAccess == least < STAMP_MAX
      {
        if !entries[i].valid {
          victim := i;
          assert !entries[..][i].valid;
          return;
        }
        if entries[i].lastAccess < least {
          least := entries[i].lastAccess;
          victim := i;
        }
        i := i + 1;
      }
      assert forall j :: 0 <= j < entries.Length ==> entries[..][j].valid;
    }

    /** bcache_invalidate */
    method Invalidate(k: Key)
      modifies entries
      ensures var i := Find(old(entries[..]), k);
        entries[..] == if i < entries.Length then old(entries[..])[i := old(entries[i]).(valid := false)] else old(entries[..])
    {
      ghost var es := entries[..];
      var i := 0;
      while i < entries.Length
        invariant 0 <= i <= entries.Length
        invariant entries[..] == es
        invariant forall j :: 0 <= j < i ==> !Holds(es[j], k)
      {
        if entries[i].valid && entries[i].key == k {
          entries[i] := entries[i].(valid := false);
          return;
        }
        i := i + 1;
      }
    }

    /** bcache_invalidate_all, once the lock is taken */
    method InvalidateAll()
      modifies entries
      ensures forall i :: 0 <= i < entries.Length ==> entries[i] == old(entries[i]).(valid := false)
    {
      var i := 0;
      while i < entries.Length
        invariant 0 <= i <= entries.Length
        invariant forall j :: 0 <= j < i ==> entries[j] == old(entries[j]).(valid := false)
        invariant forall j :: i <= j < entries.Length ==> entries[j] == old(entries[j])
      {
        entries[i] := entries[i].(valid := false);
        i := i + 1;
      }
    }
  }
}
