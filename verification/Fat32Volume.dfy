/** The FAT32 driver: table, chains, file reads and writes, over cached sectors. */
module Fat32Volume {
  import opened Basics
  import opened BlockCache
  import opened CachedDevice
  import opened Radix
  import opened Fat32Layout
  import opened Fat32Chain
  import opened Fat32Grow
  import opened Fat32Directory

  /** The cache as volume id may rely on it: one entry per sector, and this volume's equal the disk. */
  ghost predicate Cached(es: seq<Entry>, id: nat, disk: seq<Sector>) {
    CacheTheory.Good(CacheTheory.Device(es, 0, map[id := disk]))
  }

  /** A step of the device keeps that, and a read returns the disk's sector. */
  lemma CachedStep(s: CacheTheory.Device, op: CacheTheory.Op, s': CacheTheory.Device, out: Option<Sector>, id: nat, disk: seq<Sector>, disk': seq<Sector>)
    requires Cached(s.es, id, disk) && s.disks == map[id := disk] && s'.disks == map[id := disk']
    requires CacheTheory.Step(s, op, s', out)
    ensures |s'.es| == SIZE && Cached(s'.es, id, disk')
    ensures op.ReadSector? && op.io && op.k.volume == id ==> op.k.sector < |disk| && out == Some(disk[op.k.sector])
  {
    CacheTheory.StepGood(s, op, s', out);
  }

  lemma TableOffset(c: nat)
    ensures c * 4 / 512 == c / 128 && c * 4 % 512 == c % 128 * 4
  {}

  lemma SmallValue(c: nat)
    requires c < MASK
    ensures c % MASK == c
  {}

  /** The entries of one table sector. */
  lemma TableSector(g: Geometry, disk: seq<Sector>, i: nat)
    requires Fits(g, disk) && i < g.fatSize && g.fatStart + i < |disk|
    ensures 128 * i + 128 <= |Abs(g, disk).fat|
    ensures forall j :: 0 <= j < 128 ==> Abs(g, disk).fat[128 * i + j] == Le32(disk[g.fatStart + i], 4 * j) % MASK
  {
    hide Le32;
    forall j | 0 <= j < 128
      ensures Abs(g, disk).fat[128 * i + j] == Le32(disk[g.fatStart + i], 4 * j) % MASK
    {
      assert (128 * i + j) / 128 == i && (128 * i + j) % 128 == j;
    }
  }

  class Volume {
    const id: nat
    const g: Geometry
    const cache: Cache
    var disk: seq<Sector>

    /** A volume that was just given a fresh id: nothing of it is cached yet. */
    constructor (id: nat, g: Geometry, cache: Cache, disk: seq<Sector>)
      requires Fits(g, disk) && cache.entries.Length == SIZE && Unique(cache.entries[..])
      requires forall i :: 0 <= i < SIZE && cache.entries[i].valid ==> cache.entries[i].key.volume != id
      ensures Valid() && this.disk == disk && this.g == g && this.cache == cache
    {
      this.id, this.g, this.cache, this.disk := id, g, cache, disk;
    }

    ghost predicate Valid()
      reads this, cache, cache.entries
    {
      Fits(g, disk) && cache.entries.Length == SIZE && Cached(cache.entries[..], id, disk)
    }

    ghost function Im(): Image
      requires Fits(g, disk)
      reads this
    {
      Abs(g, disk)
    }

    /** fat32_read_sector_cached, on a device that does not fail */
    method ReadSector(n: nat) returns (d: Sector)
      requires Valid() && n < |disk|
      modifies cache, cache.entries
      ensures Valid() && d == disk[n]
      ensures CacheTheory.Step(old(State(cache, map[id := disk])), CacheTheory.ReadSector(Key(id, n), true),
                               State(cache, map[id := disk]), Some(d))
    {
      hide Cached, CacheTheory.Step;
      ghost var s := State(cache, map[id := disk]);
      var r := CachedRead(cache, Key(id, n), disk, true, map[id := disk]);
      CachedStep(s, CacheTheory.ReadSector(Key(id, n), true), State(cache, map[id := disk]), r, id, disk, disk);
      d := r.value;
    }

    /** fat32_write_sector_cached, on a device that does not fail */
    method WriteSector(n: nat, d: Sector)
      requires Valid() && n < |disk|
      modifies this`disk, cache, cache.entries
      ensures Valid() && disk == old(disk)[n := d]
      ensures CacheTheory.Step(old(State(cache, map[id := disk])), CacheTheory.WriteSector(Key(id, n), d, true),
                               State(cache, map[id := disk]), None)
    {
      hide Cached, CacheTheory.Step;
      ghost var s, disk0 := State(cache, map[id := disk]), disk;
      disk := CachedWrite(cache, Key(id, n), d, disk, true, map[id := disk]);
      assert map[id := disk0][id := disk] == map[id := disk];
      CachedStep(s, CacheTheory.WriteSector(Key(id, n), d, true), State(cache, map[id := disk]), None, id, disk0, disk);
    }

    /** fat32_get_next_cluster */
    method GetNext(c: nat) returns (next: nat)
      requires Valid() && c < g.Clusters()
      modifies cache, cache.entries
      ensures Valid() && next == Im().fat[c]
    {
      var fatOffset := c * 4;
      TableOffset(c);
      LbaBound(g, g.Clusters());
      var buffer := ReadSector(g.fatStart + fatOffset / 512);
      next := Le32(buffer, fatOffset % 512) % MASK;
    }

    /** fat32_fat_set */
    method FatSet(c: nat, value: nat)
      requires Valid() && c < g.Clusters() && value < 0x1_0000_0000
      modifies this`disk, cache, cache.entries
      ensures Valid() && Im() == SetFat(old(Im()), c, value % MASK)
    {
      hide PutLe32, Abs;
      var fatOffset := c * 4;
      TableOffset(c);
      LbaBound(g, g.Clusters());
      var n := g.fatStart + fatOffset / 512;
      var buffer := ReadSector(n);
      WriteFatSector(g, disk, c, value);
      buffer := PutLe32(buffer, fatOffset % 512, value);
      WriteSector(n, buffer);
    }

    /** A sector of a cluster. */
    method ReadData(c: nat, i: nat) returns (d: Sector)
      requires Valid() && 2 <= c < g.Clusters() && i < g.spc
      modifies cache, cache.entries
      ensures Valid() && |Im().data[c]| == g.spc && d == Im().data[c][i]
    {
      LbaNext(g, c, g.Clusters());
      d := ReadSector(Lba(g, c, i));
    }

    method WriteData(c: nat, i: nat, d: Sector)
      requires Valid() && 2 <= c < g.Clusters() && i < g.spc
      modifies this`disk, cache, cache.entries
      ensures Valid() && |old(Im()).data[c]| == g.spc
      ensures Im() == SetSector(old(Im()), c, i, d)
    {
      WriteDataSector(g, disk, c, i, d);
      WriteSector(Lba(g, c, i), d);
    }

    /** The scan of fat32_alloc_cluster over the table's sectors for the lowest free cluster. */
    method ScanTable() returns (found: bool, c: nat)
      requires Valid()
      modifies cache, cache.entries
      ensures Valid()
      ensures found ==> Free(Im().fat, c) && FullBelow(Im().fat, c)
      ensures !found ==> FullBelow(Im().fat, g.Clusters())
    {
      hide Le32, Abs, Cached;
      LbaBound(g, g.Clusters());
      ghost var fat := Im().fat;
      found, c := false, 0;
      var i := 0;
      while i < g.fatSize
        invariant 0 <= i <= g.fatSize && c == 128 * i
        invariant Valid() && FullBelow(fat, c)
      {
        var buffer := ReadSector(g.fatStart + i);
        TableSector(g, disk, i);
        found, c := ScanEntries(buffer, c, fat);
        if found { return; }
        i := i + 1;
      }
      assert |fat| == g.Clusters() by { AbsWellSized(g, disk); }
    }

    /** The 128 entries of one table sector, from entry start on. */
    method ScanEntries(buffer: Sector, start: nat, ghost fat: seq<nat>) returns (found: bool, c: nat)
      requires start + 128 <= |fat| && FullBelow(fat, start)
      requires forall j :: 0 <= j < 128 ==> fat[start + j] == Le32(buffer, 4 * j) % MASK
      ensures found ==> Free(fat, c) && FullBelow(fat, c)
      ensures !found ==> c == start + 128 && FullBelow(fat, c)
    {
      hide Le32;
      c := start;
      for j := 0 to 128
        invariant c == start + j && FullBelow(fat, c)
      {
        if c >= 2 {
          assert fat[start + j] == Le32(buffer, 4 * j) % MASK;
          if Le32(buffer, 4 * j) % MASK == 0 { return true, c; }
        }
        c := c + 1;
      }
      found := false;
    }

    /** fat32_alloc_cluster: the lowest free cluster, or failure only when there is none. */
    method AllocCluster() returns (ok: bool, c: nat)
      requires Valid()
      modifies this`disk, cache, cache.entries
      ensures Valid()
      ensures ok ==> Free(old(Im()).fat, c) && FullBelow(old(Im()).fat, c)
      ensures ok ==> Im() == Taken(g.spc, old(Im()), c)
      ensures !ok ==> disk == old(disk) && FullBelow(Im().fat, g.Clusters())
    {
      ok, c := ScanTable();
      if ok {
        FatSet(c, EOC);
        ghost var im := Im();
        var k := 0;
        while k < g.spc
          invariant 0 <= k <= g.spc && Valid()
          invariant Im().fat == im.fat
          invariant forall b :: 0 <= b < g.Clusters() && b != c ==> Im().data[b] == im.data[b]
          invariant forall m :: 0 <= m < k ==> Im().data[c][m] == ZeroSector()
        {
          WriteData(c, k, ZeroSector());
          k := k + 1;
        }
        assert Im().data[c] == ZeroCluster(g.spc);
        assert Im().data == Taken(g.spc, old(Im()), c).data;
      }
    }

    /** fat32_free_cluster_chain, wherever its walk stays inside the table, cycles included. */
    method FreeChain(start: nat)
      requires Valid() && Inside(Im().fat, start)
      modifies this`disk, cache, cache.entries
      ensures Valid() && Im() == old(Im()).(fat := Freed(old(Im()).fat, start))
    {
      hide Abs, Live;
      var current := start;
      while current >= 2 && current < EOC
        invariant Valid() && 0 <= current && Inside(Im().fat, current)
        invariant Freed(Im().fat, current) == Freed(old(Im()).fat, start)
        invariant Im().data == old(Im()).data
        decreases |Live(Im().fat)|, if 2 <= current < EOC then 1 else 0
      {
        FreedDecreases(Im().fat, current);
        var next := GetNext(current);
        FatSet(current, 0);
        current := next;
      }
    }

    /** fat32_seek_cluster */
    method Seek(first: nat, offset: nat, ghost ch: seq<nat>) returns (current: nat, within: nat)
      requires Valid() && IsChain(Im().fat, ch) && ch[0] == first
      modifies cache, cache.entries
      ensures Valid() && within == ClusterOffset(g, offset)
      ensures ClusterIndex(g, offset) < |ch| ==> current == ch[ClusterIndex(g, offset)]
      ensures ClusterIndex(g, offset) >= |ch| ==> current >= EOC
    {
      hide ClusterIndex, ClusterOffset, ClusterSize, Abs;
      current := first;
      var skip := ClusterIndex(g, offset);
      within := ClusterOffset(g, offset);
      var i := 0;
      while i < skip
        invariant Valid() && 0 <= i <= skip
        invariant i < |ch| ==> current == ch[i]
        invariant i >= |ch| ==> current >= EOC
      {
        if current >= EOC { return EOC, within; }
        current := GetNext(current);
        i := i + 1;
      }
    }

    /** One sector of fat32_read_fs: taken outright when wanted whole, else copied in part. */
    method ReadPart(c: nat, i: nat, o: nat, n: nat) returns (part: seq<Byte>)
      requires Valid() && 2 <= c < g.Clusters() && i < g.spc && o + n <= 512
      modifies cache, cache.entries
      ensures Valid() && |Im().data[c]| == g.spc
      ensures part == Bytes(Im().data[c])[512 * i + o..512 * i + o + n]
    {
      AbsWellSized(g, disk);
      var sector := ReadData(c, i);
      SectorSlice(Im().data[c], i, o, n);
      if o == 0 && n == 512 {
        part := sector;
        assert sector[0..512] == sector;
      } else {
        part := sector[o..o + n];
      }
    }

    /** One turn of the sector loop of fat32_read_fs: sector i from byte o on. */
    method ReadStep(c: nat, i: nat, o: nat, off: nat, want: nat, out: seq<Byte>) returns (out': seq<Byte>)
      requires Valid() && 2 <= c < g.Clusters() && i < g.spc && o < 512
      requires |out| < want && off + |out| == 512 * i + o
      requires |Im().data[c]| == g.spc && out == Bytes(Im().data[c])[off..off + |out|]
      modifies cache, cache.entries
      ensures Valid() && |out'| == if |out| + 512 - o > want then want else |out| + 512 - o
      ensures off + |out'| <= ClusterSize(g) && |Im().data[c]| == g.spc
      ensures out' == Bytes(Im().data[c])[off..off + |out'|]
    {
      hide Abs, Cached, Fits, Lba, IsChain;
      var chunk := 512 - o;
      if |out| + chunk > want { chunk := want - |out|; }
      SliceMore(Bytes(Im().data[c]), off, off + |out|, chunk);
      var part := ReadPart(c, i, o, chunk);
      out' := out + part;
    }

    /** The sector loop of fat32_read_fs within one cluster: at most want bytes from byte off. */
    method ReadCluster(c: nat, off: nat, want: nat) returns (out: seq<Byte>)
      requires Valid() && 2 <= c < g.Clusters() && off < ClusterSize(g)
      modifies cache, cache.entries
      ensures Valid() && |Im().data[c]| == g.spc
      ensures out == Bytes(Im().data[c])[off..if off + want < ClusterSize(g) then off + want else ClusterSize(g)]
    {
      AbsWellSized(g, disk);
      assert |Im().data[c]| == g.spc;
      out := [];
      var i, o := off / 512, off % 512;
      hide Bytes, Abs, Valid;
      while i < g.spc && |out| < want
        invariant 0 <= i <= g.spc && Valid() && |Im().data[c]| == g.spc
        invariant off + |out| <= 512 * g.spc && |out| <= want
        invariant |out| < want ==> off + |out| == 512 * i + o && 0 <= o < 512 && (i == g.spc ==> o == 0)
        invariant out == Bytes(Im().data[c])[off..off + |out|]
      {
        out := ReadStep(c, i, o, off, want, out);
        o := 0;
        i := i + 1;
      }
    }

    /** One sector of fat32_write_fs: overwritten outright when covered, else read first. */
    method WritePart(c: nat, i: nat, o: nat, part: seq<Byte>)
      requires Valid() && 2 <= c < g.Clusters() && i < g.spc && o + |part| <= 512
      modifies this`disk, cache, cache.entries
      ensures Valid() && Fits(g, disk) && WellSized(g, old(Im()))
      ensures Rewritten(g, old(Im()), Im(), c, Splice(Bytes(old(Im()).data[c]), 512 * i + o, part))
    {
      AbsWellSized(g, disk);
      ghost var e := Im().data[c];
      if o == 0 && |part| == 512 {
        WriteData(c, i, part);
        assert Im().data[c][i] == Splice(e[i], 0, part);
      } else {
        var sector := ReadData(c, i);
        var whole: Sector := sector[..o] + part + sector[o + |part|..];
        WriteData(c, i, whole);
      }
      BytesWrite(e, i, o, part, Im().data[c]);
      AbsWellSized(g, disk);
    }

    /** One turn of the sector loop of fat32_write_fs: sector i from byte o on. */
    method WriteStep(c: nat, i: nat, o: nat, off: nat, buf: seq<Byte>, n: nat, ghost im: Image) returns (n': nat)
      requires Valid() && WellSized(g, im) && 2 <= c < g.Clusters() && i < g.spc && o < 512
      requires n < |buf| && off + n == 512 * i + o
      requires Rewritten(g, im, Im(), c, Splice(Bytes(im.data[c]), off, buf[..n]))
      modifies this`disk, cache, cache.entries
      ensures Valid() && Fits(g, disk) && n' == (if n + 512 - o > |buf| then |buf| else n + 512 - o)
      ensures off + n' <= ClusterSize(g)
      ensures Rewritten(g, im, Im(), c, Splice(Bytes(im.data[c]), off, buf[..n']))
    {
      hide Rewritten, Abs;
      var chunk := 512 - o;
      if n + chunk > |buf| { chunk := |buf| - n; }
      ghost var im1 := Im();
      WritePart(c, i, o, buf[n..n + chunk]);
      RewrittenMore(g, im, im1, Im(), c, off, buf, n, chunk);
      n' := n + chunk;
    }

    /** The sector loop of fat32_write_fs within one cluster: as much of buf as fits from off. */
    method WriteCluster(c: nat, off: nat, buf: seq<Byte>) returns (n: nat)
      requires Valid() && 2 <= c < g.Clusters() && off < ClusterSize(g)
      modifies this`disk, cache, cache.entries
      ensures Valid() && WellSized(g, old(Im()))
      ensures n == if off + |buf| < ClusterSize(g) then |buf| else ClusterSize(g) - off
      ensures Rewritten(g, old(Im()), Im(), c, Splice(Bytes(old(Im()).data[c]), off, buf[..n]))
    {
      AbsWellSized(g, disk);
      ghost var im := Im();
      RewrittenNone(g, im, c, off, buf);
      n := 0;
      var i, o := off / 512, off % 512;
      assert |im.data[c]| == g.spc && |im.data| == g.Clusters();
      hide Bytes, Splice, Abs, Rewritten, Valid, Fits, Im, WellSized;
      while i < g.spc && n < |buf|
        invariant 0 <= i <= g.spc && Valid() && Fits(g, disk)
        invariant off + n <= 512 * g.spc && n <= |buf|
        invariant n < |buf| ==> off + n == 512 * i + o && 0 <= o < 512 && (i == g.spc ==> o == 0)
        invariant Rewritten(g, im, Im(), c, Splice(Bytes(im.data[c]), off, buf[..n]))
      {
        n := WriteStep(c, i, o, off, buf, n, im);
        o := 0;
        i := i + 1;
      }
    }

    /** fat32_read_fs: the file's bytes from offset on, as far as size, its length and its chain
        reach. The chain is only looked at when there is something to read. */
    method ReadFile(first: nat, length: nat, offset: nat, size: nat, ghost ch: seq<nat>) returns (out: seq<Byte>)
      requires Valid() && offset + size < 0x1_0000_0000
      requires offset < length ==> IsChain(Im().fat, ch) && ch[0] == first
      modifies cache, cache.entries
      ensures Valid()
      ensures offset >= length ==> out == []
      ensures offset < length ==> InData(Im(), ch) && out == Window(Content(Im(), ch), offset, if offset + size > length then length else offset + size)
    {
      if offset >= length { return []; }
      var want := if offset + size > length then length - offset else size;
      AbsWellSized(g, disk);
      ChainInData(g, Im(), ch);
      ghost var content := Content(Im(), ch);
      var current, within := Seek(first, offset, ch);
      ReadReach(g, offset, |ch|);
      if current >= EOC { return []; }
      out := ReadClusters(current, within, want, offset, ClusterIndex(g, offset), ch);
    }

    /** The cluster loop of fat32_read_fs. */
    method ReadClusters(first: nat, within: nat, want: nat, ghost offset: nat, ghost index: nat, ghost ch: seq<nat>)
      returns (out: seq<Byte>)
      requires Valid() && IsChain(Im().fat, ch) && InData(Im(), ch) && index < |ch| && first == ch[index]
      requires within < ClusterSize(g) && offset == index * ClusterSize(g) + within
      requires |Content(Im(), ch)| == |ch| * ClusterSize(g) && offset <= |Content(Im(), ch)|
      modifies cache, cache.entries
      ensures Valid() && InData(Im(), ch)
      ensures out == Window(Content(Im(), ch), offset, offset + want)
    {
      hide Content, Abs, ClusterSize, IsChain;
      SomeSize(g);
      ghost var content := Content(Im(), ch);
      var current, o := first, within;
      ghost var n := index;
      out := [];
      while |out| < want && current < EOC
        invariant Valid() && 0 <= n <= |ch| && |out| <= want && 0 <= o < ClusterSize(g)
        invariant n < |ch| ==> current == ch[n]
        invariant n == |ch| ==> current >= EOC
        invariant offset + |out| <= |content| && out == content[offset..offset + |out|]
        invariant |out| < want ==> offset + |out| == n * ClusterSize(g) + o && (n == |ch| ==> o == 0)
        decreases |ch| - n
      {
        out := ReadFromCluster(current, o, want, out, offset, n, ch);
        current := NextInChain(n, current, ch);
        o := 0;
        n := n + 1;
      }
    }

    /** The link of a chain's member: the next member, or an end mark. */
    method NextInChain(ghost n: nat, c: nat, ghost ch: seq<nat>) returns (next: nat)
      requires Valid() && IsChain(Im().fat, ch) && n < |ch| && c == ch[n]
      modifies cache, cache.entries
      ensures Valid()
      ensures if n + 1 < |ch| then next == ch[n + 1] else next >= EOC
    {
      hide Abs;
      AbsWellSized(g, disk);
      next := GetNext(c);
    }

    /** One cluster of fat32_read_fs. */
    method ReadFromCluster(c: nat, within: nat, want: nat, out: seq<Byte>, ghost offset: nat, ghost n: nat, ghost ch: seq<nat>)
      returns (out': seq<Byte>)
      requires Valid() && IsChain(Im().fat, ch) && InData(Im(), ch) && n < |ch| && c == ch[n]
      requires |out| < want && within < ClusterSize(g) && offset + |out| == n * ClusterSize(g) + within
      requires offset + |out| <= |Content(Im(), ch)| && out == Content(Im(), ch)[offset..offset + |out|]
      modifies cache, cache.entries
      ensures Valid() && |out'| <= want
      ensures offset + |out'| <= |Content(Im(), ch)| && out' == Content(Im(), ch)[offset..offset + |out'|]
      ensures |out'| < want ==> offset + |out'| == (n + 1) * ClusterSize(g)
    {
      hide Content, Bytes, Abs, IsChain;
      AbsWellSized(g, disk);
      var more := ReadCluster(c, within, want - |out|);
      ContentSlice(g, Im(), ch, n, within, within + |more|);
      SliceMore(Content(Im(), ch), offset, offset + |out|, |more|);
      MulAdd(n, 1, ClusterSize(g));
      out' := out + more;
    }

    /** Take the lowest free cluster and link it behind the last one of a chain. */
    method AppendCluster(last: nat, ghost ch: seq<nat>) returns (ok: bool, c: nat)
      requires Valid() && IsChain(Im().fat, ch) && last == ch[|ch| - 1]
      modifies this`disk, cache, cache.entries
      ensures Valid()
      ensures ok ==> Free(old(Im()).fat, c) && FullBelow(old(Im()).fat, c) && Im() == Linked(g.spc, old(Im()), last, c)
      ensures !ok ==> disk == old(disk) && FullBelow(Im().fat, g.Clusters())
    {
      hide Abs, IsChain;
      ChainBounds(Im().fat, ch);
      assert last == ch[|ch| - 1] < g.Clusters();
      ok, c := AllocCluster();
      if ok {
        assert c < MASK;
        SmallValue(c);
        hide Fits, Lba;
        FatSet(last, c);
      }
    }

    /** The walk to the end of a chain. */
    method LastCluster(first: nat, ghost ch: seq<nat>) returns (last: nat)
      requires Valid() && IsChain(Im().fat, ch) && ch[0] == first
      modifies cache, cache.entries
      ensures Valid() && last == ch[|ch| - 1]
    {
      hide Abs;
      last := first;
      ghost var n := 0;
      while true
        invariant Valid() && 0 <= n < |ch| && last == ch[n]
        decreases |ch| - n
      {
        var next := GetNext(last);
        if next >= EOC { break; }
        last := next;
        n := n + 1;
      }
    }

    /** fat32_write_fs on a file that has a chain. Bytes go in at offset, or, when offset lies
        beyond the chain, at the chain's end. */
    method WriteFile(first: nat, offset: nat, buf: seq<Byte>, ghost ch: seq<nat>)
      returns (n: nat, stopped: bool, ghost ch': seq<nat>)
      requires Valid() && IsChain(Im().fat, ch) && ch[0] == first && offset + |buf| < 0x1_0000_0000
      modifies this`disk, cache, cache.entries
      ensures Valid() && n <= |buf| && WellSized(g, old(Im()))
      ensures Grown(g, old(Im()), ch, Im(), ch')
      ensures InData(old(Im()), ch)
      ensures Writing(g, Im(), ch', Content(old(Im()), ch), Landing(|ch| * ClusterSize(g), offset), buf[..n])
      ensures stopped <==> offset >= |ch| * ClusterSize(g) && FreeCount(old(Im()).fat) == 0
      ensures n < |buf| || stopped ==> FullBelow(Im().fat, g.Clusters())
      ensures stopped ==> n == 0 && disk == old(disk) && ch' == ch
      ensures !stopped ==> n == Fitting(ClusterSize(g), |ch| * ClusterSize(g), offset, |buf|, FreeCount(old(Im()).fat))
      ensures !stopped ==> |ch'| * ClusterSize(g) == NewRoom(ClusterSize(g), |ch| * ClusterSize(g), offset, n)
    {
      hide Grown, Writing, Content, Abs, IsChain, NewRoom, Fitting;
      SomeSize(g);
      AbsWellSized(g, disk);
      ghost var im := Im();
      var current, within;
      ghost var index;
      stopped, current, within, ch', index := Position(first, offset, ch);
      if stopped { return 0, true, ch; }
      assert buf[..0] == [];
      n, ch' := WriteClusters(current, within, buf, im, ch, ch', Landing(|ch| * ClusterSize(g), offset), index);
      WrittenFits(g, ch', Content(im, ch), Landing(|ch| * ClusterSize(g), offset), buf[..n], Im());
      WrittenSize(g, im, ch, Im(), ch', offset, |buf|, n);
    }

    /** Where a write begins: at the offset, or on a new cluster behind a chain that does not reach it. */
    method Position(first: nat, offset: nat, ghost ch: seq<nat>)
      returns (stopped: bool, current: nat, within: nat, ghost ch': seq<nat>, ghost index: nat)
      requires Valid() && IsChain(Im().fat, ch) && ch[0] == first && offset < 0x1_0000_0000
      modifies this`disk, cache, cache.entries
      ensures Valid() && WellSized(g, old(Im())) && InData(old(Im()), ch) && Grown(g, old(Im()), ch, Im(), ch')
      ensures stopped <==> offset >= |ch| * ClusterSize(g) && FreeCount(old(Im()).fat) == 0
      ensures stopped ==> disk == old(disk) && ch' == ch && FullBelow(Im().fat, g.Clusters())
      ensures Writing(g, Im(), ch', Content(old(Im()), ch), Landing(|ch| * ClusterSize(g), offset), [])
      ensures |ch'| == |ch| + if !stopped && offset >= |ch| * ClusterSize(g) then 1 else 0
      ensures !stopped ==> index < |ch'| && current == ch'[index] && within < ClusterSize(g)
                           && Landing(|ch| * ClusterSize(g), offset) == index * ClusterSize(g) + within
    {
      hide Grown, Writing, Content, Abs;
      AbsWellSized(g, disk);
      ghost var im := Im();
      ReadReach(g, offset, |ch|);
      GrownSelf(g, im, ch);
      WritingStart(g, im, ch, Landing(|ch| * ClusterSize(g), offset));
      ch', stopped, index := ch, false, ClusterIndex(g, offset);
      current, within := Seek(first, offset, ch);
      if current >= EOC {
        var last := LastCluster(first, ch);
        var ok, c := AppendCluster(last, ch);
        FirstCount(im.fat, ok, c);
        if !ok {
          stopped := true;
          return;
        }
        GrownAppend(g, im, ch, im, ch, c);
        WritingAppend(g, im, ch, Content(im, ch), Landing(|ch| * ClusterSize(g), offset), [], c);
        ch' := ch + [c];
        current, within, index := c, 0, |ch|;
      }
    }

    /** The cluster loop of fat32_write_fs, growing the chain as it goes. */
    method WriteClusters(first: nat, within: nat, buf: seq<Byte>,
                         ghost im: Image, ghost ch0: seq<nat>, ghost ch: seq<nat>, ghost pos: nat, ghost index: nat)
      returns (n: nat, ghost ch': seq<nat>)
      requires Valid() && Grown(g, im, ch0, Im(), ch) && InData(im, ch0)
      requires index < |ch| && first == ch[index] && within < ClusterSize(g) && pos == index * ClusterSize(g) + within
      requires Writing(g, Im(), ch, Content(im, ch0), pos, buf[..0])
      modifies this`disk, cache, cache.entries
      ensures Valid() && n <= |buf|
      ensures Grown(g, im, ch0, Im(), ch')
      ensures Writing(g, Im(), ch', Content(im, ch0), pos, buf[..n])
      ensures n < |buf| ==> FullBelow(Im().fat, g.Clusters()) && pos + n == |ch'| * ClusterSize(g)
      ensures |ch'| == |ch| || (|ch'| > |ch| && (|ch'| - 1) * ClusterSize(g) < pos + n)
    {
      hide Abs, Content, Grown, Writing, IsChain;
      n, ch' := 0, ch;
      var current, o := first, within;
      ghost var k := index;
      while n < |buf|
        invariant Valid() && 0 <= n <= |buf| && 0 <= o < ClusterSize(g)
        invariant Grown(g, im, ch0, Im(), ch')
        invariant Writing(g, Im(), ch', Content(im, ch0), pos, buf[..n])
        invariant n < |buf| ==> 0 <= k < |ch'| && current == ch'[k] && pos + n == k * ClusterSize(g) + o
        invariant |ch'| == |ch| || (|ch'| > |ch| && (n < |buf| ==> k == |ch'| - 1))
        invariant |ch'| == |ch| || n < |buf| || (|ch'| - 1) * ClusterSize(g) < pos + n
        decreases |buf| - n
      {
        var more := WriteAt(current, o, buf[n..], im, ch0, ch', pos, buf[..n], k);
        assert buf[..n] + buf[n..][..more] == buf[..n + more];
        n := n + more;
        var ok;
        ok, current, ch' := Advance(current, n < |buf|, im, ch0, ch', Content(im, ch0), pos, buf[..n], k);
        if !ok { break; }
        o, k := 0, k + 1;
      }
    }

    /** One cluster of fat32_write_fs. */
    method WriteAt(c: nat, off: nat, rest: seq<Byte>,
                   ghost im: Image, ghost ch0: seq<nat>, ghost ch: seq<nat>, ghost pos: nat, ghost t: seq<Byte>, ghost k: nat)
      returns (n: nat)
      requires Valid() && Grown(g, im, ch0, Im(), ch) && InData(im, ch0) && rest != []
      requires k < |ch| && c == ch[k] && off < ClusterSize(g) && pos + |t| == k * ClusterSize(g) + off
      requires Writing(g, Im(), ch, Content(im, ch0), pos, t)
      modifies this`disk, cache, cache.entries
      ensures Valid() && 0 < n <= |rest|
      ensures n < |rest| ==> pos + |t| + n == (k + 1) * ClusterSize(g)
      ensures Grown(g, im, ch0, Im(), ch)
      ensures Writing(g, Im(), ch, Content(im, ch0), pos, t + rest[..n])
    {
      hide Content, Writing, Grown, Abs, Rewritten;
      ghost var im1 := Im();
      GrownMember(g, im, ch0, im1, ch, k);
      n := WriteCluster(c, off, rest);
      GrownWrite(g, im, ch0, im1, ch, k, Im(), Splice(Bytes(im1.data[c]), off, rest[..n]));
      WritingCluster(g, im1, ch, Content(im, ch0), pos, t, k, off, rest[..n], Im());
      MulAdd(k, 1, ClusterSize(g));
    }

    /** The step to the next cluster: along the chain, or onto a new cluster while bytes remain. */
    method Advance(c: nat, more: bool, ghost im: Image, ghost ch0: seq<nat>, ghost ch: seq<nat>,
                   ghost base: seq<Byte>, ghost pos: nat, ghost t: seq<Byte>, ghost k: nat)
      returns (ok: bool, next: nat, ghost ch': seq<nat>)
      requires Valid() && Grown(g, im, ch0, Im(), ch) && k < |ch| && c == ch[k]
      requires Writing(g, Im(), ch, base, pos, t)
      modifies this`disk, cache, cache.entries
      ensures Valid() && Grown(g, im, ch0, Im(), ch') && Writing(g, Im(), ch', base, pos, t)
      ensures ok && more ==> k + 1 < |ch'| && next == ch'[k + 1]
      ensures ch' == ch || (ok && more && k == |ch| - 1 && |ch'| == |ch| + 1)
      ensures !ok ==> more && ch' == ch && k == |ch| - 1 && FullBelow(Im().fat, g.Clusters())
    {
      ok, ch' := true, ch;
      ghost var im1 := Im();
      assert IsChain(im1.fat, ch) && |im1.fat| <= EOC;
      next := GetNext(c);
      if next >= EOC && more {
        assert k == |ch| - 1;
        hide Grown, Writing, Abs;
        ok, next := AppendCluster(c, ch);
        if ok {
          GrownAppend(g, im, ch0, im1, ch, next);
          WritingAppend(g, im1, ch, base, pos, t, next);
          ch' := ch + [next];
        }
      }
    }

    /** The slot loop of fat32_iterate_dir within one sector. */
    method ScanSector(buffer: Sector, visitor: Visitor) returns (verdict: Verdict, j: nat)
      ensures verdict == Continue ==> j == 16
      ensures verdict != Continue ==> j < 16 && Visit(visitor, buffer[32 * j..32 * j + 32]) == verdict
      ensures forall b :: 0 <= b < j ==> Visit(visitor, buffer[32 * b..32 * b + 32]) == Continue
    {
      j := 0;
      while j < 16
        invariant 0 <= j <= 16
        invariant forall b :: 0 <= b < j ==> Visit(visitor, buffer[32 * b..32 * b + 32]) == Continue
      {
        verdict := Visit(visitor, buffer[32 * j..32 * j + 32]);
        if verdict != Continue { return; }
        j := j + 1;
      }
      return Continue, j;
    }

    /** The sector loop of fat32_iterate_dir within cluster n of a directory; k slots precede it. */
    method ScanCluster(c: nat, visitor: Visitor, ghost ch: seq<nat>, ghost n: nat, ghost k0: nat)
      returns (verdict: Verdict, sector: nat, offset: nat, entry: Entry32, i: nat, ghost k: nat)
      requires Valid() && IsChain(Im().fat, ch) && InData(Im(), ch) && n < |ch| && c == ch[n]
      requires 32 * k0 == n * ClusterSize(g) && AllContinue(visitor, Slots(Content(Im(), ch)), k0)
      modifies cache, cache.entries
      ensures Valid() && Fits(g, disk)
      ensures verdict == Continue ==> k == k0 + 16 * g.spc && AllContinue(visitor, Slots(Content(Im(), ch)), k)
      ensures verdict != Continue ==> Halted(g, Im(), ch, visitor, verdict, n, i, k, sector, offset, entry)
    {
      hide Content, Abs, Slots, IsChain, AllContinue, Halted, Lba, Cached, Visit;
      ChainBounds(Im().fat, ch);
      i, k, offset, entry, sector, verdict := 0, k0, 0, seq(32, _ => 0), 0, Continue;
      while i < g.spc
        invariant 0 <= i <= g.spc && k == k0 + 16 * i && verdict == Continue && Valid() && Fits(g, disk)
        invariant AllContinue(visitor, Slots(Content(Im(), ch)), k)
      {
        var j;
        verdict, sector, j, entry := ScanOne(c, i, visitor, ch, n, k);
        if verdict != Continue {
          k, offset := k + j, 32 * j;
          return;
        }
        i, k := i + 1, k + 16;
      }
    }

    /** One sector of fat32_iterate_dir. */
    method ScanOne(c: nat, i: nat, visitor: Visitor, ghost ch: seq<nat>, ghost n: nat, ghost k: nat)
      returns (verdict: Verdict, sector: nat, j: nat, entry: Entry32)
      requires Valid() && InData(Im(), ch) && n < |ch| && c == ch[n] && 2 <= c < g.Clusters() && i < g.spc
      requires 32 * k == n * ClusterSize(g) + 512 * i && AllContinue(visitor, Slots(Content(Im(), ch)), k)
      modifies cache, cache.entries
      ensures Valid() && Fits(g, disk) && sector == Lba(g, c, i)
      ensures verdict == Continue ==> AllContinue(visitor, Slots(Content(Im(), ch)), k + 16)
      ensures verdict != Continue ==> j < 16 && Halted(g, Im(), ch, visitor, verdict, n, i, k + j, sector, 32 * j, entry)
    {
      AbsWellSized(g, disk);
      sector := Lba(g, c, i);
      var buffer := ReadData(c, i);
      verdict, j := ScanSector(buffer, visitor);
      SectorSlots(g, Im(), ch, n, i, k, visitor, j);
      entry := seq(32, _ => 0);
      if verdict != Continue {
        entry := buffer[32 * j..32 * j + 32];
      }
    }

    /** fat32_iterate_dir: the first slot that the visitor does not pass over, or the last cluster. */
    method IterateDir(first: nat, visitor: Visitor, ghost ch: seq<nat>)
      returns (verdict: Verdict, sector: nat, offset: nat, entry: Entry32, last: nat, ghost n: nat, ghost i: nat, ghost k: nat)
      requires Valid() && IsChain(Im().fat, ch) && InData(Im(), ch) && ch[0] == first
      modifies cache, cache.entries
      ensures Valid() && Fits(g, disk)
      ensures verdict != Continue ==> Halted(g, Im(), ch, visitor, verdict, n, i, k, sector, offset, entry)
      ensures verdict == Continue ==> last == ch[|ch| - 1] && 32 * k == |Content(Im(), ch)|
      ensures verdict == Continue ==> AllContinue(visitor, Slots(Content(Im(), ch)), k)
    {
      hide Content, Abs, Slots, AllContinue, Halted, Lba, Cached, Visit;
      AbsWellSized(g, disk);
      ContentLength(g, Im(), ch);
      last, n, k := first, 0, 0;
      AllContinueNone(visitor, Slots(Content(Im(), ch)));
      while true
        invariant Valid() && Fits(g, disk) && 0 <= n < |ch| && last == ch[n]
        invariant 32 * k == n * ClusterSize(g) && AllContinue(visitor, Slots(Content(Im(), ch)), k)
        decreases |ch| - n
      {
        var j;
        verdict, sector, offset, entry, j, k := ScanCluster(last, visitor, ch, n, k);
        i := j;
        if verdict != Continue { return; }
        MulAdd(n, 1, ClusterSize(g));
        var next := GetNext(last);
        if next >= EOC { break; }
        last := next;
        n := n + 1;
      }
    }

    /** fat32_update_dirent */
    method UpdateDirent(sector: nat, offset: nat, e: Entry32, ghost c: nat, ghost i: nat)
      requires Valid() && 2 <= c < g.Clusters() && i < g.spc && sector == Lba(g, c, i) && offset + 32 <= 512
      modifies this`disk, cache, cache.entries
      ensures Valid() && Fits(g, disk) && WellSized(g, old(Im()))
      ensures Rewritten(g, old(Im()), Im(), c, Splice(Bytes(old(Im()).data[c]), 512 * i + offset, e))
    {
      hide Abs, Lba, Rewritten, Splice, Cached, Bytes;
      LbaInside(g, disk, c, i);
      SectorRewritten(g, disk, c, i, offset, e);
      var buffer := ReadSector(sector);
      buffer := Splice(buffer, offset, e);
      WriteSector(sector, buffer);
    }
  }

  lemma LbaInside(g: Geometry, disk: seq<Sector>, c: nat, i: nat)
    requires Fits(g, disk) && 2 <= c < g.Clusters() && i < g.spc
    ensures Lba(g, c, i) < |disk|
  {
    LbaNext(g, c, g.Clusters());
  }

  /** Rewriting part of one data sector, on the disk and in the image. */
  lemma SectorRewritten(g: Geometry, disk: seq<Sector>, c: nat, i: nat, offset: nat, t: seq<Byte>)
    requires Fits(g, disk) && 2 <= c < g.Clusters() && i < g.spc && offset + |t| <= 512 && Lba(g, c, i) < |disk|
    ensures WellSized(g, Abs(g, disk))
    ensures var disk': seq<Sector> := disk[Lba(g, c, i) := Splice(disk[Lba(g, c, i)], offset, t)];
            && Fits(g, disk')
            && Rewritten(g, Abs(g, disk), Abs(g, disk'), c, Splice(Bytes(Abs(g, disk).data[c]), 512 * i + offset, t))
  {
    var d: Sector := Splice(disk[Lba(g, c, i)], offset, t);
    var disk': seq<Sector> := disk[Lba(g, c, i) := d];
    WriteDataSector(g, disk, c, i, d);
    AbsWellSized(g, disk);
    AbsWellSized(g, disk');
    LbaNext(g, c, g.Clusters());
    BytesWrite(Abs(g, disk).data[c], i, offset, t, Abs(g, disk').data[c]);
  }

  /** The bytes from a up to b, as far as there are any. */
  ghost function Window(s: seq<Byte>, a: nat, b: nat): seq<Byte> {
    var e := if b < |s| then b else |s|;
    if a < e then s[a..e] else []
  }

  lemma FirstCount(fat: seq<nat>, ok: bool, c: nat)
    requires if ok then Free(fat, c) else FullBelow(fat, |fat|)
    ensures ok <==> FreeCount(fat) > 0
  {
    if ok { SomeCount(fat, c); } else { FullCount(fat, |fat|); }
  }

  lemma WrittenFits(g: Geometry, ch: seq<nat>, base: seq<Byte>, pos: nat, t: seq<Byte>, im: Image)
    requires Writing(g, im, ch, base, pos, t)
    ensures pos + |t| <= |ch| * ClusterSize(g)
  {}

  /** A write stops short only when it has filled the chain and taken every free cluster. */
  lemma WrittenSize(g: Geometry, im: Image, ch: seq<nat>, im': Image, ch': seq<nat>, offset: nat, want: nat, n: nat)
    requires Grown(g, im, ch, im', ch') && n <= want && ClusterSize(g) > 0
    requires var cs := ClusterSize(g); var pos := Landing(|ch| * cs, offset);
             && pos + n <= |ch'| * cs
             && (n < want ==> FullBelow(im'.fat, g.Clusters()) && pos + n == |ch'| * cs)
             && var least := if offset < |ch| * cs then |ch| else |ch| + 1;
             |ch'| == least || (|ch'| > least && (|ch'| - 1) * cs < pos + n)
    ensures var cs := ClusterSize(g); var free := FreeCount(im.fat);
            n == Fitting(cs, |ch| * cs, offset, want, free) && |ch'| * cs == NewRoom(cs, |ch| * cs, offset, n)
  {
    var cs, free := ClusterSize(g), FreeCount(im.fat);
    GrownCount(g, im, ch, im', ch');
    GrownSize(cs, |ch|, |ch'|, offset, n);
    MulAdd(|ch|, free, cs);
    MulMono(|ch'|, |ch| + free, cs);
    if n < want { FullCount(im'.fat, g.Clusters()); }
  }

  lemma SomeSize(g: Geometry)
    requires g.spc >= 1
    ensures ClusterSize(g) > 0
  {}

  /** An offset within n whole clusters falls into one of them, and one beyond does not. */
  lemma ReadReach(g: Geometry, offset: nat, n: nat)
    requires g.spc >= 1
    ensures ClusterIndex(g, offset) < n <==> offset < n * ClusterSize(g)
  {
    var k, o := ClusterIndex(g, offset), ClusterOffset(g, offset);
    if k < n {
      MulMono(k + 1, n, ClusterSize(g));
      MulAdd(k, 1, ClusterSize(g));
    } else {
      MulMono(n, k, ClusterSize(g));
    }
  }

  /** What fat32_iterate_dir is asked to look for. */
  datatype Visitor = FindName(name: Name) | FindFree

  datatype Verdict = Continue | Found | Stop

  /** fat32_find_entry_cb and fat32_find_free_cb */
  function Visit(visitor: Visitor, e: Entry32): Verdict {
    match visitor
    case FindName(name) =>
      if IsEnd(e) then Stop
      else if IsDeleted(e) || !Plain(e) then Continue
      else if NameOf(e) == name then Found
      else Continue
    case FindFree =>
      if IsEnd(e) || IsDeleted(e) then Found else Continue
  }

  ghost predicate AllContinue(visitor: Visitor, s: seq<Entry32>, k: nat) {
    k <= |s| && forall b :: 0 <= b < k ==> Visit(visitor, s[b]) == Continue
  }

  lemma AllContinueNone(visitor: Visitor, s: seq<Entry32>)
    ensures AllContinue(visitor, s, 0)
  {}

  /** Slot k of a directory chain lies at that offset of that sector of its cluster n. */
  ghost predicate SlotAt(g: Geometry, im: Image, ch: seq<nat>, n: nat, i: nat, k: nat, sector: nat, offset: nat) {
    && InData(im, ch) && n < |ch| && i < g.spc && offset + 32 <= 512
    && sector == Lba(g, ch[n], i)
    && 32 * k == n * ClusterSize(g) + 512 * i + offset
    && k < |Content(im, ch)| / 32
  }

  /** A scan that stopped at slot k, the first one the visitor did not pass over. */
  ghost predicate Halted(g: Geometry, im: Image, ch: seq<nat>, visitor: Visitor, verdict: Verdict,
                         n: nat, i: nat, k: nat, sector: nat, offset: nat, entry: Entry32) {
    && SlotAt(g, im, ch, n, i, k, sector, offset)
    && entry == Slots(Content(im, ch))[k]
    && Visit(visitor, entry) == verdict
    && AllContinue(visitor, Slots(Content(im, ch)), k)
  }

  /** The sixteen slots of sector i of cluster n. */
  lemma SectorSlots(g: Geometry, im: Image, ch: seq<nat>, n: nat, i: nat, k: nat, visitor: Visitor, j: nat)
    requires WellSized(g, im) && InData(im, ch) && n < |ch| && i < g.spc && j <= 16
    requires 32 * k == n * ClusterSize(g) + 512 * i
    requires AllContinue(visitor, Slots(Content(im, ch)), k)
    requires forall b :: 0 <= b < j ==> Visit(visitor, im.data[ch[n]][i][32 * b..32 * b + 32]) == Continue
    ensures AllContinue(visitor, Slots(Content(im, ch)), k + j)
    ensures j < 16 ==> k + j < |Content(im, ch)| / 32 && Slots(Content(im, ch))[k + j] == im.data[ch[n]][i][32 * j..32 * j + 32]
  {
    hide Content, Slots, InData, WellSized;
    var s := Slots(Content(im, ch));
    forall b | 0 <= b < k + j
      ensures b < |s| && Visit(visitor, s[b]) == Continue
    {
      if b >= k {
        OneSlot(g, im, ch, n, i, k, b - k);
      }
    }
    if j < 16 { OneSlot(g, im, ch, n, i, k, j); } else { OneSlot(g, im, ch, n, i, k, 15); }
  }

  lemma OneSlot(g: Geometry, im: Image, ch: seq<nat>, n: nat, i: nat, k: nat, b: nat)
    requires WellSized(g, im) && InData(im, ch) && n < |ch| && i < g.spc && b < 16
    requires 32 * k == n * ClusterSize(g) + 512 * i
    ensures k + b < |Content(im, ch)| / 32
    ensures Slots(Content(im, ch))[k + b] == im.data[ch[n]][i][32 * b..32 * b + 32]
  {
    hide Content, Bytes;
    var o := 512 * i + 32 * b;
    ContentSlice(g, im, ch, n, o, o + 32);
    SectorSlice(im.data[ch[n]], i, 32 * b, 32);
    var content := Content(im, ch);
    assert n * ClusterSize(g) + o == 32 * (k + b);
    assert Slots(content)[k + b] == content[32 * (k + b)..32 * (k + b) + 32];
  }
}
