/** The file operations of the FAT32 driver, as operations on names. */
module Fat32FileSystem {
  import opened Basics
  import opened BlockCache
  import opened Radix
  import opened Fat32Layout
  import opened Fat32Chain
  import opened Fat32Grow
  import opened Fat32Directory
  import opened Fat32Tree
  import opened Fat32Store
  import opened Fat32Volume
  import opened Fat32Names

  datatype Status = Ok | Exists | NoSpace | NotFound

  /** fs_node_t of a file: first cluster, length, and where its directory entry is. */
  class Node {
    var inode: nat
    var length: nat
    const sector: nat
    const offset: nat

    constructor (inode: nat, length: nat, sector: nat, offset: nat)
      ensures this.inode == inode && this.length == length && this.sector == sector && this.offset == offset
    {
      this.inode, this.length, this.sector, this.offset := inode, length, sector, offset;
    }
  }

  ghost predicate Describes(m: Store, dirs: set<nat>, d: nat, k: nat, inode: nat, length: nat) {
    && Owner(m, dirs, d, k) && !IsDirectory(EntryAt(m, d, k))
    && ClusterOf(EntryAt(m, d, k)) == inode && SizeOf(EntryAt(m, d, k)) == length
  }

  /** The store with slot k of directory d set to e. */
  ghost function SlotPut(m: Store, d: nat, k: nat, e: Entry32): Store
    requires d in m && k < |m[d]| / 32
  {
    m[d := Splice(m[d], 32 * k, e)]
  }

  /** Unchanged, or directory d longer by a cluster of zeros. */
  ghost predicate Extended(g: Geometry, m: Store, d: nat, m': Store) {
    d in m && (m' == m || m' == m[d := m[d] + Zeros(ClusterSize(g))])
  }

  const ATTR_ARCHIVE: Byte := 0x20

  /** The entry of a new, empty file. */
  function FreshFile(n: Name): Entry32 { n + [ATTR_ARCHIVE] + seq(20, _ => 0) }

  /** The entry of a new directory whose chain starts at c. */
  function FreshFolder(n: Name, c: nat): Entry32 {
    WithCluster(n + [ATTR_DIRECTORY] + seq(20, _ => 0), c)
  }

  const DOT_NAME: Name := [0x2E, 0x20, 0x20, 0x20, 0x20, 0x20, 0x20, 0x20, 0x20, 0x20, 0x20]
  const DOTDOT_NAME: Name := [0x2E, 0x2E, 0x20, 0x20, 0x20, 0x20, 0x20, 0x20, 0x20, 0x20, 0x20]

  /** The first sector of a new directory: itself, its parent, and end markers. */
  function DotSector(c: nat, parent: nat): Sector {
    FreshFolder(DOT_NAME, c) + FreshFolder(DOTDOT_NAME, parent) + seq(448, _ => 0)
  }

  /** A new directory: its two dot entries, then end markers only. */
  ghost predicate NewFolder(b: seq<Byte>) {
    && |b| % 32 == 0 && DirOk(Slots(b))
    && forall k :: 0 <= k < |b| / 32 ==> !Ordinary(Slots(b)[k])
  }

  /** A directory that starts with the entries "." for cluster c and ".." for its parent's, and holds
      nothing else. */
  ghost predicate Dotted(b: seq<Byte>, c: nat, parent: nat) {
    && |b| >= 64
    && NameOf(Slots(b)[0]) == [0x2E] + seq(10, _ => 0x20) && NameOf(Slots(b)[1]) == [0x2E, 0x2E] + seq(9, _ => 0x20)
    && IsDirectory(Slots(b)[0]) && ClusterOf(Slots(b)[0]) == c
    && IsDirectory(Slots(b)[1]) && ClusterOf(Slots(b)[1]) == parent
    && forall k :: 2 <= k < |Slots(b)| ==> Slots(b)[k][0] == 0
  }

  ghost predicate EmptyFolder(m: Store, c: nat) {
    c in m && forall n: Name :: Proper(n) ==> View(m, c, n) == Missing
  }

  /** The store once a new directory c is entered in slot k of d. */
  ghost predicate FolderMade(g: Geometry, m: Store, d: nat, k: nat, c: nat, e: Entry32, parent: nat, m': Store) {
    var z := Zeros(ClusterSize(g));
    && 512 <= |z| && d in m && d != c && k < |m[d]| / 32
    && m' == SlotPut(m[c := z], d, k, e)[c := Splice(z, 0, DotSector(c, parent))]
  }

  /** A new chain c of zeros, and slot k of d pointing to it. */
  ghost predicate Started(g: Geometry, m: Store, d: nat, k: nat, c: nat, m': Store) {
    && d in m && d != c && k < |m[d]| / 32
    && m' == SlotPut(m[c := Zeros(ClusterSize(g))], d, k, WithCluster(Slots(m[d])[k], c))
  }

  /** The file as it is before its bytes are written: c is its chain, entered in its slot. */
  ghost predicate Ready(m: Store, dirs: set<nat>, d: nat, k: nat, c: nat, m1: Store) {
    && d in m && k < |m[d]| / 32 && c != 0 && c != d && c in m1
    && m1 == SlotPut(m[c := m1[c]], d, k, WithCluster(Slots(m[d])[k], c))
    && (c in m ==> m1[c] == m[c] && ClusterOf(Slots(m[d])[k]) == c)
    && (c !in m ==> ClusterOf(Slots(m[d])[k]) == 0)
  }

  ghost function WrittenEntry(e: Entry32, c: nat, size: nat, size': nat): Entry32 {
    if size' > size then WithSize(WithCluster(e, c), size') else WithCluster(e, c)
  }

  ghost function Larger(a: nat, b: nat): nat { if a < b then b else a }

  /** A byte string with t put over it at pos, longer if t reaches beyond its end. */
  ghost function Overwrite(b: seq<Byte>, pos: nat, t: seq<Byte>): seq<Byte>
    requires pos <= |b|
  {
    if pos + |t| <= |b| then Splice(b, pos, t) else b[..pos] + t
  }

  /** What a write of t at offset to the file in slot k of d leaves, from the bytes of its chain room and
      its length size: the chain's bytes and the new length, whether or not the chain reaches so far. */
  ghost predicate Wrote(cs: nat, m: Store, d: nat, k: nat, room: seq<Byte>, size: nat, offset: nat, t: seq<Byte>,
                        m': Store, c: nat, size': nat)
  {
    && cs > 0 && d in m && d in m' && k < |m[d]| / 32 && c in m'
    && size' == Larger(size, offset + |t|) && m'[c] == Overlaid(cs, room, offset, t)
    && View(m', d, NameOf(EntryAt(m, d, k))) == File(Prefix(m'[c], size'), size')
  }

  /** A write of count bytes at offset leaves a chain of room bytes long enough for its new length. */
  ghost predicate Reaches(cs: nat, room: nat, offset: nat, count: nat)
    requires cs > 0
  {
    offset <= room || offset + count <= room + Rounded(cs, count)
  }

  /** So the length a write leaves is honest exactly in that case, if it was before. */
  lemma LengthReached(cs: nat, room: nat, size: nat, offset: nat, count: nat)
    requires cs > 0 && size <= room
    ensures Larger(size, offset + count) <= NewRoom(cs, room, offset, count) <==> Reaches(cs, room, offset, count)
  {
    NewRoomHolds(cs, room, offset, count);
    RoundedHolds(cs, count);
  }

  /** How many clusters a write can still take, once a file without one has got its first. */
  ghost function Spare(fat: seq<nat>, inode: nat): nat {
    if inode == 0 && FreeCount(fat) > 0 then FreeCount(fat) - 1 else FreeCount(fat)
  }

  /** No cluster is to be had for a write that needs one before its first byte. */
  ghost predicate Stalls(fat: seq<nat>, inode: nat, room: nat, offset: nat) {
    (inode == 0 && FreeCount(fat) == 0) || (offset >= room && Spare(fat, inode) == 0)
  }

  /** The file under name n, as long as its bytes, has t over them at offset. */
  ghost predicate Replaced(m: Store, d: nat, n: Name, size: nat, offset: nat, t: seq<Byte>, m': Store) {
    && d in m && d in m' && View(m, d, n).File? && |View(m, d, n).bytes| == View(m, d, n).length == size && offset <= size
    && View(m', d, n) == File(Overwrite(View(m, d, n).bytes, offset, t), Larger(size, offset + |t|))
  }

  /** A slot at that offset of sector i of cluster c. */
  ghost predicate InSector(g: Geometry, c: nat, i: nat, sector: nat, offset: nat) {
    2 <= c < g.Clusters() && i < g.spc && sector == Lba(g, c, i) && offset + 32 <= 512
  }

  /** The table with the entries of clusters ch zeroed. */
  ghost predicate Freeing(fat: seq<nat>, ch: seq<nat>, fat': seq<nat>) {
    |fat'| == |fat| && forall b :: 0 <= b < |fat| ==> fat'[b] == if b in ch then 0 else fat[b]
  }

  /** The store after the replaced target, if any, was marked deleted. */
  ghost predicate Cleared(m: Store, d: nat, n: Name, replaced: bool, kt: nat, m1: Store) {
    d in m &&
    if replaced then
      kt < |m[d]| / 32 && At(Slots(m[d]), kt, n) && m1 == SlotPut(m, d, kt, Deleted(Slots(m[d])[kt]))
    else m1 == m && Lookup(Slots(m[d]), n) == None
  }

  /** A deleted slot precedes the one that name n stands in. */
  ghost predicate HoleBefore(s: seq<Entry32>, n: Name) {
    exists j, k :: 0 <= j < k && At(s, k, n) && IsDeleted(s[j])
  }

  /** What rename does to every name. Between different names the node moves, replacing whatever
      the new name stood for, unless the new name starts with the deleted marker, when it is lost.
      Onto itself a name survives exactly when a deleted slot precedes its own. */
  ghost predicate Renamed(m: Store, dirs: set<nat>, d: nat, n: Name, d': nat, n': Name, m': Store) {
    && d in dirs && d' in dirs && dirs <= m.Keys && dirs <= m'.Keys
    && (if d == d' && n == n' then
          View(m', d, n) == if HoleBefore(Slots(m[d]), n) then View(m, d, n) else Missing
        else
          && View(m', d, n) == Missing
          && View(m', d', n') == if n'[0] == DELETED then Missing else View(m, d, n))
    && forall x, y: Name :: x in dirs && Proper(y) && !(x == d && y == n) && !(x == d' && y == n') ==> View(m', x, y) == View(m, x, y)
  }

  /** A scan for a name that stopped or ran out says whether and where the name is. */
  lemma ScanFound(s: seq<Entry32>, name: Name, k: nat)
    requires k < |s| && Visit(FindName(name), s[k]) == Found
    ensures At(s, k, name)
  {}

  lemma ScanStopped(s: seq<Entry32>, name: Name, k: nat)
    requires DirOk(s) && k < |s| && Visit(FindName(name), s[k]) == Stop && AllContinue(FindName(name), s, k)
    ensures Lookup(s, name) == None
  {
    forall j | 0 <= j < |s|
      ensures !At(s, j, name)
    {
      if j < k { assert Visit(FindName(name), s[j]) == Continue; }
    }
    LookupNone(s, name);
  }

  lemma ScanExhausted(s: seq<Entry32>, name: Name)
    requires AllContinue(FindName(name), s, |s|)
    ensures Lookup(s, name) == None
  {
    forall j | 0 <= j < |s|
      ensures !At(s, j, name)
    {
      assert Visit(FindName(name), s[j]) == Continue;
    }
    LookupNone(s, name);
  }

  ghost predicate NoHole(s: seq<Entry32>) {
    forall j :: 0 <= j < |s| ==> !IsDeleted(s[j])
  }

  lemma ScanNoHole(s: seq<Entry32>, k: nat)
    requires AllContinue(FindFree, s, k) && k == |s|
    ensures NoHole(s)
  {
    forall j | 0 <= j < |s|
      ensures !IsDeleted(s[j])
    {
      assert Visit(FindFree, s[j]) == Continue;
    }
  }

  lemma ScanFree(s: seq<Entry32>, k: nat)
    requires k < |s| && Visit(FindFree, s[k]) == Found && AllContinue(FindFree, s, k)
    ensures FirstFree(s, k) && Fillable(s, k)
  {
    forall j | 0 <= j < k
      ensures !IsEnd(s[j]) && !IsDeleted(s[j])
    {
      assert Visit(FindFree, s[j]) == Continue;
    }
  }

  class FileSystem {
    const vol: Volume
    const root: nat
    /** The live chains by first cluster, and which of them are directories. */
    ghost var chains: map<nat, seq<nat>>
    ghost var dirs: set<nat>

    constructor (vol: Volume, root: nat, ghost chains: map<nat, seq<nat>>, ghost dirs: set<nat>)
      requires vol.Valid() && ImageOk(vol.g, vol.Im(), chains)
      requires TreeOk(StoreOf(vol.g, vol.Im(), chains), dirs, root)
      ensures Valid() && this.vol == vol && this.chains == chains && this.dirs == dirs
    {
      this.vol, this.root, this.chains, this.dirs := vol, root, chains, dirs;
    }

    /** The chains are chains and do not meet. */
    ghost predicate Sound()
      reads this, vol, vol.cache, vol.cache.entries
    {
      vol.Valid() && ImageOk(vol.g, vol.Im(), chains)
    }

    ghost function Contents(): Store
      requires Fits(vol.g, vol.disk) && ImageOk(vol.g, vol.Im(), chains)
      reads this, vol
    {
      StoreOf(vol.g, vol.Im(), chains)
    }

    ghost predicate Valid()
      reads this, vol, vol.cache, vol.cache.entries
      ensures Valid() ==> dirs <= chains.Keys
    {
      Sound() && TreeOk(Contents(), dirs, root)
    }

    /** fat32_find_dirent_in_chain */
    method FindDirent(d: nat, name: Name)
      returns (found: bool, sector: nat, offset: nat, entry: Entry32, ghost n: nat, ghost i: nat, ghost k: nat)
      requires Valid() && d in dirs
      modifies vol.cache, vol.cache.entries
      ensures Valid()
      ensures found ==> At(Slots(Contents()[d]), k, name) && entry == Slots(Contents()[d])[k]
      ensures found ==> SlotAt(vol.g, vol.Im(), chains[d], n, i, k, sector, offset)
      ensures !found ==> Lookup(Slots(Contents()[d]), name) == None
    {
      hide Abs, Content, Slots, AllContinue, Visit, DirOk, NoSharing, EntryOk, IsChain;
      ghost var ch := chains[d];
      DirChain(vol.g, vol.Im(), chains, dirs, root, d);
      var verdict, last;
      verdict, sector, offset, entry, last, n, i, k := vol.IterateDir(d, FindName(name), ch);
      ghost var s := Slots(Content(vol.Im(), ch));
      if verdict == Found {
        found := true;
        ScanFound(s, name, k);
      } else {
        found := false;
        if verdict == Stop { ScanStopped(s, name, k); } else { ScanExhausted(s, name); }
      }
    }

    /** fat32_find_free_dirent_in_chain: the first free slot, on a new cluster if need be. */
    method FindFreeDirent(d: nat) returns (ok: bool, sector: nat, offset: nat, ghost n: nat, ghost i: nat, ghost k: nat)
      requires Valid() && d in dirs
      modifies vol`disk, vol.cache, vol.cache.entries, this`chains
      ensures Valid() && dirs == old(dirs) && d in chains
      ensures chains == old(chains)[d := chains[d]] && old(chains)[d] <= chains[d]
      ensures Extended(vol.g, old(Contents()), d, Contents())
      ensures AllSame(old(Contents()), dirs, Contents(), dirs)
      ensures ok ==> FirstFree(Slots(Contents()[d]), k) && SlotAt(vol.g, vol.Im(), chains[d], n, i, k, sector, offset)
      ensures !ok ==> Contents() == old(Contents()) && FullBelow(vol.Im().fat, vol.g.Clusters()) && NoHole(Slots(Contents()[d]))
    {
      hide Abs, Content, Slots, AllContinue, Visit, DirOk, NoSharing, EntryOk, IsChain, FirstFree, Fillable, NoHole;
      ghost var ch, im, m := chains[d], vol.Im(), Contents();
      DirChain(vol.g, im, chains, dirs, root, d);
      var verdict, entry, last;
      verdict, sector, offset, entry, last, n, i, k := vol.IterateDir(d, FindFree, ch);
      ExtendedSame(vol.g, m, d);
      assert chains == chains[d := ch];
      if verdict != Continue {
        ok := true;
        FreeVerdict(entry);
        ScanFree(Slots(Content(vol.Im(), ch)), k);
      } else {
        ok, sector := GrowDir(d, last, k);
        offset, n, i := 0, |ch|, 0;
      }
    }

    /** The growing half of fat32_find_free_dirent_in_chain, all k slots being in use. */
    method GrowDir(ghost d: nat, last: nat, ghost k: nat) returns (ok: bool, sector: nat)
      requires Valid() && d in dirs && d in chains && |chains[d]| > 0 && last == chains[d][|chains[d]| - 1]
      requires 32 * k == |Contents()[d]| && AllContinue(FindFree, Slots(Contents()[d]), k)
      modifies vol`disk, vol.cache, vol.cache.entries, this`chains
      ensures Valid() && d in chains
      ensures chains == old(chains)[d := chains[d]] && old(chains)[d] <= chains[d]
      ensures Extended(vol.g, old(Contents()), d, Contents())
      ensures AllSame(old(Contents()), dirs, Contents(), dirs)
      ensures ok ==> FirstFree(Slots(Contents()[d]), k) && SlotAt(vol.g, vol.Im(), chains[d], |old(chains)[d]|, 0, k, sector, 0)
      ensures !ok ==> Contents() == old(Contents()) && FullBelow(vol.Im().fat, vol.g.Clusters()) && NoHole(Slots(Contents()[d]))
    {
      hide Abs, Content, Slots, AllContinue, TreeOk, IsChain, FirstFree, NoHole, AllSame, Extended, SlotAt;
      ghost var ch, im, m := chains[d], vol.Im(), Contents();
      DirChain(vol.g, im, chains, dirs, root, d);
      ExtendedSame(vol.g, m, d);
      SameStore(m, dirs);
      ScanNoHole(Slots(m[d]), k);
      var c;
      ok, c := vol.AppendCluster(last, ch);
      assert chains == chains[d := ch];
      if ok {
        sector := Lba(vol.g, c, 0);
        DirGrown(vol.g, im, chains, dirs, root, d, c, k);
        chains := chains[d := ch + [c]];
      } else {
        sector := 0;
      }
    }

    /** fat32_update_dirent on slot k of directory d */
    method SetSlot(ghost d: nat, sector: nat, offset: nat, e: Entry32, ghost n: nat, ghost i: nat, ghost k: nat)
      requires Sound() && d in chains && SlotAt(vol.g, vol.Im(), chains[d], n, i, k, sector, offset)
      modifies vol`disk, vol.cache, vol.cache.entries
      ensures Sound()
      ensures k < |old(Contents())[d]| / 32 && Contents() == SlotPut(old(Contents()), d, k, e)
      ensures vol.Im().fat == old(vol.Im()).fat
    {
      hide Abs, Content, Slots, IsChain, Rewritten, Bytes, Lba;
      ghost var ch, im := chains[d], vol.Im();
      SlotBounds(vol.g, im, chains, d, n);
      vol.UpdateDirent(sector, offset, e, ch[n], i);
      SlotRewritten(vol.g, im, chains, d, n, i, k, sector, offset, e, vol.Im());
    }

    /** fat32_create_fs: an empty file under a name that was free. A name whose first byte is the
        deleted marker is written, but no lookup sees it. */
    method Create(d: nat, name: seq<Byte>) returns (r: Status)
      requires Valid() && d in dirs && 0 !in name
      modifies vol`disk, vol.cache, vol.cache.entries, this`chains
      ensures Valid() && dirs == old(dirs)
      ensures r != NotFound && (r == Exists <==> Lookup(Slots(old(Contents())[d]), DosName(name)) != None)
      ensures r != Ok ==> AllSame(old(Contents()), dirs, Contents(), dirs)
      ensures r == NoSpace ==> FullBelow(vol.Im().fat, vol.g.Clusters())
      ensures r == Ok ==> OthersSame(old(Contents()), dirs, Contents(), dirs, d, DosName(name))
      ensures r == Ok ==> View(Contents(), d, DosName(name)) == (if DosName(name)[0] == DELETED then Missing else File([], 0))
    {
      hide Abs, Content, Slots, NoSharing, Lookup, EntryOk, Chains, DirOk, FirstFree;
      ghost var m := Contents();
      var dos := ToDosName(name);
      DosNameProper(name);
      var found, sector, offset, entry;
      ghost var n, i, k;
      found, sector, offset, entry, n, i, k := FindDirent(d, dos);
      if found {
        LookupAt(Slots(m[d]), dos, k);
        return Exists;
      }
      var ok;
      ok, sector, offset, n, i, k := FindFreeDirent(d);
      if !ok { return NoSpace; }
      ghost var m1 := Contents();
      SlotAtStore(vol.g, vol.Im(), chains, d, n, i, k, sector, offset);
      var e := FreshFile(dos);
      SetSlot(d, sector, offset, e, n, i, k);
      CreateEffect(m, m1, dirs, root, d, k, dos, e);
      return Ok;
    }

    /** fat32_unlink_fs: the name is gone, and exactly its chain's clusters are free again. A directory
        may hold its own entry, and then it goes with it. */
    method Unlink(d: nat, name: seq<Byte>) returns (r: Status)
      requires Valid() && d in dirs && 0 !in name
      modifies vol`disk, vol.cache, vol.cache.entries, this`chains, this`dirs
      ensures Valid() && (d in dirs <==> View(old(Contents()), d, DosName(name)) != Folder(d))
      ensures r == if Lookup(Slots(old(Contents())[d]), DosName(name)) == None then NotFound else Ok
      ensures r == NotFound ==> Contents() == old(Contents()) && dirs == old(dirs)
      ensures r == Ok && d in dirs ==> View(Contents(), d, DosName(name)) == Missing
      ensures r == Ok ==> OthersSame(old(Contents()), old(dirs), Contents(), dirs, d, DosName(name))
      ensures r == Ok ==>
                var c := ClusterOf(Lookup(Slots(old(Contents())[d]), DosName(name)).value);
                && chains == old(chains) - {c} && dirs == old(dirs) - {c}
                && Freeing(old(vol.Im()).fat, if c in old(chains) then old(chains)[c] else [], vol.Im().fat)
    {
      hide Abs, Content, Slots, Lookup, ImageOk, TreeOk, Freeing, SlotAt, At, OthersSame, View;
      ghost var m, dirs0 := Contents(), dirs;
      var dos := ToDosName(name);
      DosNameProper(name);
      var found, sector, offset, entry;
      ghost var n, i, k;
      found, sector, offset, entry, n, i, k := FindDirent(d, dos);
      MissingView(m, d, dos);
      if !found { return NotFound; }
      UnlinkTarget(m, dirs, root, d, k, dos);
      SlotInSector(vol.g, vol.Im(), chains, d, n, i, k, sector, offset);
      ghost var c := chains[d][n];
      Release(ClusterOf(entry), d, n, i, k, sector, offset);
      Strike(d, sector, offset, Deleted(entry), c, n, i, k);
      UnlinkEffect(m, dirs0, root, d, k, entry, dos);
      return Ok;
    }

    /** The freeing half of fat32_unlink_fs. */
    method Release(cluster: nat, ghost d: nat, ghost n: nat, ghost i: nat, ghost k: nat, ghost sector: nat, ghost offset: nat)
      requires Sound() && d in chains && (cluster != 0 ==> cluster in chains)
      requires SlotAt(vol.g, vol.Im(), chains[d], n, i, k, sector, offset) && 0 !in chains
      modifies vol`disk, vol.cache, vol.cache.entries, this`chains, this`dirs
      ensures Sound() && Contents() == old(Contents()) - {cluster}
      ensures chains == old(chains) - {cluster} && dirs == old(dirs) - {cluster}
      ensures cluster != d ==> d in chains && chains[d] == old(chains)[d] && SlotAt(vol.g, vol.Im(), chains[d], n, i, k, sector, offset)
      ensures n < |old(chains)[d]| && InSector(vol.g, old(chains)[d][n], i, sector, offset)
      ensures cluster == d ==> Free(vol.Im().fat, old(chains)[d][n])
      ensures Freeing(old(vol.Im()).fat, if cluster in old(chains) then old(chains)[cluster] else [], vol.Im().fat)
    {
      hide Abs, Content, Chains, Freed, Inside, SlotAt;
      ghost var im := vol.Im();
      SlotInSector(vol.g, im, chains, d, n, i, k, sector, offset);
      if cluster != 0 {
        StoreFreed(vol.g, im, chains, cluster);
        vol.FreeChain(cluster);
        SlotAtData(vol.g, im, vol.Im(), chains[d], n, i, k, sector, offset);
      } else {
        FreeingNone(im.fat);
        assert Contents() - {cluster} == Contents() && chains - {cluster} == chains;
      }
      chains, dirs := chains - {cluster}, dirs - {cluster};
    }

    /** The last step of fat32_unlink_fs: an update of slot k of directory d, or of a sector of a cluster
        that was d's and is free by now. */
    method Strike(ghost d: nat, sector: nat, offset: nat, e: Entry32, ghost c: nat, ghost n: nat, ghost i: nat, ghost k: nat)
      requires Sound() && InSector(vol.g, c, i, sector, offset)
      requires if d in chains then n < |chains[d]| && c == chains[d][n] && SlotAt(vol.g, vol.Im(), chains[d], n, i, k, sector, offset)
               else Free(vol.Im().fat, c)
      modifies vol`disk, vol.cache, vol.cache.entries
      ensures Sound() && vol.Im().fat == old(vol.Im()).fat
      ensures d in chains ==> k < |old(Contents())[d]| / 32 && Contents() == SlotPut(old(Contents()), d, k, e)
      ensures d !in chains ==> Contents() == old(Contents())
    {
      hide Abs, Content, Slots, IsChain, Bytes, Lba;
      ghost var im := vol.Im();
      vol.UpdateDirent(sector, offset, e, c, i);
      if d in chains {
        SlotRewritten(vol.g, im, chains, d, n, i, k, sector, offset, e, vol.Im());
      } else {
        StoreElsewhere(vol.g, im, chains, c, vol.Im(), Splice(Bytes(im.data[c]), 512 * i + offset, e));
      }
    }

    /** node stands for the file whose entry is slot k of directory d. */
    ghost predicate Names(node: Node, d: nat, n: nat, i: nat, k: nat)
      reads this, vol, node
      requires Fits(vol.g, vol.disk) && ImageOk(vol.g, vol.Im(), chains)
    {
      && d in chains && SlotAt(vol.g, vol.Im(), chains[d], n, i, k, node.sector, node.offset)
      && Describes(Contents(), dirs, d, k, node.inode, node.length)
    }

    /** The entry at slot k of directory d, read from its sector. */
    method ReadDirent(sector: nat, offset: nat, ghost d: nat, ghost n: nat, ghost i: nat, ghost k: nat) returns (e: Entry32)
      requires Sound() && d in chains && SlotAt(vol.g, vol.Im(), chains[d], n, i, k, sector, offset)
      modifies vol.cache, vol.cache.entries
      ensures Sound() && k < |Contents()[d]| / 32 && e == Slots(Contents()[d])[k]
    {
      hide Abs, Content, Slots, IsChain, Lba, Cached;
      SlotBounds(vol.g, vol.Im(), chains, d, n);
      LbaInside(vol.g, vol.disk, chains[d][n], i);
      SlotSector(vol.g, vol.disk, chains[d], n, i, k, sector, offset);
      var buffer := vol.ReadSector(sector);
      e := buffer[offset..offset + 32];
    }

    /** The first cluster of a file that has none yet, entered in its directory entry. */
    method StartChain(node: Node, ghost d: nat, ghost n: nat, ghost i: nat, ghost k: nat) returns (ok: bool)
      requires Sound() && d in chains && SlotAt(vol.g, vol.Im(), chains[d], n, i, k, node.sector, node.offset)
      modifies vol`disk, vol.cache, vol.cache.entries, this`chains, node`inode
      ensures Sound() && d in chains && SlotAt(vol.g, vol.Im(), chains[d], n, i, k, node.sector, node.offset)
      ensures !ok ==> Contents() == old(Contents()) && chains == old(chains) && node.inode == old(node.inode)
      ensures !ok ==> FullBelow(vol.Im().fat, vol.g.Clusters())
      ensures ok <==> FreeCount(old(vol.Im()).fat) > 0
      ensures ok ==> FreeCount(vol.Im().fat) == FreeCount(old(vol.Im()).fat) - 1
      ensures ok ==> node.inode !in old(chains) && 2 <= node.inode < 0x1000_0000 && chains == old(chains)[node.inode := [node.inode]]
      ensures ok ==> Started(vol.g, old(Contents()), d, k, node.inode, Contents())
    {
      hide Abs, Content, Slots, IsChain, Chains, SlotAt, SlotPut;
      ghost var im, m := vol.Im(), Contents();
      var c;
      ok, c := vol.AllocCluster();
      FirstCount(im.fat, ok, c);
      if ok {
        TakenCount(im.fat, c);
        StoreTaken(vol.g, im, chains, c);
        SlotAtTaken(vol.g, im, chains, d, c, n, i, k, node.sector, node.offset);
        ClusterRange(vol.g, im, chains, c);
        chains := chains[c := [c]];
        node.inode := c;
        var e := ReadDirent(node.sector, node.offset, d, n, i, k);
        ghost var im1 := vol.Im();
        SetSlot(d, node.sector, node.offset, WithCluster(e, c), n, i, k);
        SlotAtSet(vol.g, im1, vol.Im(), chains, d, n, i, k, node.sector, node.offset);
      }
    }

    /** The chain half of fat32_write_fs: bytes into chain c, which may grow. It stops at once when the
        chain does not reach the offset and no cluster is free. */
    method WriteBytes(c: nat, at: nat, buf: seq<Byte>, ghost d: nat, ghost n: nat, ghost i: nat, ghost k: nat, ghost sector: nat, ghost offset: nat)
      returns (count: nat, stopped: bool)
      requires Sound() && c in chains && d in chains && c != d && at + |buf| < 0x1_0000_0000
      requires SlotAt(vol.g, vol.Im(), chains[d], n, i, k, sector, offset)
      modifies vol`disk, vol.cache, vol.cache.entries, this`chains
      ensures Sound() && d in chains && chains.Keys == old(chains).Keys
      ensures SlotAt(vol.g, vol.Im(), chains[d], n, i, k, sector, offset)
      ensures count <= |buf| && (count < |buf| || stopped ==> FullBelow(vol.Im().fat, vol.g.Clusters()))
      ensures c in Contents() && Contents() == old(Contents())[c := Contents()[c]]
      ensures stopped <==> at >= |old(Contents())[c]| && FreeCount(old(vol.Im()).fat) == 0
      ensures stopped ==> count == 0 && Contents() == old(Contents())
      ensures ClusterSize(vol.g) > 0
      ensures !stopped ==> count == Fitting(ClusterSize(vol.g), |old(Contents())[c]|, at, |buf|, FreeCount(old(vol.Im()).fat))
      ensures !stopped ==> Contents()[c] == Overlaid(ClusterSize(vol.g), old(Contents())[c], at, buf[..count])
    {
      hide Abs, Content, IsChain, SlotAt, Grown, Writing, Fitting, NewRoom, Overlaid, FreeCount;
      SomeSize(vol.g);
      ghost var im, ch := vol.Im(), chains[c];
      ChainReady(vol.g, im, chains, c);
      ghost var ch';
      ContentLength(vol.g, im, ch);
      count, stopped, ch' := vol.WriteFile(c, at, buf, ch);
      StoreGrown(vol.g, im, chains, c, vol.Im(), ch');
      SlotAtGrown(vol.g, im, chains, c, vol.Im(), ch', d, n, i, k, sector, offset);
      if stopped {
        assert chains[c := ch'] == chains;
      } else {
        WritingEffect(vol.g, im, chains, c, vol.Im(), ch', at, buf[..count]);
      }
      chains := chains[c := ch'];
    }

    /** The bytes a write starts from: those of the file's chain, with what lies beyond its length, or
        the zeros of the cluster that a file without one is given first. */
    ghost function Room(node: Node): seq<Byte>
      reads this, vol, node
      requires Fits(vol.g, vol.disk) && ImageOk(vol.g, vol.Im(), chains)
    {
      if node.inode in Contents() then Contents()[node.inode] else Zeros(ClusterSize(vol.g))
    }

    /** fat32_write_fs at any offset. The bytes go over the chain's bytes at the offset, or behind them
        when the chain is shorter, as far as the free clusters go; the length becomes offset + count if
        that is more, even when the chain is not so long. stalled says that no cluster could be had
        before anything was written. */
    method Write(node: Node, offset: nat, buf: seq<Byte>, ghost d: nat, ghost n: nat, ghost i: nat, ghost k: nat)
      returns (count: nat, ghost stalled: bool)
      requires Valid() && Names(node, d, n, i, k) && offset + |buf| < 0x1_0000_0000
      modifies vol`disk, vol.cache, vol.cache.entries, this`chains, node`inode, node`length
      ensures Valid() && dirs == old(dirs) && Names(node, d, n, i, k)
      ensures count <= |buf| && (count < |buf| || stalled ==> FullBelow(vol.Im().fat, vol.g.Clusters()))
      ensures NameOf(EntryAt(Contents(), d, k)) == NameOf(EntryAt(old(Contents()), d, k))
      ensures ClusterSize(vol.g) > 0
      ensures stalled <==> Stalls(old(vol.Im()).fat, old(node.inode), |old(Room(node))|, offset)
      ensures stalled ==> count == 0 && node.length == old(node.length) && AllSame(old(Contents()), dirs, Contents(), dirs)
      ensures !stalled ==> count == Fitting(ClusterSize(vol.g), |old(Room(node))|, offset, |buf|, Spare(old(vol.Im()).fat, old(node.inode)))
      ensures !stalled ==> Wrote(ClusterSize(vol.g), old(Contents()), d, k, old(Room(node)), old(node.length),
                                 offset, buf[..count], Contents(), node.inode, node.length)
      ensures !stalled && old(node.length) <= |old(Room(node))| ==>
                (node.length <= |Room(node)| <==> Reaches(ClusterSize(vol.g), |old(Room(node))|, offset, count))
      ensures OthersSame(old(Contents()), dirs, Contents(), dirs, d, NameOf(EntryAt(old(Contents()), d, k)))
      ensures offset <= old(node.length) <= |old(Room(node))| ==>
                && node.length == Larger(old(node.length), offset + count)
                && Replaced(old(Contents()), d, NameOf(EntryAt(old(Contents()), d, k)), old(node.length), offset, buf[..count], Contents())
    {
      hide Abs, Content, Slots, ImageOk, TreeOk, SlotAt, OthersSame, AllSame, View, Overlaid, SlotPut, Ready, Describes,
           NameOf, Wrote, Replaced, Fitting, NewRoom, Reaches, FreeCount, FullBelow, ClusterSize, Stalls;
      ghost var m, size := Contents(), node.length;
      NodeFacts(m, dirs, root, d, k, node.inode, node.length);
      var ok;
      ghost var m1;
      count, ok, m1 := PutBytes(node, offset, buf, d, n, i, k);
      if !ok { return 0, true; }
      stalled := false;
      ghost var m2 := Contents();
      if offset + count > node.length { PutLength(node, offset + count, d, n, i, k); }
      WriteDone(ClusterSize(vol.g), m, m1, m2, Contents(), dirs, root, d, k, old(node.inode), node.inode, size, node.length, offset, buf[..count]);
    }

    /** The bytes of a write, with the clusters they need; the length is still to be put down. m1 is the
        store between, when the file had its first cluster and no bytes yet. */
    method PutBytes(node: Node, offset: nat, buf: seq<Byte>, ghost d: nat, ghost n: nat, ghost i: nat, ghost k: nat)
      returns (count: nat, ok: bool, ghost m1: Store)
      requires Valid() && Names(node, d, n, i, k) && offset + |buf| < 0x1_0000_0000
      modifies vol`disk, vol.cache, vol.cache.entries, this`chains, node`inode
      ensures Sound() && d in chains && SlotAt(vol.g, vol.Im(), chains[d], n, i, k, node.sector, node.offset)
      ensures count <= |buf| && (count < |buf| || !ok ==> FullBelow(vol.Im().fat, vol.g.Clusters()))
      ensures ClusterSize(vol.g) > 0
      ensures !ok <==> Stalls(old(vol.Im()).fat, old(node.inode), |old(Room(node))|, offset)
      ensures !ok ==> count == 0 && Valid() && Names(node, d, n, i, k) && AllSame(old(Contents()), dirs, Contents(), dirs)
      ensures !ok ==> NameOf(EntryAt(Contents(), d, k)) == NameOf(EntryAt(old(Contents()), d, k))
      ensures !ok ==> OthersSame(old(Contents()), dirs, Contents(), dirs, d, NameOf(EntryAt(old(Contents()), d, k)))
      ensures !ok && offset <= node.length <= |old(Room(node))| ==>
                Replaced(old(Contents()), d, NameOf(EntryAt(old(Contents()), d, k)), node.length, offset, buf[..0], Contents())
      ensures ok ==> count == Fitting(ClusterSize(vol.g), |old(Room(node))|, offset, |buf|, Spare(old(vol.Im()).fat, old(node.inode)))
      ensures ok ==> Ready(old(Contents()), dirs, d, k, node.inode, m1) && 2 <= node.inode < 0x1000_0000
      ensures ok ==> node.inode in m1 && m1[node.inode] == old(Room(node))
      ensures ok ==> node.inode in Contents() && Contents() == m1[node.inode := Contents()[node.inode]]
      ensures ok ==> Contents()[node.inode] == Overlaid(ClusterSize(vol.g), old(Room(node)), offset, buf[..count])
    {
      hide Abs, Content, Slots, ImageOk, TreeOk, SlotAt, OthersSame, AllSame, View, Overlaid, Ready, Describes,
           NameOf, Replaced, Fitting, FreeCount, FullBelow, ClusterSize;
      ghost var m := Contents();
      NodeFacts(m, dirs, root, d, k, node.inode, node.length);
      ok := GiveChain(node, d, n, i, k);
      m1 := Contents();
      if !ok {
        NothingWritten(m, dirs, root, d, k, node.inode, node.length, offset, buf);
        return 0, false, m1;
      }
      var stopped;
      count, stopped := WriteBytes(node.inode, offset, buf, d, n, i, k, node.sector, node.offset);
      if stopped {
        StalledEffect(m, m1, dirs, root, d, k, old(node.inode), node.inode, node.length, offset, buf);
        ok := false;
      }
    }

    /** A file without a cluster is given one before it is written. */
    method GiveChain(node: Node, ghost d: nat, ghost n: nat, ghost i: nat, ghost k: nat) returns (ok: bool)
      requires Valid() && Names(node, d, n, i, k)
      modifies vol`disk, vol.cache, vol.cache.entries, this`chains, node`inode
      ensures Sound() && d in chains && SlotAt(vol.g, vol.Im(), chains[d], n, i, k, node.sector, node.offset)
      ensures !ok ==> Contents() == old(Contents()) && chains == old(chains) && node.inode == old(node.inode)
      ensures !ok ==> FullBelow(vol.Im().fat, vol.g.Clusters())
      ensures ok <==> old(node.inode) != 0 || FreeCount(old(vol.Im()).fat) > 0
      ensures ok ==> FreeCount(vol.Im().fat) == Spare(old(vol.Im()).fat, old(node.inode))
      ensures ClusterSize(vol.g) > 0
      ensures ok ==> Ready(old(Contents()), dirs, d, k, node.inode, Contents()) && node.inode != d && 2 <= node.inode < 0x1000_0000
      ensures ok ==> node.inode in Contents() && Contents()[node.inode] == old(Room(node))
    {
      hide Abs, Content, Slots, ImageOk, TreeOk, SlotAt, Started, SlotPut, Ready, Describes, FreeCount;
      ghost var m := Contents();
      ok := true;
      NodeFacts(m, dirs, root, d, k, node.inode, node.length);
      if node.inode == 0 {
        ok := StartChain(node, d, n, i, k);
        if ok { StartedFacts(vol.g, m, dirs, root, d, k, node.inode, Contents()); }
      } else {
        NotFresh(m, dirs, root, d, k, node.inode, node.length);
        ChainRange(vol.g, vol.Im(), chains, node.inode);
      }
    }

    /** The new length, in the node and in its directory entry. */
    method PutLength(node: Node, length: nat, ghost d: nat, ghost n: nat, ghost i: nat, ghost k: nat)
      requires Sound() && d in chains && SlotAt(vol.g, vol.Im(), chains[d], n, i, k, node.sector, node.offset)
      modifies vol`disk, vol.cache, vol.cache.entries, node`length
      ensures Sound() && SlotAt(vol.g, vol.Im(), chains[d], n, i, k, node.sector, node.offset)
      ensures vol.Im().fat == old(vol.Im()).fat && node.length == length
      ensures k < |old(Contents())[d]| / 32
      ensures Contents() == SlotPut(old(Contents()), d, k, WithSize(Slots(old(Contents())[d])[k], length))
    {
      hide Abs, Content, Slots, ImageOk, SlotAt, SlotPut;
      node.length := length;
      var e := ReadDirent(node.sector, node.offset, d, n, i, k);
      ghost var im := vol.Im();
      SetSlot(d, node.sector, node.offset, WithSize(e, length), n, i, k);
      SlotAtSet(vol.g, im, vol.Im(), chains, d, n, i, k, node.sector, node.offset);
    }

    /** fat32_read_fs: exactly that slice of the file's bytes. */
    method Read(node: Node, offset: nat, size: nat, ghost d: nat, ghost n: nat, ghost i: nat, ghost k: nat) returns (out: seq<Byte>)
      requires Valid() && Names(node, d, n, i, k) && offset + size < 0x1_0000_0000
      modifies vol.cache, vol.cache.entries
      ensures Valid() && Contents() == old(Contents())
      ensures var name := NameOf(EntryAt(Contents(), d, k));
              View(Contents(), d, name).File? && out == Window(View(Contents(), d, name).bytes, offset, offset + size)
    {
      hide Abs, Content, Slots, ImageOk, TreeOk, SlotAt, View, Describes, Window;
      ghost var m := Contents();
      NodeFacts(m, dirs, root, d, k, node.inode, node.length);
      ghost var ch := if node.inode in chains then chains[node.inode] else [];
      if node.inode != 0 {
        ChainReady(vol.g, vol.Im(), chains, node.inode);
      }
      out := vol.ReadFile(node.inode, node.length, offset, size, ch);
      WindowPrefix(if node.inode != 0 then m[node.inode] else [], node.length, offset, size);
    }

    /** fat32_mkdir_fs: an empty directory under a name that was free. */
    method Mkdir(d: nat, name: seq<Byte>) returns (r: Status)
      requires Valid() && d in dirs && 0 !in name
      modifies vol`disk, vol.cache, vol.cache.entries, this`chains, this`dirs
      ensures Valid() && old(dirs) <= dirs
      ensures r != NotFound && (r == Exists <==> Lookup(Slots(old(Contents())[d]), DosName(name)) != None)
      ensures r != Ok ==> dirs == old(dirs) && AllSame(old(Contents()), dirs, Contents(), dirs)
      ensures r == NoSpace ==> FullBelow(vol.Im().fat, vol.g.Clusters())
      ensures r == Ok ==> OthersSame(old(Contents()), old(dirs), Contents(), dirs, d, DosName(name))
      ensures r == Ok && DosName(name)[0] == DELETED ==> dirs == old(dirs) && View(Contents(), d, DosName(name)) == Missing
      ensures r == Ok && DosName(name)[0] != DELETED ==>
                var node := View(Contents(), d, DosName(name));
                && node.Folder? && node.cluster !in old(chains) && dirs == old(dirs) + {node.cluster}
                && EmptyFolder(Contents(), node.cluster)
                && Dotted(Contents()[node.cluster], node.cluster, if d == root then 0 else d)
    {
      hide Abs, Content, Slots, Lookup, ImageOk, TreeOk, SlotAt, At, OthersSame, AllSame, View, FirstFree, FolderMade, DosName, FreshFolder, EmptyFolder, Dotted;
      ghost var m := Contents();
      var dos := ToDosName(name);
      DosNameProper(name);
      var found, sector, offset, entry;
      ghost var n, i, k;
      found, sector, offset, entry, n, i, k := FindDirent(d, dos);
      if found {
        UnlinkTarget(m, dirs, root, d, k, dos);
        SameStore(m, dirs);
        return Exists;
      }
      var ok;
      ok, sector, offset, n, i, k := FindFreeDirent(d);
      if !ok { return NoSpace; }
      ghost var m1 := Contents();
      SlotAtStore(vol.g, vol.Im(), chains, d, n, i, k, sector, offset);
      ChainRange(vol.g, vol.Im(), chains, d);
      var parent := if d == root then 0 else d;
      var c;
      ok, c := MakeFolder(d, parent, dos, sector, offset, n, i, k);
      if !ok { return NoSpace; }
      if dos[0] == DELETED {
        MkdirUnseen(vol.g, m, m1, Contents(), dirs, root, d, k, dos, c, FreshFolder(dos, c), parent);
      } else {
        MkdirEffect(vol.g, m, m1, Contents(), dirs, root, d, k, dos, c, FreshFolder(dos, c), parent);
        dirs := dirs + {c};
      }
      return Ok;
    }

    /** fat32_mkdir_fs once a slot is found: a cluster, its entry, and its own first entries. */
    method MakeFolder(ghost d: nat, parent: nat, dos: Name, sector: nat, offset: nat, ghost n: nat, ghost i: nat, ghost k: nat)
      returns (ok: bool, c: nat)
      requires Sound() && d in chains && SlotAt(vol.g, vol.Im(), chains[d], n, i, k, sector, offset)
      requires k < |Contents()[d]| / 32 && parent < 0x1000_0000
      modifies vol`disk, vol.cache, vol.cache.entries, this`chains
      ensures Sound()
      ensures !ok ==> Contents() == old(Contents()) && chains == old(chains) && FullBelow(vol.Im().fat, vol.g.Clusters())
      ensures ok ==> c !in old(chains) && c !in old(Contents()) && 2 <= c < 0x1000_0000
      ensures ok ==> FolderMade(vol.g, old(Contents()), d, k, c, FreshFolder(dos, c), parent, Contents())
    {
      hide Abs, Content, Slots, Chains, SlotAt, DotSector, FreshFolder, TreeOk;
      ghost var im, m := vol.Im(), Contents();
      ok, c := vol.AllocCluster();
      if ok {
        StoreTaken(vol.g, im, chains, c);
        SlotAtTaken(vol.g, im, chains, d, c, n, i, k, sector, offset);
        ClusterRange(vol.g, im, chains, c);
        chains := chains[c := [c]];
        SetSlot(d, sector, offset, FreshFolder(dos, c), n, i, k);
        WriteDots(c, parent);
      }
    }

    /** The last step of fat32_mkdir_fs: "." and ".." into the new directory's first sector. */
    method WriteDots(c: nat, parent: nat)
      requires Sound() && c in chains && chains[c] == [c] && 2 <= c < 0x1000_0000 && parent < 0x1000_0000
      modifies vol`disk, vol.cache, vol.cache.entries
      ensures Sound() && 512 <= |old(Contents())[c]|
      ensures Contents() == old(Contents())[c := Splice(old(Contents())[c], 0, DotSector(c, parent))]
    {
      hide Abs, Content, IsChain, Bytes, Lba, Rewritten, DotSector;
      ghost var im := vol.Im();
      SlotBounds(vol.g, im, chains, c, 0);
      vol.WritePart(c, 0, 0, DotSector(c, parent));
      DotsWritten(vol.g, im, chains, c, DotSector(c, parent), vol.Im());
    }

    /** The entry that rename replaces, if any, marked deleted; its chain is left allocated. */
    method RemoveTarget(d: nat, dos: Name) returns (found: bool, ghost k: nat)
      requires Valid() && d in dirs && Proper(dos)
      modifies vol`disk, vol.cache, vol.cache.entries
      ensures Valid() && (found <==> Lookup(Slots(old(Contents())[d]), dos) != None)
      ensures Cleared(old(Contents()), d, dos, found, k, Contents())
    {
      hide Abs, Content, Slots, Lookup, ImageOk, TreeOk, SlotAt, At, SlotPut;
      ghost var m := Contents();
      var sector, offset, entry;
      ghost var n, i;
      found, sector, offset, entry, n, i, k := FindDirent(d, dos);
      if found {
        UnlinkTarget(m, dirs, root, d, k, dos);
        SetSlot(d, sector, offset, Deleted(entry), n, i, k);
        TargetRemoved(m, dirs, root, d, k);
      }
    }

    /** The last two steps of fat32_rename_fs: the new slot filled, the old one deleted. */
    method SetBoth(ghost d': nat, sector': nat, offset': nat, ghost n': nat, ghost i': nat, ghost k': nat, e: Entry32,
                   ghost d: nat, sector: nat, offset: nat, ghost n: nat, ghost i: nat, ghost k: nat)
      requires Sound() && d in chains && d' in chains
      requires SlotAt(vol.g, vol.Im(), chains[d], n, i, k, sector, offset)
      requires SlotAt(vol.g, vol.Im(), chains[d'], n', i', k', sector', offset')
      modifies vol`disk, vol.cache, vol.cache.entries
      ensures Sound() && k' < |old(Contents())[d']| / 32 && k < |old(Contents())[d]| / 32
      ensures Contents() == SlotPut(SlotPut(old(Contents()), d', k', e), d, k, Deleted(e))
    {
      hide Abs, Content, Slots, ImageOk, SlotAt;
      ghost var im := vol.Im();
      SlotAtStore(vol.g, im, chains, d, n, i, k, sector, offset);
      SetSlot(d', sector', offset', e, n', i', k');
      SlotAtSet(vol.g, im, vol.Im(), chains, d, n, i, k, sector, offset);
      SetSlot(d, sector, offset, Deleted(e), n, i, k);
    }

    /** fat32_rename_fs */
    method Rename(d: nat, name: seq<Byte>, d': nat, name': seq<Byte>) returns (r: Status)
      requires Valid() && d in dirs && d' in dirs && 0 !in name && 0 !in name'
      modifies vol`disk, vol.cache, vol.cache.entries, this`chains
      ensures Valid() && dirs == old(dirs) && old(chains).Keys == chains.Keys
      ensures r != Exists && (r == NotFound <==> Lookup(Slots(old(Contents())[d]), DosName(name)) == None)
      ensures r != Ok ==> AllSame(old(Contents()), dirs, Contents(), dirs)
      ensures r == NoSpace ==> FullBelow(vol.Im().fat, vol.g.Clusters())
      ensures r == Ok ==> Renamed(old(Contents()), dirs, d, DosName(name), d', DosName(name'), Contents())
    {
      hide Abs, Content, Slots, Lookup, ImageOk, TreeOk, SlotAt, At, SlotPut, AllSame, Renamed, DosName, FirstFree, Extended;
      ghost var m, ch := Contents(), chains[d];
      var dos := ToDosName(name);
      DosNameProper(name);
      var dos' := ToDosName(name');
      DosNameProper(name');
      var found, sector, offset, entry;
      ghost var n, i, k;
      found, sector, offset, entry, n, i, k := FindDirent(d, dos);
      SameStore(m, dirs);
      if !found { return NotFound; }
      UnlinkTarget(m, dirs, root, d, k, dos);
      ghost var im := vol.Im();
      var replaced;
      ghost var kt;
      replaced, kt := RemoveTarget(d', dos');
      ghost var m1 := Contents();
      var ok, sector', offset';
      ghost var n', i', k';
      ok, sector', offset', n', i', k' := FindFreeDirent(d');
      if !ok {
        RenameFull(m, m1, dirs, d', dos', replaced, kt);
        return NoSpace;
      }
      ghost var m2 := Contents();
      SlotAtLater(vol.g, im, ch, vol.Im(), chains, d, n, i, k, sector, offset);
      entry := WithName(entry, dos');
      SetBoth(d', sector', offset', n', i', k', entry, d, sector, offset, n, i, k);
      RenameEffect(vol.g, m, m1, m2, Contents(), dirs, root, d, k, dos, d', k', dos', replaced, kt);
      return Ok;
    }

    /** fat32_finddir_fs on a file: the node through which it is read and written. */
    method Open(d: nat, name: seq<Byte>) returns (node: Node?, ghost n: nat, ghost i: nat, ghost k: nat)
      requires Valid() && d in dirs && 0 !in name
      modifies vol.cache, vol.cache.entries
      ensures Valid() && Contents() == old(Contents())
      ensures node == null <==> !View(Contents(), d, DosName(name)).File?
      ensures node != null ==> fresh(node) && Names(node, d, n, i, k) && NameOf(EntryAt(Contents(), d, k)) == DosName(name)
    {
      hide Abs, Content, Slots, Lookup, ImageOk, TreeOk, SlotAt, At, DosName;
      var dos := ToDosName(name);
      DosNameProper(name);
      var found, sector, offset, entry;
      found, sector, offset, entry, n, i, k := FindDirent(d, dos);
      node := null;
      if found {
        UnlinkTarget(Contents(), dirs, root, d, k, dos);
        if !IsDirectory(entry) {
          node := new Node(ClusterOf(entry), SizeOf(entry), sector, offset);
        }
      }
    }

    /** A read after a write sees the bytes written, at the place the write gave them; within an honest
        file, that is the file as it was with them over it. */
    method WriteThenRead(node: Node, offset: nat, buf: seq<Byte>, from: nat, size: nat,
                         ghost d: nat, ghost n: nat, ghost i: nat, ghost k: nat) returns (count: nat, out: seq<Byte>)
      requires Valid() && Names(node, d, n, i, k)
      requires offset + |buf| < 0x1_0000_0000 && from + size < 0x1_0000_0000
      modifies vol`disk, vol.cache, vol.cache.entries, this`chains, node`inode, node`length
      ensures Valid() && count <= |buf| && ClusterSize(vol.g) > 0
      ensures var before := View(old(Contents()), d, NameOf(EntryAt(old(Contents()), d, k)));
              && before.File?
              && var end := Larger(before.length, offset + count);
              && out == Window(if Stalls(old(vol.Im()).fat, old(node.inode), |old(Room(node))|, offset) then before.bytes
                               else Prefix(Overlaid(ClusterSize(vol.g), old(Room(node)), offset, buf[..count]), end), from, from + size)
              && (offset <= |before.bytes| == before.length ==> out == Window(Overwrite(before.bytes, offset, buf[..count]), from, from + size))
    {
      hide Abs, Content, Slots, ImageOk, TreeOk, SlotAt, View, Overwrite, Window, OthersSame, Overlaid, Fitting, Stalls, Reaches;
      ghost var m := Contents();
      NodeFacts(m, dirs, root, d, k, node.inode, node.length);
      ghost var stalled;
      count, stalled := Write(node, offset, buf, d, n, i, k);
      out := Read(node, from, size, d, n, i, k);
    }
  }

  lemma TargetRemoved(m: Store, dirs: set<nat>, root: nat, d: nat, k: nat)
    requires TreeOk(m, dirs, root) && Owner(m, dirs, d, k)
    ensures TreeOk(SlotPut(m, d, k, Deleted(EntryAt(m, d, k))), dirs, root)
  {
    SlotPutSet(m, d, k, Deleted(EntryAt(m, d, k)));
    KeepStep(m, dirs, root, d, k, Deleted(EntryAt(m, d, k)), SlotPut(m, d, k, Deleted(EntryAt(m, d, k)))[d]);
  }

  /** A slot stays where it is when its directory's chain grows at the end. */
  lemma SlotAtLater(g: Geometry, im: Image, ch: seq<nat>, im': Image, chains: map<nat, seq<nat>>, d: nat,
                    n: nat, i: nat, k: nat, sector: nat, offset: nat)
    requires SlotAt(g, im, ch, n, i, k, sector, offset) && WellSized(g, im) && ImageOk(g, im', chains) && d in chains && ch <= chains[d]
    ensures SlotAt(g, im', chains[d], n, i, k, sector, offset)
  {
    hide Content;
    ChainsInData(g, im', chains, d);
    ContentLength(g, im, ch);
    ContentLength(g, im', chains[d]);
    MulMono(|ch|, |chains[d]|, ClusterSize(g));
  }

  lemma RenameFull(m: Store, m1: Store, dirs: set<nat>, d: nat, n: Name, replaced: bool, k: nat)
    requires Cleared(m, d, n, replaced, k, m1) && d in m1 && NoHole(Slots(m1[d]))
    ensures m1 == m
  {
    if replaced {
      SlotPutSet(m, d, k, Deleted(Slots(m[d])[k]));
      assert IsDeleted(Slots(m1[d])[k]);
    }
  }

  lemma ClearedTree(m: Store, dirs: set<nat>, root: nat, d: nat, n: Name, replaced: bool, kt: nat, m1: Store)
    requires TreeOk(m, dirs, root) && d in dirs && Proper(n) && Cleared(m, d, n, replaced, kt, m1)
    ensures TreeOk(m1, dirs, root) && OthersSame(m, dirs, m1, dirs, d, n)
    ensures d in m1 && View(m1, d, n) == Missing
  {
    if replaced {
      var e := Deleted(Slots(m[d])[kt]);
      SlotPutSet(m, d, kt, e);
      KeepStep(m, dirs, root, d, kt, e, m1[d]);
    }
  }

  /** A slot other than the cleared one keeps its entry. */
  lemma EntryStays(g: Geometry, m: Store, m1: Store, m2: Store, d: nat, k: nat, d': nat, n': Name, replaced: bool, kt: nat)
    requires d in m && k < |m[d]| / 32 && d' in m && |m[d']| % 32 == 0
    requires Cleared(m, d', n', replaced, kt, m1) && Extended(g, m1, d', m2) && g.spc >= 1
    requires d != d' || !replaced || k != kt
    ensures d in m2 && k < |m2[d]| / 32 && Slots(m2[d])[k] == Slots(m[d])[k]
  {
    if replaced { SlotPutSet(m, d', kt, Deleted(Slots(m[d'])[kt])); }
    if m2 != m1 {
      WholeSlots(g.spc);
      SlotsGrow(m1[d'], Zeros(ClusterSize(g)));
    }
  }

  lemma MissingView(m: Store, d: nat, n: Name)
    requires d in m
    ensures Lookup(Slots(m[d]), n) == None <==> View(m, d, n) == Missing
  {}

  lemma MissingName(m: Store, d: nat, n: Name)
    requires d in m && View(m, d, n) == Missing
    ensures Lookup(Slots(m[d]), n) == None
  {}

  /** Two different slots can be written in either order. */
  lemma SlotsCommute(m: Store, d: nat, k: nat, e: Entry32, d': nat, k': nat, e': Entry32)
    requires d in m && d' in m && k < |m[d]| / 32 && k' < |m[d']| / 32 && (d != d' || k != k')
    ensures SlotPut(SlotPut(m, d', k', e'), d, k, e) == SlotPut(SlotPut(m, d, k, e), d', k', e')
  {
    if d == d' {
      if k < k' { SpliceSwap(m[d], 32 * k, e, 32 * k', e'); } else { SpliceSwap(m[d], 32 * k', e', 32 * k, e); }
    }
  }

  lemma SpliceSwap<T>(b: seq<T>, p: nat, t: seq<T>, q: nat, u: seq<T>)
    requires p + |t| <= q && q + |u| <= |b|
    ensures Splice(Splice(b, p, t), q, u) == Splice(Splice(b, q, u), p, t)
  {
    var x, y := Splice(Splice(b, p, t), q, u), Splice(Splice(b, q, u), p, t);
    assert forall j :: 0 <= j < |b| ==> x[j] == y[j];
  }

  /** The move proper: the old slot deleted, the new slot filled. */
  lemma MoveEntry(m: Store, dirs: set<nat>, root: nat, d: nat, k: nat, d': nat, k': nat, n': Name, e': Entry32)
    requires TreeOk(m, dirs, root) && Owner(m, dirs, d, k) && d' in dirs && k' < |m[d']| / 32 && FirstFree(Slots(m[d']), k')
    requires Proper(n') && n'[0] != END && e' == WithName(EntryAt(m, d, k), n')
    requires d != d' || NameOf(EntryAt(m, d, k)) != n'
    requires View(m, d', n') == Missing
    ensures d != d' || k != k'
    ensures var m1 := SlotPut(m, d, k, Deleted(e'));
            k' < |m1[d']| / 32 &&
            var m2 := SlotPut(m1, d', k', e');
            && TreeOk(m1, dirs, root) && TreeOk(m2, dirs, root)
            && View(m1, d, NameOf(EntryAt(m, d, k))) == Missing
            && OthersSame(m, dirs, m1, dirs, d, NameOf(EntryAt(m, d, k)))
            && OthersSame(m1, dirs, m2, dirs, d', n')
            && View(m2, d', n') == if n'[0] == DELETED then Missing else NodeOf(m, EntryAt(m, d, k))
  {
    hide NoSharing, DirOk;
    var e := EntryAt(m, d, k);
    var m1 := SlotPut(m, d, k, Deleted(e'));
    SlotPutSet(m, d, k, Deleted(e'));
    KeepStep(m, dirs, root, d, k, Deleted(e'), m1[d]);
    RenamedFields(e, n');
    MissingName(m1, d', n');
    StillFillable(m, d, k, Deleted(e'), d', k');
    SlotPutSet(m1, d', k', e');
    var m2 := SlotPut(m1, d', k', e');
    if n'[0] == DELETED {
      BlankStep(m1, dirs, root, d', k', e', m2[d']);
      assert View(m2, d', n') == View(m1, d', n');
    } else {
      MovedOk(m, dirs, root, d, k, e', m1);
      InsertStep(m1, dirs, root, d', k', e', m2[d']);
    }
  }

  lemma StillFillable(m: Store, d: nat, k: nat, x: Entry32, d': nat, k': nat)
    requires d in m && d' in m && k < |m[d]| / 32 && k' < |m[d']| / 32 && IsDeleted(x)
    requires FirstFree(Slots(m[d']), k') && !IsDeleted(Slots(m[d])[k]) && !IsEnd(Slots(m[d])[k])
    ensures Fillable(Slots(SlotPut(m, d, k, x)[d']), k') && (d != d' || k != k')
  {
    SlotPutSet(m, d, k, x);
  }

  lemma MovedOk(m: Store, dirs: set<nat>, root: nat, d: nat, k: nat, e': Entry32, m1: Store)
    requires TreeOk(m, dirs, root) && Owner(m, dirs, d, k)
    requires ClusterOf(e') == ClusterOf(EntryAt(m, d, k)) && SizeOf(e') == SizeOf(EntryAt(m, d, k))
    requires IsDirectory(e') == IsDirectory(EntryAt(m, d, k))
    requires m1.Keys == m.Keys && forall c :: c in m && c != d ==> m1[c] == m[c]
    ensures EntryOk(m1, dirs, root, e') && NodeOf(m1, e') == NodeOf(m, EntryAt(m, d, k))
  {
    assert EntryOk(m, dirs, root, EntryAt(m, d, k));
  }

  lemma RenameDistinct(g: Geometry, m: Store, m1: Store, m2: Store, m3: Store, dirs: set<nat>, root: nat,
                       d: nat, k: nat, n: Name, d': nat, k': nat, n': Name, replaced: bool, kt: nat)
    requires TreeOk(m, dirs, root) && TreeOk(m2, dirs, root) && Owner(m, dirs, d, k) && NameOf(EntryAt(m, d, k)) == n && d' in dirs
    requires Proper(n) && Proper(n') && n'[0] != END && g.spc >= 1
    requires Cleared(m, d', n', replaced, kt, m1) && Extended(g, m1, d', m2) && AllSame(m1, dirs, m2, dirs)
    requires k' < |m2[d']| / 32 && FirstFree(Slots(m2[d']), k') && k < |m2[d]| / 32
    requires m3 == SlotPut(SlotPut(m2, d', k', WithName(EntryAt(m, d, k), n')), d, k, Deleted(WithName(EntryAt(m, d, k), n')))
    requires d != d' || n != n'
    ensures TreeOk(m3, dirs, root) && Renamed(m, dirs, d, n, d', n', m3)
  {
    hide NoSharing, DirOk, EntryOk, Lookup, FirstFree, Slots, Extended;
    var e := EntryAt(m, d, k);
    var e' := WithName(e, n');
    DifferentSlot(m, d, k, n, d', n', replaced, kt);
    EntryStays(g, m, m1, m2, d, k, d', n', replaced, kt);
    ClearedTree(m, dirs, root, d', n', replaced, kt, m1);
    assert View(m2, d', n') == View(m1, d', n') == Missing;
    MoveEntry(m2, dirs, root, d, k, d', k', n', e');
    SlotsCommute(m2, d, k, Deleted(e'), d', k', e');
    MovedNode(m, dirs, root, d, k, m1, m2, g, d', n', replaced, kt);
    LookupHere(m, dirs, root, d, k);
  }

  lemma LookupHere(m: Store, dirs: set<nat>, root: nat, d: nat, k: nat)
    requires TreeOk(m, dirs, root) && Owner(m, dirs, d, k)
    ensures View(m, d, NameOf(EntryAt(m, d, k))) == NodeOf(m, EntryAt(m, d, k))
  {
    LookupAt(Slots(m[d]), NameOf(EntryAt(m, d, k)), k);
  }

  lemma DifferentSlot(m: Store, d: nat, k: nat, n: Name, d': nat, n': Name, replaced: bool, kt: nat)
    requires d in m && k < |m[d]| / 32 && NameOf(Slots(m[d])[k]) == n && (d != d' || n != n')
    requires replaced ==> d' in m && kt < |m[d']| / 32 && At(Slots(m[d']), kt, n')
    ensures d != d' || !replaced || k != kt
  {}

  /** What the moved entry stands for is untouched by clearing the target and growing. */
  lemma MovedNode(m: Store, dirs: set<nat>, root: nat, d: nat, k: nat, m1: Store, m2: Store, g: Geometry,
                  d': nat, n': Name, replaced: bool, kt: nat)
    requires TreeOk(m, dirs, root) && Owner(m, dirs, d, k) && d' in dirs
    requires Cleared(m, d', n', replaced, kt, m1) && Extended(g, m1, d', m2)
    ensures NodeOf(m2, EntryAt(m, d, k)) == NodeOf(m, EntryAt(m, d, k))
  {
    assert EntryOk(m, dirs, root, EntryAt(m, d, k));
  }

  lemma RenameSame(g: Geometry, m: Store, m1: Store, m2: Store, m3: Store, dirs: set<nat>, root: nat,
                   d: nat, k: nat, n: Name, k': nat, replaced: bool, kt: nat)
    requires TreeOk(m, dirs, root) && TreeOk(m2, dirs, root) && Owner(m, dirs, d, k) && NameOf(EntryAt(m, d, k)) == n && Proper(n)
    requires Cleared(m, d, n, replaced, kt, m1) && Extended(g, m1, d, m2) && AllSame(m1, dirs, m2, dirs) && g.spc >= 1
    requires k' < |m2[d]| / 32 && FirstFree(Slots(m2[d]), k') && k < |m2[d]| / 32
    requires m3 == SlotPut(SlotPut(m2, d, k', WithName(EntryAt(m, d, k), n)), d, k, Deleted(WithName(EntryAt(m, d, k), n)))
    ensures TreeOk(m3, dirs, root) && Renamed(m, dirs, d, n, d, n, m3)
  {
    hide NoSharing, EntryOk, Extended, DirOk, FirstFree;
    var e := EntryAt(m, d, k);
    SameSlot(m, dirs, root, d, k, n, replaced, kt);
    ClearedTree(m, dirs, root, d, n, replaced, kt, m1);
    assert WithName(e, n) == e;
    OwnSlotHole(g, m, m1, m2, dirs, root, d, k, k');
    assert View(m2, d, n) == View(m1, d, n) == Missing;
    if k' == k {
      SpliceAgain(m2[d], 32 * k, e, Deleted(e));
      SlotUnchanged(m2, d, k);
      assert m3 == m2;
    } else {
      Reinsert(g, m, m1, m2, dirs, root, d, k, k');
      var mb := SlotPut(m2, d, k', e);
      SlotPutSet(m2, d, k', e);
      SlotUnchanged(mb, d, k);
      assert m3 == mb;
    }
  }

  lemma SlotUnchanged(m: Store, d: nat, k: nat)
    requires d in m && k < |m[d]| / 32
    ensures SlotPut(m, d, k, Slots(m[d])[k]) == m
  {
    assert Splice(m[d], 32 * k, Slots(m[d])[k]) == m[d];
  }

  lemma SameSlot(m: Store, dirs: set<nat>, root: nat, d: nat, k: nat, n: Name, replaced: bool, kt: nat)
    requires TreeOk(m, dirs, root) && Owner(m, dirs, d, k) && NameOf(EntryAt(m, d, k)) == n
    requires replaced ==> At(Slots(m[d]), kt, n)
    requires !replaced ==> Lookup(Slots(m[d]), n) == None
    ensures replaced && kt == k
  {
    LookupAt(Slots(m[d]), n, k);
  }

  /** After a name's own slot was deleted: the first free slot is that slot, or an earlier hole. */
  lemma OwnSlotHole(g: Geometry, m: Store, m1: Store, m2: Store, dirs: set<nat>, root: nat, d: nat, k: nat, k': nat)
    requires TreeOk(m, dirs, root) && Owner(m, dirs, d, k) && m1 == SlotPut(m, d, k, Deleted(EntryAt(m, d, k)))
    requires Extended(g, m1, d, m2) && g.spc >= 1 && k' < |m2[d]| / 32 && FirstFree(Slots(m2[d]), k')
    ensures k < |m2[d]| / 32 && Slots(m2[d])[k] == Deleted(EntryAt(m, d, k)) && k' <= k
    ensures k' < k <==> HoleBefore(Slots(m[d]), NameOf(EntryAt(m, d, k)))
  {
    var e := EntryAt(m, d, k);
    SlotPutSet(m, d, k, Deleted(e));
    var s, s2 := Slots(m[d]), Slots(m2[d]);
    assert forall j :: 0 <= j < |s| ==> s2[j] == s[k := Deleted(e)][j] by {
      if m2 != m1 {
        WholeSlots(g.spc);
        SlotsGrow(m1[d], Zeros(ClusterSize(g)));
      }
    }
    assert At(s, k, NameOf(e));
    if k' < k {
      assert IsDeleted(s[k']);
    }
    forall j, x | 0 <= j < x && At(s, x, NameOf(e)) && IsDeleted(s[j])
      ensures k' < k
    {
      assert x == k;
      assert IsDeleted(s2[j]);
    }
  }

  /** Putting the entry back into an earlier hole restores the name. */
  lemma Reinsert(g: Geometry, m: Store, m1: Store, m2: Store, dirs: set<nat>, root: nat, d: nat, k: nat, k': nat)
    requires TreeOk(m, dirs, root) && TreeOk(m2, dirs, root) && Owner(m, dirs, d, k)
    requires m1 == SlotPut(m, d, k, Deleted(EntryAt(m, d, k))) && Extended(g, m1, d, m2) && g.spc >= 1
    requires k' < |m2[d]| / 32 && FirstFree(Slots(m2[d]), k') && View(m2, d, NameOf(EntryAt(m, d, k))) == Missing
    ensures var e := EntryAt(m, d, k);
            var m3 := SlotPut(m2, d, k', e);
            && TreeOk(m3, dirs, root) && View(m3, d, NameOf(e)) == View(m, d, NameOf(e))
            && OthersSame(m2, dirs, m3, dirs, d, NameOf(e))
  {
    var e := EntryAt(m, d, k);
    SlotPutSet(m, d, k, Deleted(e));
    KeepStep(m, dirs, root, d, k, Deleted(e), m1[d]);
    hide NoSharing, DirOk;
    LookupHere(m, dirs, root, d, k);
    MissingName(m2, d, NameOf(e));
    FirstIsFillable(Slots(m2[d]), k');
    SlotPutSet(m2, d, k', e);
    if ClusterOf(e) != 0 { UnownedGrown(g, m1, dirs, d, m2, ClusterOf(e)); }
    MovedOk(m, dirs, root, d, k, e, m2);
    InsertStep(m2, dirs, root, d, k', e, SlotPut(m2, d, k', e)[d]);
  }

  lemma UnownedGrown(g: Geometry, m: Store, dirs: set<nat>, d: nat, m': Store, c: nat)
    requires Unowned(m, dirs, c) && Extended(g, m, d, m') && d in dirs && |m[d]| % 32 == 0 && g.spc >= 1
    ensures Unowned(m', dirs, c)
  {
    if m' != m {
      WholeSlots(g.spc);
      SlotsGrow(m[d], Zeros(ClusterSize(g)));
      forall x, y | Owner(m', dirs, x, y)
        ensures Owner(m, dirs, x, y) && EntryAt(m', x, y) == EntryAt(m, x, y)
      {}
    }
  }

  lemma RenameEffect(g: Geometry, m: Store, m1: Store, m2: Store, m3: Store, dirs: set<nat>, root: nat,
                     d: nat, k: nat, n: Name, d': nat, k': nat, n': Name, replaced: bool, kt: nat)
    requires TreeOk(m, dirs, root) && TreeOk(m2, dirs, root) && Owner(m, dirs, d, k) && NameOf(EntryAt(m, d, k)) == n && d' in dirs
    requires Proper(n) && Proper(n') && n'[0] != END && g.spc >= 1
    requires Cleared(m, d', n', replaced, kt, m1) && Extended(g, m1, d', m2) && AllSame(m1, dirs, m2, dirs)
    requires k' < |m2[d']| / 32 && FirstFree(Slots(m2[d']), k') && k < |m2[d]| / 32
    requires m3 == SlotPut(SlotPut(m2, d', k', WithName(EntryAt(m, d, k), n')), d, k, Deleted(WithName(EntryAt(m, d, k), n')))
    ensures TreeOk(m3, dirs, root) && Renamed(m, dirs, d, n, d', n', m3)
  {
    if d == d' && n == n' {
      RenameSame(g, m, m1, m2, m3, dirs, root, d, k, n, k', replaced, kt);
    } else {
      RenameDistinct(g, m, m1, m2, m3, dirs, root, d, k, n, d', k', n', replaced, kt);
    }
  }

  lemma SameStore(m: Store, dirs: set<nat>)
    ensures AllSame(m, dirs, m, dirs)
  {}

  lemma WindowPrefix(b: seq<Byte>, length: nat, offset: nat, size: nat)
    ensures Window(Prefix(b, length), offset, offset + size) ==
            if offset >= length then [] else Window(b, offset, if offset + size > length then length else offset + size)
  {
    var p := Prefix(b, length);
    var e := if offset + size < |p| then offset + size else |p|;
    if offset < e && length <= |b| {
      var x, y := p[offset..e], b[offset..e];
      assert |x| == |y| && forall j :: 0 <= j < |x| ==> x[j] == y[j];
    }
  }

  lemma FreshFolderFields(n: Name, c: nat)
    requires c < 0x1_0000_0000
    ensures var e := FreshFolder(n, c);
            NameOf(e) == n && Plain(e) && IsDirectory(e) && ClusterOf(e) == c && e[0] == n[0]
  {
    EntryFields(n + [ATTR_DIRECTORY] + seq(20, _ => 0), c, 0);
  }

  lemma DotsWritten(g: Geometry, im: Image, chains: map<nat, seq<nat>>, c: nat, t: Sector, im': Image)
    requires ImageOk(g, im, chains) && c in chains && chains[c] == [c] && 2 <= c < g.Clusters()
    requires Rewritten(g, im, im', c, Splice(Bytes(im.data[c]), 0, t))
    ensures ImageOk(g, im', chains) && 512 <= |StoreOf(g, im, chains)[c]|
    ensures StoreOf(g, im', chains) == StoreOf(g, im, chains)[c := Splice(StoreOf(g, im, chains)[c], 0, t)]
  {
    hide Apart;
    GrownSelf(g, im, [c]);
    GrownWrite(g, im, [c], im, [c], 0, im', Splice(Bytes(im.data[c]), 0, t));
    StoreGrown(g, im, chains, c, im', [c]);
    assert chains[c := [c]] == chains;
    ContentOne(im, c);
    ContentOne(im', c);
  }

  lemma DotsFolder(cs: nat, c: nat, parent: nat)
    requires cs >= 512 && cs % 32 == 0 && c < 0x1_0000_0000 && parent < 0x1_0000_0000
    ensures NewFolder(Splice(Zeros(cs), 0, DotSector(c, parent))) && Dotted(Splice(Zeros(cs), 0, DotSector(c, parent)), c, parent)
  {
    hide FreshFolder, ClusterOf, DirOk, Ordinary, IsDirectory;
    var b := Splice(Zeros(cs), 0, DotSector(c, parent));
    var s := Slots(b);
    FreshFolderFields(DOT_NAME, c);
    FreshFolderFields(DOTDOT_NAME, parent);
    assert s[0] == b[0..32] == FreshFolder(DOT_NAME, c);
    assert s[1] == b[32..64] == FreshFolder(DOTDOT_NAME, parent);
    forall k | 2 <= k < |s|
      ensures IsEnd(s[k])
    {
      assert s[k] == b[32 * k..32 * k + 32] && s[k][0] == b[32 * k];
    }
    assert DOT_NAME[1] != DOTDOT_NAME[1];
    TwoDots(s);
  }

  lemma TwoDots(s: seq<Entry32>)
    requires |s| >= 2 && s[0][0] == s[1][0] == DOT && NameOf(s[0]) != NameOf(s[1])
    requires forall k :: 2 <= k < |s| ==> IsEnd(s[k])
    ensures DirOk(s) && forall k :: 0 <= k < |s| ==> !Ordinary(s[k])
  {}

  lemma FolderNames(m: Store, c: nat)
    requires c in m && NewFolder(m[c])
    ensures EmptyFolder(m, c)
  {
    forall n: Name | Proper(n)
      ensures View(m, c, n) == Missing
    {
      var s := Slots(m[c]);
      forall k | 0 <= k < |s|
        ensures !At(s, k, n)
      {
        assert !Ordinary(s[k]);
        if NameOf(s[k]) == n { assert s[k][0] == n[0]; }
      }
      LookupNone(s, n);
    }
  }

  lemma FolderStep(m: Store, dirs: set<nat>, root: nat, c: nat, b: seq<Byte>)
    requires TreeOk(m, dirs, root) && c !in m && c != 0 && NewFolder(b)
    ensures TreeOk(m[c := b], dirs + {c}, root) && Unowned(m[c := b], dirs + {c}, c)
    ensures AllSame(m, dirs, m[c := b], dirs + {c})
  {
    AddFolderStep(m, dirs, root, c, b);
  }

  lemma MkdirInsert(m: Store, dirs: set<nat>, root: nat, d: nat, k: nat, n: Name, c: nat, e: Entry32, b': seq<Byte>)
    requires TreeOk(m, dirs, root) && d in dirs && Fillable(Slots(m[d]), k) && SlotSet(m[d], k, e, b')
    requires NameOf(e) == n && n[0] != DOT && n[0] != END && n[0] != DELETED && Plain(e) && IsDirectory(e) && e[0] == n[0]
    requires Lookup(Slots(m[d]), n) == None && ClusterOf(e) == c && c != 0 && c != d && c != root && c in dirs && Unowned(m, dirs, c)
    ensures TreeOk(m[d := b'], dirs, root) && View(m[d := b'], d, n) == Folder(c)
    ensures OthersSame(m, dirs, m[d := b'], dirs, d, n)
  {
    InsertStep(m, dirs, root, d, k, e, b');
  }

  /** A directory whose name starts with the deleted marker is made, but no lookup sees it. */
  lemma MkdirUnseen(g: Geometry, m: Store, m1: Store, m2: Store, dirs: set<nat>, root: nat, d: nat, k: nat, n: Name, c: nat, e: Entry32, parent: nat)
    requires TreeOk(m, dirs, root) && TreeOk(m1, dirs, root) && AllSame(m, dirs, m1, dirs) && d in dirs
    requires Lookup(Slots(m[d]), n) == None && Proper(n) && n[0] == DELETED
    requires c !in m1 && 2 <= c < 0x1000_0000 && e == FreshFolder(n, c) && g.spc >= 1
    requires k < |m1[d]| / 32 && FirstFree(Slots(m1[d]), k)
    requires FolderMade(g, m1, d, k, c, e, parent, m2)
    ensures TreeOk(m2, dirs, root) && OthersSame(m, dirs, m2, dirs, d, n) && View(m2, d, n) == Missing
  {
    hide NoSharing, DirOk, EntryOk, ClusterOf, SizeOf, DotSector, FirstFree, NewFolder;
    var z := Zeros(ClusterSize(g));
    var b := Splice(z, 0, DotSector(c, parent));
    var mc := m1[c := b];
    AddChainStep(m1, dirs, root, c, b);
    FreshFolderFields(n, c);
    FirstIsFillable(Slots(m1[d]), k);
    var m3 := SlotPut(mc, d, k, e);
    SlotPutSet(mc, d, k, e);
    BlankStep(mc, dirs, root, d, k, e, m3[d]);
    assert m3 == m2;
    SameThenSame(m, m1, mc, dirs, dirs, dirs);
    SameThenSame(m, mc, m3, dirs, dirs, dirs);
    assert View(m3, d, n) == View(m, d, n);
  }

  lemma MkdirEffect(g: Geometry, m: Store, m1: Store, m2: Store, dirs: set<nat>, root: nat, d: nat, k: nat, n: Name, c: nat, e: Entry32, parent: nat)
    requires TreeOk(m, dirs, root) && TreeOk(m1, dirs, root) && AllSame(m, dirs, m1, dirs) && d in dirs
    requires Lookup(Slots(m[d]), n) == None && n[0] != DOT && n[0] != END && n[0] != DELETED
    requires c !in m1 && 2 <= c < 0x1000_0000 && parent < 0x1000_0000 && e == FreshFolder(n, c) && g.spc >= 1
    requires k < |m1[d]| / 32 && FirstFree(Slots(m1[d]), k)
    requires FolderMade(g, m1, d, k, c, e, parent, m2)
    ensures TreeOk(m2, dirs + {c}, root)
    ensures OthersSame(m, dirs, m2, dirs + {c}, d, n)
    ensures View(m2, d, n) == Folder(c) && EmptyFolder(m2, c) && Dotted(m2[c], c, parent)
  {
    hide NoSharing, DirOk, Lookup, View, EntryOk, ClusterOf, SizeOf, DotSector, FirstFree, NewFolder, Dotted;
    var z := Zeros(ClusterSize(g));
    var b := Splice(z, 0, DotSector(c, parent));
    WholeSlots(g.spc);
    DotsFolder(ClusterSize(g), c, parent);
    var mc := m1[c := b];
    FolderStep(m1, dirs, root, c, b);
    FreshFolderFields(n, c);
    StillMissing(m, m1, dirs, d, n);
    FirstIsFillable(Slots(m1[d]), k);
    var m3 := SlotPut(mc, d, k, e);
    SlotPutSet(mc, d, k, e);
    MkdirInsert(mc, dirs + {c}, root, d, k, n, c, e, m3[d]);
    assert m3 == m2;
    SameThenOthers(m, m1, m3, dirs, dirs, dirs + {c}, d, n);
    FolderNames(m3, c);
  }

  /** A write that lands within the chain: the file's bytes with what the chain held up to the offset. */
  lemma OverwriteOf(cs: nat, b: seq<Byte>, size: nat, offset: nat, t: seq<Byte>)
    requires cs > 0 && offset <= |b| && size <= |b|
    ensures var size' := Larger(size, offset + |t|);
            Prefix(Overlaid(cs, b, offset, t), size') == Overwrite(b[..Larger(size, offset)], offset, t)
  {
    hide NewRoom;
    NewRoomHolds(cs, |b|, offset, |t|);
    var size' := Larger(size, offset + |t|);
    var a, w := Prefix(Overlaid(cs, b, offset, t), size'), Overwrite(b[..Larger(size, offset)], offset, t);
    assert |a| == |w|;
    assert forall j :: 0 <= j < size' ==> a[j] == w[j];
  }

  lemma ChainReady(g: Geometry, im: Image, chains: map<nat, seq<nat>>, c: nat)
    requires ImageOk(g, im, chains) && c in chains
    ensures IsChain(im.fat, chains[c]) && chains[c][0] == c && InData(im, chains[c])
  {
    ChainsInData(g, im, chains, c);
  }

  lemma SlotAtGrown(g: Geometry, im: Image, chains: map<nat, seq<nat>>, c: nat, im': Image, ch': seq<nat>,
                    d: nat, n: nat, i: nat, k: nat, sector: nat, offset: nat)
    requires ImageOk(g, im, chains) && c in chains && d in chains && c != d && Grown(g, im, chains[c], im', ch')
    requires SlotAt(g, im, chains[d], n, i, k, sector, offset)
    ensures SlotAt(g, im', chains[d], n, i, k, sector, offset)
  {
    GrownOther(g, im, chains[c], im', ch', chains[d]);
  }

  lemma WritingEffect(g: Geometry, im: Image, chains: map<nat, seq<nat>>, c: nat, im': Image, ch': seq<nat>, at: nat, t: seq<Byte>)
    requires ImageOk(g, im, chains) && c in chains && InData(im, chains[c]) && ClusterSize(g) > 0
    requires Writing(g, im', ch', Content(im, chains[c]), Landing(|chains[c]| * ClusterSize(g), at), t)
    requires |ch'| * ClusterSize(g) == NewRoom(ClusterSize(g), |chains[c]| * ClusterSize(g), at, |t|)
    ensures Content(im', ch') == Overlaid(ClusterSize(g), StoreOf(g, im, chains)[c], at, t)
  {
    hide Content, ClusterSize, NewRoom, Splice;
    ContentLength(g, im, chains[c]);
  }

  lemma NodeFacts(m: Store, dirs: set<nat>, root: nat, d: nat, k: nat, inode: nat, length: nat)
    requires TreeOk(m, dirs, root) && Describes(m, dirs, d, k, inode, length)
    ensures d in m && d in dirs && k < |m[d]| / 32
    ensures inode != 0 ==> inode in m && inode != d
    ensures inode == 0 ==> length == 0
    ensures 0 !in m && length < 0x1_0000_0000
    ensures var name := NameOf(EntryAt(m, d, k));
            View(m, d, name) == File(if inode == 0 then [] else Prefix(m[inode], length), length)
  {
    LookupAt(Slots(m[d]), NameOf(EntryAt(m, d, k)), k);
  }

  lemma NothingWritten(m: Store, dirs: set<nat>, root: nat, d: nat, k: nat, inode: nat, length: nat, offset: nat, buf: seq<Byte>)
    requires TreeOk(m, dirs, root) && Describes(m, dirs, d, k, inode, length)
    ensures var name := NameOf(EntryAt(m, d, k));
            && View(m, d, name).File? && (offset <= |View(m, d, name).bytes| == length ==> Replaced(m, d, name, length, offset, buf[..0], m))
            && OthersSame(m, dirs, m, dirs, d, name) && AllSame(m, dirs, m, dirs)
  {
    NodeFacts(m, dirs, root, d, k, inode, length);
  }

  /** A write that got its first cluster but no second one has changed no name. */
  lemma StalledEffect(m: Store, m1: Store, dirs: set<nat>, root: nat, d: nat, k: nat, inode: nat, c: nat, size: nat, offset: nat, buf: seq<Byte>)
    requires TreeOk(m, dirs, root) && Describes(m, dirs, d, k, inode, size)
    requires Ready(m, dirs, d, k, c, m1) && 2 <= c < 0x1000_0000 && size < 0x1_0000_0000
    ensures TreeOk(m1, dirs, root) && Describes(m1, dirs, d, k, c, size)
    ensures NameOf(EntryAt(m1, d, k)) == NameOf(EntryAt(m, d, k))
    ensures AllSame(m, dirs, m1, dirs) && OthersSame(m, dirs, m1, dirs, d, NameOf(EntryAt(m, d, k)))
    ensures offset <= size <= |m1[c]| ==> Replaced(m, d, NameOf(EntryAt(m, d, k)), size, offset, buf[..0], m1)
  {
    hide NoSharing, DirOk, Slots, SlotPut, Ready, Lookup, Describes, NameOf, ClusterOf, SizeOf;
    ReadyFacts(m, dirs, root, d, k, c, m1, size, inode);
    NodeFacts(m, dirs, root, d, k, inode, size);
    WriteEffect(m, m1, m1, m1, dirs, root, d, k, inode, c, size, size);
    ReadyBytes(m, dirs, root, d, k, inode, c, m1, size);
  }

  lemma ReadyBytes(m: Store, dirs: set<nat>, root: nat, d: nat, k: nat, inode: nat, c: nat, m1: Store, size: nat)
    requires TreeOk(m, dirs, root) && Describes(m, dirs, d, k, inode, size) && Ready(m, dirs, d, k, c, m1)
    ensures c in m1 && Prefix(m1[c], size) == if inode in m then Prefix(m[inode], size) else []
  {}

  lemma StartedFacts(g: Geometry, m: Store, dirs: set<nat>, root: nat, d: nat, k: nat, c: nat, m1: Store)
    requires TreeOk(m, dirs, root) && Describes(m, dirs, d, k, 0, 0) && Started(g, m, d, k, c, m1) && c !in m && c != 0
    ensures Ready(m, dirs, d, k, c, m1) && m1[c] == Zeros(ClusterSize(g))
  {}

  lemma NotFresh(m: Store, dirs: set<nat>, root: nat, d: nat, k: nat, c: nat, length: nat)
    requires TreeOk(m, dirs, root) && Describes(m, dirs, d, k, c, length) && c != 0
    ensures Ready(m, dirs, d, k, c, m)
  {
    var e := EntryAt(m, d, k);
    SameCluster(e);
    assert Splice(m[d], 32 * k, e) == m[d];
  }

  lemma SameCluster(e: Entry32)
    ensures WithCluster(e, ClusterOf(e)) == e
  {
    FourBytes(e[26], e[27], e[20], e[21]);
  }

  lemma FourBytes(a: int, b: int, c: int, d: int)
    requires 0 <= a < 256 && 0 <= b < 256 && 0 <= c < 256 && 0 <= d < 256
    ensures var v := (c + 256 * d) * 65536 + (a + 256 * b);
            v % 256 == a && v / 256 % 256 == b && v / 65536 % 256 == c && v / 16777216 % 256 == d
  {
    var v := (c + 256 * d) * 65536 + (a + 256 * b);
    assert v / 256 == b + 256 * (c + 256 * d);
    assert v / 65536 == c + 256 * d;
    assert v / 16777216 == d;
  }

  /** The whole of a write, on names: the entry gets chain c and length size'. */
  lemma WriteEffect(m: Store, m1: Store, m2: Store, m3: Store, dirs: set<nat>, root: nat,
                    d: nat, k: nat, inode: nat, c: nat, size: nat, size': nat)
    requires TreeOk(m, dirs, root) && Describes(m, dirs, d, k, inode, size)
    requires Ready(m, dirs, d, k, c, m1) && 2 <= c < 0x1000_0000
    requires c in m2 && m2 == m1[c := m2[c]] && size <= size' < 0x1_0000_0000
    requires m3 == if size' > size then SlotPut(m2, d, k, WithSize(Slots(m2[d])[k], size')) else m2
    ensures c in m3 && m3[c] == m2[c]
    ensures TreeOk(m3, dirs, root)
    ensures Describes(m3, dirs, d, k, c, size') && NameOf(EntryAt(m3, d, k)) == NameOf(EntryAt(m, d, k))
    ensures View(m3, d, NameOf(EntryAt(m, d, k))) == File(Prefix(m2[c], size'), size')
    ensures OthersSame(m, dirs, m3, dirs, d, NameOf(EntryAt(m, d, k)))
  {
    hide NoSharing, DirOk, ClusterOf, SizeOf, WithCluster, WithSize, Visible, NameOf, View;
    var e0: Entry32 := EntryAt(m, d, k);
    var mm: Store := m[c := m1[c]];
    WriteBase(m, m1, dirs, root, d, k, c, size);
    var e2 := WrittenEntry(e0, c, size, size');
    WrittenFields(e0, c, size, size');
    WriteStore(m, m1, m2, m3, d, k, c, size, size');
    SlotPutSet(mm, d, k, e2);
    var b' := SlotPut(mm, d, k, e2)[d];
    assert m3 == mm[c := m2[c]][d := b'];
    WriteStep(mm, dirs, root, d, k, e2, b', m2[c]);
    SameThenOthers(m, mm, m3, dirs, dirs, dirs, d, NameOf(e0));
  }

  lemma WriteDone(cs: nat, m: Store, m1: Store, m2: Store, m3: Store, dirs: set<nat>, root: nat,
                  d: nat, k: nat, inode: nat, c: nat, size: nat, size': nat, offset: nat, t: seq<Byte>)
    requires TreeOk(m, dirs, root) && Describes(m, dirs, d, k, inode, size)
    requires Ready(m, dirs, d, k, c, m1) && 2 <= c < 0x1000_0000
    requires c in m2 && m2 == m1[c := m2[c]] && size' == Larger(size, offset + |t|) < 0x1_0000_0000
    requires cs > 0 && m2[c] == Overlaid(cs, m1[c], offset, t)
    requires m3 == if size' > size then SlotPut(m2, d, k, WithSize(Slots(m2[d])[k], size')) else m2
    ensures Describes(m3, dirs, d, k, c, size')
    ensures d in m && d in m3 && k < |m[d]| / 32 && k < |m3[d]| / 32 && NameOf(EntryAt(m3, d, k)) == NameOf(EntryAt(m, d, k))
    ensures OthersSame(m, dirs, m3, dirs, d, NameOf(EntryAt(m, d, k)))
    ensures Wrote(cs, m, d, k, m1[c], size, offset, t, m3, c, size') && TreeOk(m3, dirs, root)
    ensures size <= |m1[c]| ==> (size' <= |m3[c]| <==> Reaches(cs, |m1[c]|, offset, |t|))
    ensures offset <= size <= |m1[c]| ==> Replaced(m, d, NameOf(EntryAt(m, d, k)), size, offset, t, m3)
  {
    hide TreeOk, Slots, SlotPut, Ready, Lookup, NameOf, ClusterOf, SizeOf, WithSize, Overlaid, View, Overwrite, NewRoom, Reaches;
    ReadyFacts(m, dirs, root, d, k, c, m1, size, inode);
    NodeFacts(m, dirs, root, d, k, inode, size);
    WriteEffect(m, m1, m2, m3, dirs, root, d, k, inode, c, size, size');
    if size <= |m1[c]| { LengthReached(cs, |m1[c]|, size, offset, |t|); }
    if offset <= size <= |m1[c]| { OverwriteOf(cs, m1[c], size, offset, t); }
    ReadyBytes(m, dirs, root, d, k, inode, c, m1, size);
  }

  lemma WrittenFields(e: Entry32, c: nat, size: nat, size': nat)
    requires c < 0x1000_0000 && size <= size' < 0x1_0000_0000 && SizeOf(e) == size
    ensures var e' := WrittenEntry(e, c, size, size');
            && ClusterOf(e') == c && SizeOf(e') == size' && NameOf(e') == NameOf(e)
            && Ordinary(e') == Ordinary(e) && IsDirectory(e') == IsDirectory(e)
  {
    EntryFields(e, c, 0);
    EntryFields(WithCluster(e, c), 0, size');
    assert NameOf(e)[0] == e[0];
  }

  /** The store with the chain in place but the entry as it was is a good tree of the same names. */
  lemma WriteBase(m: Store, m1: Store, dirs: set<nat>, root: nat, d: nat, k: nat, c: nat, size: nat)
    requires TreeOk(m, dirs, root) && Owner(m, dirs, d, k) && !IsDirectory(EntryAt(m, d, k)) && SizeOf(EntryAt(m, d, k)) == size
    requires Ready(m, dirs, d, k, c, m1)
    ensures var mm := m[c := m1[c]];
            && TreeOk(mm, dirs, root) && Owner(mm, dirs, d, k) && EntryAt(mm, d, k) == EntryAt(m, d, k) && c !in dirs
            && (ClusterOf(EntryAt(m, d, k)) == c || (ClusterOf(EntryAt(m, d, k)) == 0 && Unowned(mm, dirs, c)))
            && AllSame(m, dirs, mm, dirs)
    ensures Prefix(m1[c], size) == if ClusterOf(EntryAt(m, d, k)) == 0 then [] else Prefix(m[c], size)
  {
    if c in m {
      assert m[c := m1[c]] == m;
    } else {
      AddChainStep(m, dirs, root, c, m1[c]);
    }
  }

  lemma WriteStore(m: Store, m1: Store, m2: Store, m3: Store, d: nat, k: nat, c: nat, size: nat, size': nat)
    requires Ready(m, {}, d, k, c, m1) && c in m2 && m2 == m1[c := m2[c]]
    requires m3 == if size' > size then SlotPut(m2, d, k, WithSize(Slots(m2[d])[k], size')) else m2
    ensures var mm := m[c := m1[c]];
            m3 == SlotPut(mm, d, k, WrittenEntry(Slots(m[d])[k], c, size, size'))[c := m2[c]]
  {
    var e1 := WithCluster(Slots(m[d])[k], c);
    SlotsWrite(m[d], k, e1);
    assert Slots(m2[d])[k] == e1;
    if size' > size {
      SpliceAgain(m[d], 32 * k, e1, WithSize(e1, size'));
    }
  }

  lemma SpliceAgain<T>(b: seq<T>, pos: nat, t: seq<T>, u: seq<T>)
    requires pos + |t| <= |b| && |u| == |t|
    ensures Splice(Splice(b, pos, t), pos, u) == Splice(b, pos, u)
  {}

  lemma ReadyFacts(m: Store, dirs: set<nat>, root: nat, d: nat, k: nat, c: nat, m1: Store, length: nat, inode: nat)
    requires TreeOk(m, dirs, root) && Describes(m, dirs, d, k, inode, length) && Ready(m, dirs, d, k, c, m1)
    ensures c in m1 && d in m1 && c != d
  {}

  lemma SlotSector(g: Geometry, disk: seq<Sector>, ch: seq<nat>, n: nat, i: nat, k: nat, sector: nat, offset: nat)
    requires Fits(g, disk) && WellSized(g, Abs(g, disk)) && SlotAt(g, Abs(g, disk), ch, n, i, k, sector, offset) && sector < |disk|
    requires 2 <= ch[n] < g.Clusters()
    ensures Slots(Content(Abs(g, disk), ch))[k] == disk[sector][offset..offset + 32]
  {
    var im, o := Abs(g, disk), 512 * i + offset;
    ContentSlice(g, im, ch, n, o, o + 32);
    SectorSlice(im.data[ch[n]], i, offset, 32);
    LbaNext(g, ch[n], g.Clusters());
    var content := Content(im, ch);
    assert Slots(content)[k] == content[32 * k..32 * k + 32];
    assert im.data[ch[n]][i] == disk[sector];
  }

  lemma SlotAtTaken(g: Geometry, im: Image, chains: map<nat, seq<nat>>, d: nat, c: nat, n: nat, i: nat, k: nat, sector: nat, offset: nat)
    requires ImageOk(g, im, chains) && d in chains && Free(im.fat, c) && SlotAt(g, im, chains[d], n, i, k, sector, offset)
    ensures d != c && SlotAt(g, Taken(g.spc, im, c), chains[d], n, i, k, sector, offset)
  {
    FreeNotFirst(im.fat, chains, c);
    TakenOther(g, im, c, chains[d]);
  }

  lemma ClusterRange(g: Geometry, im: Image, chains: map<nat, seq<nat>>, c: nat)
    requires ImageOk(g, im, chains) && Free(im.fat, c)
    ensures 2 <= c < 0x1000_0000
  {}

  lemma ChainRange(g: Geometry, im: Image, chains: map<nat, seq<nat>>, c: nat)
    requires ImageOk(g, im, chains) && c in chains
    ensures 2 <= c < 0x1000_0000
  {
    ChainBounds(im.fat, chains[c]);
    assert chains[c][0] == c;
  }

  lemma SlotAtSet(g: Geometry, im: Image, im': Image, chains: map<nat, seq<nat>>, d: nat, n: nat, i: nat, k: nat, sector: nat, offset: nat)
    requires ImageOk(g, im, chains) && ImageOk(g, im', chains) && d in chains
    requires SlotAt(g, im, chains[d], n, i, k, sector, offset)
    ensures SlotAt(g, im', chains[d], n, i, k, sector, offset)
  {
    ChainsInData(g, im, chains, d);
    ChainsInData(g, im', chains, d);
    ContentLength(g, im, chains[d]);
    ContentLength(g, im', chains[d]);
  }

  lemma FreeingNone(fat: seq<nat>)
    ensures Freeing(fat, [], fat)
  {}

  /** A slot's place depends on the chain's data only. */
  lemma SlotAtData(g: Geometry, im: Image, im': Image, ch: seq<nat>, n: nat, i: nat, k: nat, sector: nat, offset: nat)
    requires SlotAt(g, im, ch, n, i, k, sector, offset) && im'.data == im.data
    ensures SlotAt(g, im', ch, n, i, k, sector, offset)
  {
    ContentFrame(im, im', ch);
  }

  lemma UnlinkTarget(m: Store, dirs: set<nat>, root: nat, d: nat, k: nat, n: Name)
    requires TreeOk(m, dirs, root) && d in dirs && Proper(n) && At(Slots(m[d]), k, n)
    ensures Owner(m, dirs, d, k) && EntryAt(m, d, k) == Slots(m[d])[k] && NameOf(EntryAt(m, d, k)) == n
    ensures var c := ClusterOf(EntryAt(m, d, k)); c != root && (c != 0 ==> c in m) && (c == d <==> View(m, d, n) == Folder(d))
    ensures 0 !in m && Lookup(Slots(m[d]), n) == Some(Slots(m[d])[k])
  {
    LookupAt(Slots(m[d]), n, k);
  }

  lemma UnlinkEffect(m: Store, dirs: set<nat>, root: nat, d: nat, k: nat, e: Entry32, n: Name)
    requires TreeOk(m, dirs, root) && Owner(m, dirs, d, k) && e == EntryAt(m, d, k) && NameOf(e) == n && ClusterOf(e) != root
    ensures var c := ClusterOf(e);
            if c == d then TreeOk(m - {c}, dirs - {c}, root) && OthersSame(m, dirs, m - {c}, dirs - {c}, d, n)
            else
              var m' := SlotPut(m - {c}, d, k, Deleted(e));
              TreeOk(m', dirs - {c}, root) && View(m', d, n) == Missing && OthersSame(m, dirs, m', dirs - {c}, d, n)
  {
    var c := ClusterOf(e);
    if c == d {
      forall d', k' | Owner(m, dirs, d', k') && d' != d
        ensures ClusterOf(EntryAt(m, d', k')) != c
      {
        assert Separate(EntryAt(m, d, k), EntryAt(m, d', k'));
      }
      DropStep(m, dirs, root, c);
    } else {
      UnlinkOther(m, dirs, root, d, k, e, n);
    }
  }

  lemma UnlinkOther(m: Store, dirs: set<nat>, root: nat, d: nat, k: nat, e: Entry32, n: Name)
    requires TreeOk(m, dirs, root) && Owner(m, dirs, d, k) && e == EntryAt(m, d, k) && NameOf(e) == n
    requires ClusterOf(e) != d && ClusterOf(e) != root
    ensures var c := ClusterOf(e);
            var m' := SlotPut(m - {c}, d, k, Deleted(e));
            TreeOk(m', dirs - {c}, root) && View(m', d, n) == Missing && OthersSame(m, dirs, m', dirs - {c}, d, n)
  {
    var c := ClusterOf(e);
    var m1 := SlotPut(m, d, k, Deleted(e));
    SlotPutSet(m, d, k, Deleted(e));
    KeepStep(m, dirs, root, d, k, Deleted(e), m1[d]);
    var m' := SlotPut(m - {c}, d, k, Deleted(e));
    assert m' == m1 - {c};
    if c != 0 {
      DropStep(m1, dirs, root, c);
    } else {
      assert m1 - {c} == m1 && dirs - {c} == dirs;
    }
    OthersThenSame(m, m1, m', dirs, dirs, dirs - {c}, d, n);
  }

  lemma FreshFileFields(n: Name)
    ensures var e := FreshFile(n);
            && NameOf(e) == n && Plain(e) && !IsDirectory(e) && ClusterOf(e) == 0 && SizeOf(e) == 0
            && e[11] == 0x20 && forall i :: 12 <= i < 32 ==> e[i] == 0
  {}

  lemma SlotAtStore(g: Geometry, im: Image, chains: map<nat, seq<nat>>, d: nat, n: nat, i: nat, k: nat, sector: nat, offset: nat)
    requires ImageOk(g, im, chains) && d in chains && SlotAt(g, im, chains[d], n, i, k, sector, offset)
    ensures k < |StoreOf(g, im, chains)[d]| / 32
  {}

  lemma SlotPutSet(m: Store, d: nat, k: nat, e: Entry32)
    requires d in m && k < |m[d]| / 32
    ensures SlotSet(m[d], k, e, SlotPut(m, d, k, e)[d])
  {
    SlotsWrite(m[d], k, e);
  }

  lemma FirstIsFillable(s: seq<Entry32>, k: nat)
    requires FirstFree(s, k)
    ensures Fillable(s, k)
  {}

  /** A free name stays free when names are unchanged. */
  lemma StillMissing(m: Store, m1: Store, dirs: set<nat>, d: nat, n: Name)
    requires d in dirs && d in m && d in m1 && Proper(n) && AllSame(m, dirs, m1, dirs) && Lookup(Slots(m[d]), n) == None
    ensures Lookup(Slots(m1[d]), n) == None
  {
    assert View(m1, d, n) == View(m, d, n) == Missing;
  }

  lemma CreateEffect(m: Store, m1: Store, dirs: set<nat>, root: nat, d: nat, k: nat, n: Name, e: Entry32)
    requires TreeOk(m, dirs, root) && TreeOk(m1, dirs, root) && AllSame(m, dirs, m1, dirs) && d in dirs
    requires Lookup(Slots(m[d]), n) == None && n[0] != DOT && n[0] != END && e == FreshFile(n)
    requires k < |m1[d]| / 32 && FirstFree(Slots(m1[d]), k)
    ensures var m2 := SlotPut(m1, d, k, e);
            && TreeOk(m2, dirs, root)
            && OthersSame(m, dirs, m2, dirs, d, n)
            && View(m2, d, n) == if n[0] == DELETED then Missing else File([], 0)
  {
    var m2 := SlotPut(m1, d, k, e);
    SlotPutSet(m1, d, k, e);
    FreshFileFields(n);
    FirstIsFillable(Slots(m1[d]), k);
    StillMissing(m, m1, dirs, d, n);
    if n[0] == DELETED {
      BlankStep(m1, dirs, root, d, k, e, m2[d]);
      SameThenSame(m, m1, m2, dirs, dirs, dirs);
      assert View(m2, d, n) == View(m, d, n);
    } else {
      InsertStep(m1, dirs, root, d, k, e, m2[d]);
      SameThenOthers(m, m1, m2, dirs, dirs, dirs, d, n);
    }
  }

  lemma ExtendedSame(g: Geometry, m: Store, d: nat)
    requires d in m
    ensures Extended(g, m, d, m)
  {}

  lemma FreeVerdict(e: Entry32)
    ensures Visit(FindFree, e) != Stop
  {}

  lemma SlotInSector(g: Geometry, im: Image, chains: map<nat, seq<nat>>, d: nat, n: nat, i: nat, k: nat, sector: nat, offset: nat)
    requires ImageOk(g, im, chains) && d in chains && SlotAt(g, im, chains[d], n, i, k, sector, offset)
    ensures n < |chains[d]| && InSector(g, chains[d][n], i, sector, offset)
  {}

  lemma SlotBounds(g: Geometry, im: Image, chains: map<nat, seq<nat>>, d: nat, n: nat)
    requires ImageOk(g, im, chains) && d in chains && n < |chains[d]|
    ensures 2 <= chains[d][n] < g.Clusters()
  {}

  /** Writing a slot's bytes puts that slot into the store. */
  lemma SlotRewritten(g: Geometry, im: Image, chains: map<nat, seq<nat>>, d: nat, n: nat, i: nat, k: nat,
                      sector: nat, offset: nat, e: Entry32, im': Image)
    requires ImageOk(g, im, chains) && d in chains && SlotAt(g, im, chains[d], n, i, k, sector, offset)
    requires 2 <= chains[d][n] < g.Clusters()
    requires Rewritten(g, im, im', chains[d][n], Splice(Bytes(im.data[chains[d][n]]), 512 * i + offset, e))
    ensures ImageOk(g, im', chains) && k < |StoreOf(g, im, chains)[d]| / 32
    ensures StoreOf(g, im', chains) == SlotPut(StoreOf(g, im, chains), d, k, e)
    ensures im'.fat == im.fat
  {
    SlotAtStore(g, im, chains, d, n, i, k, sector, offset);
    var ch := chains[d];
    ChainReady(g, im, chains, d);
    GrownSelf(g, im, ch);
    assert n < |ch| && im'.fat == im.fat;
    SlotContent(g, im, ch, n, i, k, sector, offset, e, im');
    hide *;
    GrownWrite(g, im, ch, im, ch, n, im', Splice(Bytes(im.data[ch[n]]), 512 * i + offset, e));
    StoreGrown(g, im, chains, d, im', ch);
    assert chains[d := ch] == chains;
    SlotStored(g, im, chains, d, k, e, im');
  }

  lemma SlotStored(g: Geometry, im: Image, chains: map<nat, seq<nat>>, d: nat, k: nat, e: Entry32, im': Image)
    requires ImageOk(g, im, chains) && ImageOk(g, im', chains) && d in chains && InData(im, chains[d]) && InData(im', chains[d])
    requires k < |StoreOf(g, im, chains)[d]| / 32 && Content(im', chains[d]) == Splice(Content(im, chains[d]), 32 * k, e)
    requires StoreOf(g, im', chains) == StoreOf(g, im, chains)[d := Content(im', chains[d])]
    ensures StoreOf(g, im', chains) == SlotPut(StoreOf(g, im, chains), d, k, e)
  {
    hide Content, Slots, Splice, IsChain, Apart;
  }

  lemma SlotContent(g: Geometry, im: Image, ch: seq<nat>, n: nat, i: nat, k: nat, sector: nat, offset: nat, e: Entry32, im': Image)
    requires WellSized(g, im) && IsChain(im.fat, ch) && SlotAt(g, im, ch, n, i, k, sector, offset)
    requires 2 <= ch[n] < g.Clusters()
    requires Rewritten(g, im, im', ch[n], Splice(Bytes(im.data[ch[n]]), 512 * i + offset, e))
    ensures InData(im', ch) && Content(im', ch) == Splice(Content(im, ch), 32 * k, e)
  {
    hide Content, Bytes;
    ContentWrite(g, im, im', ch, n, 512 * i + offset, e);
  }

  /** A directory whose slots were all in use, with a new cluster behind them. */
  lemma DirGrown(g: Geometry, im: Image, chains: map<nat, seq<nat>>, dirs: set<nat>, root: nat, d: nat, c: nat, k: nat)
    requires ImageOk(g, im, chains) && TreeOk(StoreOf(g, im, chains), dirs, root) && d in dirs && d in chains
    requires |chains[d]| > 0 && Free(im.fat, c) && FullBelow(im.fat, c) && chains[d][|chains[d]| - 1] < |im.fat|
    requires InData(im, chains[d]) && 32 * k == |Content(im, chains[d])| && AllContinue(FindFree, Slots(Content(im, chains[d])), k)
    ensures var im' := Linked(g.spc, im, chains[d][|chains[d]| - 1], c);
            var chains' := chains[d := chains[d] + [c]];
            && ImageOk(g, im', chains')
            && Extended(g, StoreOf(g, im, chains), d, StoreOf(g, im', chains'))
            && TreeOk(StoreOf(g, im', chains'), dirs, root)
            && AllSame(StoreOf(g, im, chains), dirs, StoreOf(g, im', chains'), dirs)
            && FirstFree(Slots(StoreOf(g, im', chains')[d]), k)
            && SlotAt(g, im', chains'[d], |chains[d]|, 0, k, Lba(g, c, 0), 0)
  {
    hide Content, Slots, IsChain, Grown, TreeOk, InData, FirstFree, AllSame, AllContinue, Apart;
    var ch, m := chains[d], StoreOf(g, im, chains);
    var im' := Linked(g.spc, im, ch[|ch| - 1], c);
    var z := Zeros(ClusterSize(g));
    GrownSelf(g, im, ch);
    GrownAppend(g, im, ch, im, ch, c);
    StoreGrown(g, im, chains, d, im', ch + [c]);
    ContentAppend(g, im, ch, c);
    DirRoom(g, im, ch, k);
    GrowStep(m, dirs, root, d, z);
    FreeAtEnd(m[d], z, k);
    NewSlotAt(g, im', ch + [c], k, Content(im, ch), z);
  }

  lemma DirRoom(g: Geometry, im: Image, ch: seq<nat>, k: nat)
    requires WellSized(g, im) && InData(im, ch) && 32 * k == |Content(im, ch)|
    ensures 32 * k == |ch| * ClusterSize(g) && ClusterSize(g) % 32 == 0 && ClusterSize(g) >= 512
  {
    ContentLength(g, im, ch);
    hide Content;
    WholeSlots(g.spc);
  }

  lemma WholeSlots(spc: nat)
    ensures 512 * spc % 32 == 0
  {
    assert 512 * spc == 16 * spc * 32;
  }

  lemma NewSlotAt(g: Geometry, im: Image, ch: seq<nat>, k: nat, b: seq<Byte>, z: seq<Byte>)
    requires g.spc >= 1 && |ch| > 0 && InData(im, ch) && Content(im, ch) == b + z && |z| == ClusterSize(g)
    requires 32 * k == |b| == (|ch| - 1) * ClusterSize(g)
    ensures ch[|ch| - 1] >= 2 && SlotAt(g, im, ch, |ch| - 1, 0, k, Lba(g, ch[|ch| - 1], 0), 0)
  {}

  lemma FreeAtEnd(b: seq<Byte>, z: seq<Byte>, k: nat)
    requires 32 * k == |b| && |z| >= 32 && |z| % 32 == 0 && forall i :: 0 <= i < |z| ==> z[i] == 0
    requires AllContinue(FindFree, Slots(b), k)
    ensures k < |b + z| / 32 && FirstFree(Slots(b + z), k)
  {
    SlotsGrow(b, z);
    var s, s' := Slots(b), Slots(b + z);
    forall j | 0 <= j < k
      ensures !IsEnd(s'[j]) && !IsDeleted(s'[j])
    {
      assert s'[j] == s[j] && Visit(FindFree, s[j]) == Continue;
    }
  }

  /** A directory's chain, ready to be scanned. */
  lemma DirChain(g: Geometry, im: Image, chains: map<nat, seq<nat>>, dirs: set<nat>, root: nat, d: nat)
    requires ImageOk(g, im, chains) && TreeOk(StoreOf(g, im, chains), dirs, root) && d in dirs
    ensures d in chains && IsChain(im.fat, chains[d]) && InData(im, chains[d]) && chains[d][0] == d
    ensures StoreOf(g, im, chains)[d] == Content(im, chains[d])
    ensures DirOk(Slots(Content(im, chains[d]))) && |Content(im, chains[d])| % 32 == 0
  {
    ChainsInData(g, im, chains, d);
  }
}
