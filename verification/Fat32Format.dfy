/** The on-disk format of FAT32, in sector numbers, byte offsets and little-endian numbers: what the
    definitions of the other modules come to. */
module Fat32Format {
  import opened Basics
  import opened BlockCache
  import opened Radix
  import opened Fat32Layout
  import opened Fat32Chain
  import opened Fat32Directory

  /** The sectors of clusters 2 to n - 1, end to end. */
  ghost function DataBelow(data: seq<seq<Sector>>, n: nat): seq<Sector>
    requires n <= |data|
  {
    if n <= 2 then [] else DataBelow(data, n - 1) + data[n - 1]
  }

  /** The clusters fill the data area from its first sector on, in order and without gaps. */
  lemma DataRegion(g: Geometry, disk: seq<Sector>, n: nat)
    requires Fits(g, disk) && 2 <= n <= g.Clusters()
    ensures g.dataStart <= g.dataStart + (n - 2) * g.spc <= |disk|
    ensures DataBelow(Abs(g, disk).data, n) == disk[g.dataStart..g.dataStart + (n - 2) * g.spc]
  {
    forall c | 2 <= c < n ensures Lies(Abs(g, disk).data[c], disk, Place(g.dataStart, g.spc, c), g.spc) {
      ClusterAt(g, disk, c);
    }
    DataFits(g, disk);
    hide Abs, Fits, Lies;
    Contiguous(Abs(g, disk).data, disk, g.dataStart, g.spc, n);
  }

  ghost predicate Lies(d: seq<Sector>, disk: seq<Sector>, at: int, n: nat) {
    0 <= at <= at + n <= |disk| && d == disk[at..at + n]
  }

  ghost function Place(start: nat, spc: nat, c: nat): int { start + (c - 2) * spc }

  lemma PlaceStep(start: nat, spc: nat, c: nat)
    ensures Place(start, spc, 2) == start && Place(start, spc, c + 1) == Place(start, spc, c) + spc
  {
    MulAdd(c - 2, 1, spc);
  }

  lemma {:induction false} Contiguous(data: seq<seq<Sector>>, disk: seq<Sector>, start: nat, spc: nat, n: nat)
    requires 2 <= n <= |data| && start <= |disk|
    requires forall c :: 2 <= c < n ==> Lies(data[c], disk, Place(start, spc, c), spc)
    ensures start <= Place(start, spc, n) <= |disk|
    ensures DataBelow(data, n) == disk[start..Place(start, spc, n)]
  {
    hide Place;
    PlaceStep(start, spc, n - 1);
    if n > 2 {
      Contiguous(data, disk, start, spc, n - 1);
      assert Lies(data[n - 1], disk, Place(start, spc, n - 1), spc);
      Adjoin(disk, start, Place(start, spc, n - 1), Place(start, spc, n));
    } else {
      assert disk[start..start] == [];
    }
  }

  lemma DataFits(g: Geometry, disk: seq<Sector>)
    requires Fits(g, disk)
    ensures g.dataStart <= |disk|
  {
    LbaBound(g, g.Clusters());
  }

  lemma Adjoin<T>(s: seq<T>, a: nat, b: nat, c: nat)
    requires a <= b <= c <= |s|
    ensures s[a..b] + s[b..c] == s[a..c]
  {}

  lemma ClusterAt(g: Geometry, disk: seq<Sector>, c: nat)
    requires Fits(g, disk) && 2 <= c < g.Clusters()
    ensures g.dataStart + (c - 2) * g.spc + g.spc <= |disk|
    ensures Abs(g, disk).data[c] == disk[g.dataStart + (c - 2) * g.spc..g.dataStart + (c - 2) * g.spc + g.spc]
  {
    LbaNext(g, c, g.Clusters());
    LbaBound(g, c);
  }

  lemma Four(s: seq<int>)
    requires |s| == 4
    ensures ByteValue(s) == s[0] + 256 * s[1] + 65536 * s[2] + 16777216 * s[3]
  {
    assert s[1..][1..] == s[2..] && s[2..][1..] == s[3..] && s[3..][1..] == [];
    assert Value(256, s[3..]) == s[3];
    assert Value(256, s[2..]) == s[2] + 256 * s[3];
    assert Value(256, s[1..]) == s[1] + 256 * (s[2] + 256 * s[3]);
  }

  /** The bytes of the allocation table. */
  ghost function TableBytes(g: Geometry, disk: seq<Sector>): seq<Byte>
    requires Fits(g, disk)
  {
    LbaBound(g, g.Clusters());
    Bytes(disk[g.fatStart..g.fatStart + g.fatSize])
  }

  /** Entry c is the low 28 bits of the number in bytes 4c to 4c + 3 of the table. */
  lemma TableEntry(g: Geometry, disk: seq<Sector>, c: nat)
    requires Fits(g, disk) && c < |Abs(g, disk).fat|
    ensures |TableBytes(g, disk)| == 4 * |Abs(g, disk).fat|
    ensures Abs(g, disk).fat[c] == ByteValue(TableBytes(g, disk)[4 * c..4 * c + 4]) % 0x1000_0000
  {
    hide Bytes, Fits;
    TableSlice(g, disk, c);
    var s, o := disk[g.fatStart + c / 128], c % 128 * 4;
    Four(s[o..o + 4]);
  }

  lemma TableSlice(g: Geometry, disk: seq<Sector>, c: nat)
    requires Fits(g, disk) && c < |Abs(g, disk).fat|
    ensures |TableBytes(g, disk)| == 4 * |Abs(g, disk).fat| && g.fatStart + c / 128 < |disk|
    ensures TableBytes(g, disk)[4 * c..4 * c + 4] == disk[g.fatStart + c / 128][c % 128 * 4..c % 128 * 4 + 4]
  {
    hide Abs;
    assert |Abs(g, disk).fat| == g.Clusters();
    LbaBound(g, g.Clusters());
    var t, table := TableBytes(g, disk), disk[g.fatStart..g.fatStart + g.fatSize];
    var x, y := t[4 * c..4 * c + 4], disk[g.fatStart + c / 128][c % 128 * 4..c % 128 * 4 + 4];
    forall k | 0 <= k < 4 ensures x[k] == y[k] {
      WordPlace(c, k);
      assert t[4 * c + k] == table[(4 * c + k) / 512][(4 * c + k) % 512];
    }
  }

  lemma WordPlace(c: nat, k: nat)
    requires k < 4
    ensures (4 * c + k) / 512 == c / 128 && (4 * c + k) % 512 == c % 128 * 4 + k
  {}

  /** Sector i of cluster c, on the disk: cluster 2 comes first. */
  lemma SectorOnDisk(g: Geometry, disk: seq<Sector>, c: nat, i: nat)
    requires Fits(g, disk) && 2 <= c < g.Clusters() && i < g.spc
    ensures 0 <= g.dataStart + (c - 2) * g.spc + i < |disk| && |Abs(g, disk).data[c]| == g.spc
    ensures Abs(g, disk).data[c][i] == disk[g.dataStart + (c - 2) * g.spc + i]
  {
    hide Abs, Fits;
    ClusterAt(g, disk, c);
  }

  /** A byte of a chain's content: sector i of its n-th cluster holds 512 of them, of which this is the o-th. */
  lemma ContentOnDisk(g: Geometry, disk: seq<Sector>, ch: seq<nat>, n: nat, i: nat, o: nat)
    requires Fits(g, disk) && InData(Abs(g, disk), ch) && n < |ch| && i < g.spc && o < 512
    ensures ch[n] >= 2 && 0 <= g.dataStart + (ch[n] - 2) * g.spc + i < |disk|
    ensures var p := n * (512 * g.spc) + 512 * i + o;
            0 <= p < |Content(Abs(g, disk), ch)|
            && Content(Abs(g, disk), ch)[p] == disk[g.dataStart + (ch[n] - 2) * g.spc + i][o]
  {
    hide Content, Abs, Fits;
    var c := ch[n];
    AbsWellSized(g, disk);
    SectorOnDisk(g, disk, c, i);
    ContentByte(g, Abs(g, disk), ch, n, 512 * i + o);
    assert Bytes(Abs(g, disk).data[c])[512 * i + o] == Abs(g, disk).data[c][i][o];
  }

  lemma ContentByte(g: Geometry, im: Image, ch: seq<nat>, n: nat, p: nat)
    requires WellSized(g, im) && InData(im, ch) && n < |ch| && p < 512 * g.spc
    ensures n * (512 * g.spc) + p < |Content(im, ch)|
    ensures Content(im, ch)[n * (512 * g.spc) + p] == Bytes(im.data[ch[n]])[p]
  {
    hide Content;
    ContentLength(g, im, ch);
    MulMono(n + 1, |ch|, 512 * g.spc);
    MulAdd(n, 1, 512 * g.spc);
    ContentSplit(g, im, ch, n);
  }

  /** A chain: distinct clusters, each linked to the next by its table entry, the last marked as the end. */
  lemma ChainMeans(fat: seq<nat>, ch: seq<nat>)
    ensures IsChain(fat, ch) <==>
              |ch| > 0 && (forall i, j :: 0 <= i < j < |ch| ==> ch[i] != ch[j])
              && (forall i :: 0 <= i < |ch| ==> 2 <= ch[i] < |fat|)
              && (forall i {:trigger ch[i]} :: 0 <= i < |ch| ==> if i + 1 < |ch| then fat[ch[i]] == ch[i + 1] else fat[ch[i]] >= 0x0FFF_FFF8)
  {}

  /** A directory entry: the name in front and the attributes in byte 11; the first cluster in bytes 26, 27,
      20 and 21, and the length in the last four. */
  lemma EntryMeans(e: Entry32)
    ensures NameOf(e) == e[..11]
    ensures IsEnd(e) <==> e[0] == 0
    ensures IsDeleted(e) <==> e[0] == 0xE5
    ensures Visible(e) <==> e[0] != 0 && e[0] != 0xE5 && e[11] % 16 == 0
    ensures IsDirectory(e) <==> e[11] / 16 % 2 == 1
  {}

  lemma EntryNumbers(e: Entry32)
    ensures ClusterOf(e) == ByteValue(e[26..28] + e[20..22]) && SizeOf(e) == ByteValue(e[28..32])
  {
    Four(e[26..28] + e[20..22]);
    Four(e[28..32]);
  }

  /** What is changed when a field of an entry is. */
  lemma EntryWrites(e: Entry32, c: nat, size: nat, n: Name, i: nat)
    requires i < 32
    ensures i !in {20, 21, 26, 27} ==> WithCluster(e, c)[i] == e[i]
    ensures i < 28 ==> WithSize(e, size)[i] == e[i]
    ensures WithName(e, n)[i] == if i < 11 then n[i] else e[i]
    ensures Deleted(e)[i] == if i == 0 then 0xE5 else e[i]
  {}
}
