/** Where a FAT32 volume keeps its allocation table and its clusters, and what the sectors of a
    volume mean. */
module Fat32Layout {
  import opened BlockCache
  import opened Radix

  /** Table values from here on end a chain. */
  const EOC: nat := 0x0FFF_FFF8
  const MASK: nat := 0x1000_0000

  datatype Geometry = Geometry(fatStart: nat, fatSize: nat, dataStart: nat, spc: nat) {
    /** The number of table entries; clusters 0 and 1 are reserved. */
    function Clusters(): nat { fatSize * 128 }
  }

  /** fat32_cluster_to_lba, plus a sector within the cluster */
  function Lba(g: Geometry, c: nat, i: nat): nat
    requires c >= 2
  {
    g.dataStart + (c - 2) * g.spc + i
  }

  /** A volume whose table lies before its data, whose every table entry has data sectors, and
      whose sector numbers fit in 32 bits. */
  predicate Fits(g: Geometry, disk: seq<Sector>) {
    && 1 <= g.spc < 256 && 1 <= g.fatSize
    && g.fatStart + g.fatSize <= g.dataStart
    && g.Clusters() <= EOC
    && Lba(g, g.Clusters(), 0) <= |disk| <= 0x1_0000_0000
  }

  function Le32(s: Sector, o: nat): nat
    requires o + 4 <= 512
  {
    (s[o] as int) + 256 * (s[o + 1] as int) + 65536 * (s[o + 2] as int) + 16777216 * (s[o + 3] as int)
  }

  function PutLe32(s: Sector, o: nat, v: nat): Sector
    requires o + 4 <= 512
  {
    s[o := v % 256][o + 1 := v / 256 % 256][o + 2 := v / 65536 % 256][o + 3 := v / 16777216 % 256]
  }

  lemma Le32Put(s: Sector, o: nat, v: nat)
    requires o + 4 <= 512 && v < 0x1_0000_0000
    ensures Le32(PutLe32(s, o, v), o) == v
  {
    FourDigits(v);
  }

  lemma FourDigits(v: nat)
    requires v < 0x1_0000_0000
    ensures v == v % 256 + 256 * (v / 256 % 256) + 65536 * (v / 65536 % 256) + 16777216 * (v / 16777216 % 256)
  {
    assert v / 65536 == v / 256 / 256;
    assert v / 16777216 == v / 65536 / 256;
  }

  lemma Le32Other(s: Sector, o: nat, v: nat, o': nat)
    requires o + 4 <= 512 && o' + 4 <= 512 && (o' + 4 <= o || o + 4 <= o')
    ensures Le32(PutLe32(s, o, v), o') == Le32(s, o')
  {}

  /** What the sectors mean: the 28-bit table, and each cluster's sectors. */
  datatype Image = Image(fat: seq<nat>, data: seq<seq<Sector>>)

  function SetFat(im: Image, c: nat, v: nat): Image
    requires c < |im.fat|
  {
    im.(fat := im.fat[c := v])
  }

  function SetSector(im: Image, c: nat, i: nat, d: Sector): Image
    requires c < |im.data| && i < |im.data[c]|
  {
    var cluster: seq<Sector> := im.data[c][i := d];
    im.(data := im.data[c := cluster])
  }

  function FatEntry(g: Geometry, disk: seq<Sector>, c: nat): (v: nat)
    requires Fits(g, disk) && c < g.Clusters()
    ensures v < MASK
  {
    LbaBound(g, g.Clusters());
    Le32(disk[g.fatStart + c / 128], c % 128 * 4) % MASK
  }

  function Cluster(g: Geometry, disk: seq<Sector>, c: nat): (sectors: seq<Sector>)
    requires Fits(g, disk) && c < g.Clusters()
    ensures c >= 2 ==> |sectors| == g.spc
  {
    if c < 2 then [] else
      LbaNext(g, c, g.Clusters());
      LbaBound(g, c);
      disk[Lba(g, c, 0)..Lba(g, c, 0) + g.spc]
  }

  lemma LbaBound(g: Geometry, c: nat)
    requires c >= 2
    ensures Lba(g, c, 0) >= g.dataStart
  {}

  /** Clusters do not overlap. */
  lemma LbaNext(g: Geometry, c: nat, c': nat)
    requires 2 <= c < c'
    ensures Lba(g, c, 0) + g.spc <= Lba(g, c', 0)
  {
    MulAdd(c - 2, c' - c, g.spc);
    MulMono(1, c' - c, g.spc);
  }

  function Abs(g: Geometry, disk: seq<Sector>): (im: Image)
    requires Fits(g, disk)
    ensures |im.fat| == |im.data| == g.Clusters()
    ensures forall c :: 0 <= c < |im.fat| ==> im.fat[c] == FatEntry(g, disk, c)
    ensures forall c :: 0 <= c < |im.data| ==> im.data[c] == Cluster(g, disk, c)
  {
    Image(seq(g.Clusters(), c requires 0 <= c < g.Clusters() => FatEntry(g, disk, c)),
          seq(g.Clusters(), c requires 0 <= c < g.Clusters() => Cluster(g, disk, c)))
  }

  predicate WellSized(g: Geometry, im: Image) {
    && |im.fat| == |im.data| == g.Clusters() && 1 <= g.spc
    && (forall c :: 2 <= c < |im.data| ==> |im.data[c]| == g.spc)
    && (forall c :: 0 <= c < |im.fat| ==> im.fat[c] < MASK)
  }

  lemma AbsWellSized(g: Geometry, disk: seq<Sector>)
    requires Fits(g, disk)
    ensures WellSized(g, Abs(g, disk))
  {}

  /** Rewriting one table entry's bytes changes that entry and nothing else. */
  lemma WriteFatSector(g: Geometry, disk: seq<Sector>, c: nat, v: nat)
    requires Fits(g, disk) && c < g.Clusters() && v < 0x1_0000_0000
    requires g.fatStart + c / 128 < |disk|
    ensures var s := g.fatStart + c / 128;
            var disk': seq<Sector> := disk[s := PutLe32(disk[s], c % 128 * 4, v)];
            && Fits(g, disk')
            && Abs(g, disk') == SetFat(Abs(g, disk), c, v % MASK)
  {
    var s := g.fatStart + c / 128;
    var d := PutLe32(disk[s], c % 128 * 4, v);
    var disk': seq<Sector> := disk[s := d];
    var im, im' := Abs(g, disk), Abs(g, disk');
    forall b | 0 <= b < g.Clusters()
      ensures im'.fat[b] == SetFat(im, c, v % MASK).fat[b] && im'.data[b] == im.data[b]
    {
      FatRewritten(g, disk, c, v, b);
      DataUntouched(g, disk, s, d, b);
    }
    hide Le32, PutLe32, FatEntry, Cluster;
    assert im'.fat == SetFat(im, c, v % MASK).fat;
    assert im'.data == im.data;
  }

  lemma FatRewritten(g: Geometry, disk: seq<Sector>, c: nat, v: nat, b: nat)
    requires Fits(g, disk) && c < g.Clusters() && b < g.Clusters() && v < 0x1_0000_0000
    requires g.fatStart + c / 128 < |disk|
    ensures var s := g.fatStart + c / 128;
            var disk': seq<Sector> := disk[s := PutLe32(disk[s], c % 128 * 4, v)];
            Fits(g, disk') && FatEntry(g, disk', b) == if b == c then v % MASK else FatEntry(g, disk, b)
  {
    var s := g.fatStart + c / 128;
    Le32Put(disk[s], c % 128 * 4, v);
    hide Le32, PutLe32;
    LbaBound(g, g.Clusters());
    if b != c && b / 128 == c / 128 {
      assert b % 128 != c % 128;
      Le32Other(disk[s], c % 128 * 4, v, b % 128 * 4);
    }
  }

  lemma DataUntouched(g: Geometry, disk: seq<Sector>, s: nat, d: Sector, b: nat)
    requires Fits(g, disk) && b < g.Clusters() && s < g.dataStart && s < |disk|
    ensures var disk': seq<Sector> := disk[s := d];
            Fits(g, disk') && Cluster(g, disk', b) == Cluster(g, disk, b)
  {
    if b >= 2 {
      LbaNext(g, b, g.Clusters());
      LbaBound(g, b);
    }
  }

  /** Rewriting one sector of a cluster changes that sector of that cluster and nothing else. */
  lemma WriteDataSector(g: Geometry, disk: seq<Sector>, c: nat, i: nat, d: Sector)
    requires Fits(g, disk) && 2 <= c < g.Clusters() && i < g.spc
    ensures Lba(g, c, i) < |disk|
    ensures var disk': seq<Sector> := disk[Lba(g, c, i) := d];
            var im := Abs(g, disk);
            && Fits(g, disk')
            && |im.data[c]| == g.spc
            && Abs(g, disk') == SetSector(im, c, i, d)
  {
    LbaNext(g, c, g.Clusters());
    LbaBound(g, c);
    var disk': seq<Sector> := disk[Lba(g, c, i) := d];
    var im, im' := Abs(g, disk), Abs(g, disk');
    assert im'.fat == im.fat;
    forall b | 0 <= b < g.Clusters()
      ensures im'.data[b] == SetSector(im, c, i, d).data[b]
    {
      if b >= 2 {
        LbaNext(g, b, g.Clusters());
        if b < c { LbaNext(g, b, c); } else if c < b { LbaNext(g, c, b); }
      }
    }
  }
}
