/** Cluster chains and the bytes they hold, as facts about a volume's image. */
module Fat32Chain {
  import opened Basics
  import opened BlockCache
  import opened Radix
  import opened Fat32Layout

  function Splice<T>(s: seq<T>, pos: nat, t: seq<T>): (r: seq<T>)
    requires pos + |t| <= |s|
    ensures |r| == |s|
  {
    s[..pos] + t + s[pos + |t|..]
  }

  /** The bytes of consecutive sectors. */
  function Bytes(d: seq<Sector>): (r: seq<Byte>)
    ensures |r| == 512 * |d|
    ensures forall p :: 0 <= p < |r| ==> r[p] == d[p / 512][p % 512]
  {
    seq(512 * |d|, p requires 0 <= p < 512 * |d| => d[p / 512][p % 512])
  }

  function ClusterSize(g: Geometry): nat { 512 * g.spc }

  /** Which cluster of a file byte offset falls into, and where in it. */
  function ClusterIndex(g: Geometry, offset: nat): (n: nat)
    requires g.spc >= 1
  {
    DivModNonneg(offset, ClusterSize(g));
    offset / ClusterSize(g)
  }

  function ClusterOffset(g: Geometry, offset: nat): (o: nat)
    requires g.spc >= 1
    ensures o < ClusterSize(g) && offset == ClusterIndex(g, offset) * ClusterSize(g) + o
  {
    DivModNonneg(offset, ClusterSize(g));
    offset % ClusterSize(g)
  }

  lemma DivModNonneg(x: nat, m: nat)
    requires m > 0
    ensures x / m >= 0 && x == x / m * m + x % m
  {
    var q, r := DivMod(x, m);
    if q < 0 { MulMono(q, -1, m); }
  }

  /** The clusters of ch, in order, are linked by the table and end the chain. */
  ghost predicate IsChain(fat: seq<nat>, ch: seq<nat>) {
    && |ch| > 0
    && (forall i :: 0 <= i < |ch| ==> 2 <= ch[i] < |fat|)
    && (forall i, j :: 0 <= i < j < |ch| ==> ch[i] != ch[j])
    && (forall i {:trigger fat[ch[i]]} :: 0 <= i < |ch| - 1 ==> fat[ch[i]] == ch[i + 1])
    && fat[ch[|ch| - 1]] >= EOC
  }

  lemma ChainBounds(fat: seq<nat>, ch: seq<nat>)
    requires IsChain(fat, ch)
    ensures |ch| > 0 && forall i :: 0 <= i < |ch| ==> 2 <= ch[i] < |fat|
  {}

  ghost predicate InData(im: Image, ch: seq<nat>) {
    forall i :: 0 <= i < |ch| ==> 2 <= ch[i] < |im.data|
  }

  /** The bytes of a chain's clusters, end to end. */
  ghost function Content(im: Image, ch: seq<nat>): seq<Byte>
    requires InData(im, ch)
  {
    if |ch| == 0 then [] else Bytes(im.data[ch[0]]) + Content(im, ch[1..])
  }

  lemma {:induction false} ContentLength(g: Geometry, im: Image, ch: seq<nat>)
    requires WellSized(g, im) && InData(im, ch)
    ensures |Content(im, ch)| == |ch| * ClusterSize(g)
  {
    if |ch| > 0 {
      ContentLength(g, im, ch[1..]);
      MulAdd(1, |ch| - 1, ClusterSize(g));
    }
  }

  lemma {:induction false} ContentConcat(im: Image, a: seq<nat>, b: seq<nat>)
    requires InData(im, a) && InData(im, b)
    ensures InData(im, a + b) && Content(im, a + b) == Content(im, a) + Content(im, b)
  {
    if |a| == 0 {
      assert a + b == b;
    } else {
      ContentConcat(im, a[1..], b);
      assert (a + b)[1..] == a[1..] + b;
    }
  }

  lemma ContentOne(im: Image, c: nat)
    requires 2 <= c < |im.data|
    ensures InData(im, [c]) && Content(im, [c]) == Bytes(im.data[c])
  {
    assert [c][1..] == [];
  }

  /** Cluster number n of a chain within the chain's bytes. */
  lemma ContentSplit(g: Geometry, im: Image, ch: seq<nat>, n: nat)
    requires WellSized(g, im) && InData(im, ch) && n < |ch|
    ensures InData(im, ch[..n]) && InData(im, ch[n + 1..])
    ensures Content(im, ch) == Content(im, ch[..n]) + Bytes(im.data[ch[n]]) + Content(im, ch[n + 1..])
    ensures |Content(im, ch[..n])| == n * ClusterSize(g)
  {
    assert ch == ch[..n] + ([ch[n]] + ch[n + 1..]);
    ContentOne(im, ch[n]);
    ContentConcat(im, [ch[n]], ch[n + 1..]);
    ContentConcat(im, ch[..n], [ch[n]] + ch[n + 1..]);
    ContentLength(g, im, ch[..n]);
  }

  /** A chain's bytes depend only on its own clusters. */
  lemma {:induction false} ContentFrame(im: Image, im': Image, ch: seq<nat>)
    requires InData(im, ch) && InData(im', ch)
    requires forall i :: 0 <= i < |ch| ==> im'.data[ch[i]] == im.data[ch[i]]
    ensures Content(im', ch) == Content(im, ch)
  {
    if |ch| > 0 {
      ContentFrame(im, im', ch[1..]);
    }
  }

  lemma SpliceMiddle<T>(a: seq<T>, b: seq<T>, c: seq<T>, pos: nat, t: seq<T>)
    requires pos + |t| <= |b|
    ensures a + Splice(b, pos, t) + c == Splice(a + b + c, |a| + pos, t)
  {}

  /** Rewriting part of cluster n of a chain rewrites that part of the chain's bytes. */
  lemma ContentWrite(g: Geometry, im: Image, im': Image, ch: seq<nat>, n: nat, off: nat, t: seq<Byte>)
    requires WellSized(g, im) && InData(im, ch) && InData(im', ch) && n < |ch|
    requires forall i, j :: 0 <= i < j < |ch| ==> ch[i] != ch[j]
    requires forall i :: 0 <= i < |ch| && i != n ==> im'.data[ch[i]] == im.data[ch[i]]
    requires off + |t| <= ClusterSize(g)
    requires Bytes(im'.data[ch[n]]) == Splice(Bytes(im.data[ch[n]]), off, t)
    requires WellSized(g, im')
    ensures n * ClusterSize(g) + off + |t| <= |Content(im, ch)|
    ensures Content(im', ch) == Splice(Content(im, ch), n * ClusterSize(g) + off, t)
  {
    hide Content, Bytes;
    ContentSplit(g, im, ch, n);
    ContentSplit(g, im', ch, n);
    ContentFrame(im, im', ch[..n]);
    ContentFrame(im, im', ch[n + 1..]);
    SpliceMiddle(Content(im, ch[..n]), Bytes(im.data[ch[n]]), Content(im, ch[n + 1..]), off, t);
  }

  /** Rewriting part of one sector rewrites that part of the cluster's bytes. */
  lemma BytesWrite(d: seq<Sector>, i: nat, o: nat, t: seq<Byte>, d': seq<Sector>)
    requires i < |d| && o + |t| <= 512
    requires |d'| == |d| && d'[i] == Splice(d[i], o, t)
    requires forall j :: 0 <= j < |d| && j != i ==> d'[j] == d[j]
    ensures Bytes(d') == Splice(Bytes(d), 512 * i + o, t)
  {
    var a, b := Bytes(d'), Splice(Bytes(d), 512 * i + o, t);
    forall p | 0 <= p < 512 * |d|
      ensures a[p] == b[p]
    {
      var j, q := p / 512, p % 512;
      assert a[p] == d'[j][q] && Bytes(d)[p] == d[j][q];
      if j == i && o <= q < o + |t| {
        assert d'[i][q] == t[q - o];
      }
    }
  }

  /** A cluster number with a zero table entry is in no chain. */
  lemma FreeNotInChain(fat: seq<nat>, ch: seq<nat>, c: nat)
    requires IsChain(fat, ch) && c < |fat| && fat[c] == 0
    ensures c !in ch
  {
    forall i | 0 <= i < |ch|
      ensures ch[i] != c
    {
      if i < |ch| - 1 { assert fat[ch[i]] == ch[i + 1] >= 2; }
    }
  }

  lemma ChainFrame(fat: seq<nat>, fat': seq<nat>, ch: seq<nat>)
    requires IsChain(fat, ch) && |fat'| == |fat|
    requires forall i :: 0 <= i < |ch| ==> fat'[ch[i]] == fat[ch[i]]
    ensures IsChain(fat', ch)
  {}

  /** Marking a free cluster as an end and linking it behind the last one extends the chain. */
  lemma ChainAppend(fat: seq<nat>, ch: seq<nat>, c: nat, fat': seq<nat>)
    requires IsChain(fat, ch) && 2 <= c < |fat| && fat[c] == 0
    requires fat' == fat[c := EOC][ch[|ch| - 1] := c]
    ensures IsChain(fat', ch + [c])
  {
    FreeNotInChain(fat, ch, c);
    var ch' := ch + [c];
    forall i | 0 <= i < |ch'| - 1
      ensures fat'[ch'[i]] == ch'[i + 1]
    {}
  }

  /** The live chains of a volume, by first cluster: each is a chain, no two share a cluster. */
  ghost predicate Chains(fat: seq<nat>, m: map<nat, seq<nat>>) {
    && (forall s :: s in m ==> IsChain(fat, m[s]) && m[s][0] == s)
    && (forall s, t :: s in m && t in m && s != t ==> Apart(m[s], m[t]))
  }

  ghost predicate Apart(a: seq<nat>, b: seq<nat>) {
    forall i, j :: 0 <= i < |a| && 0 <= j < |b| ==> a[i] != b[j]
  }

  ghost predicate Free(fat: seq<nat>, c: nat) {
    2 <= c < |fat| && fat[c] == 0
  }

  /** How many clusters are free. */
  ghost function FreeCount(fat: seq<nat>): nat { |FreeSet(fat)| }

  ghost function FreeSet(fat: seq<nat>): set<nat> { set c: nat | c < |fat| && Free(fat, c) }

  lemma FullCount(fat: seq<nat>, n: nat)
    requires n >= |fat| && FullBelow(fat, n)
    ensures FreeCount(fat) == 0
  {
    assert FreeSet(fat) == {};
  }

  lemma TakenCount(fat: seq<nat>, c: nat)
    requires Free(fat, c)
    ensures FreeCount(fat) > 0 && FreeCount(fat[c := EOC]) == FreeCount(fat) - 1
  {
    assert c in FreeSet(fat);
    assert FreeSet(fat[c := EOC]) == FreeSet(fat) - {c};
  }

  lemma SomeCount(fat: seq<nat>, c: nat)
    requires Free(fat, c)
    ensures FreeCount(fat) > 0
  {
    assert c in FreeSet(fat);
  }

  /** No free cluster below n. */
  ghost predicate FullBelow(fat: seq<nat>, n: nat) {
    forall b :: 2 <= b < n && b < |fat| ==> fat[b] != 0
  }

  function ZeroSector(): Sector { seq(512, _ => 0) }

  function ZeroCluster(spc: nat): (d: seq<Sector>)
    ensures |d| == spc && forall i :: 0 <= i < spc ==> d[i] == ZeroSector()
  {
    seq(spc, _ => ZeroSector())
  }

  /** The image once free cluster c is taken: marked as an end, its bytes zero. */
  ghost function Taken(spc: nat, im: Image, c: nat): Image
    requires c < |im.fat| && c < |im.data|
  {
    Image(im.fat[c := EOC], im.data[c := ZeroCluster(spc)])
  }

  ghost function Live(fat: seq<nat>): set<nat> {
    set c: nat | c < |fat| && fat[c] != 0
  }

  /** The walk from cur that zeroes each entry it leaves stays inside the table. A zeroed entry stops
      the walk, so this is well founded on cyclic tables too. */
  ghost predicate Inside(fat: seq<nat>, cur: nat)
    decreases |Live(fat)|, if 2 <= cur < EOC then 1 else 0
  {
    2 <= cur < EOC ==> cur < |fat| && (FreedDecreases(fat, cur); Inside(fat[cur := 0], fat[cur]))
  }

  /** What that walk leaves. */
  ghost function Freed(fat: seq<nat>, cur: nat): (r: seq<nat>)
    requires Inside(fat, cur)
    ensures |r| == |fat| && forall c :: 0 <= c < |fat| ==> r[c] == fat[c] || r[c] == 0
    decreases |Live(fat)|, if 2 <= cur < EOC then 1 else 0
  {
    if 2 <= cur < EOC then
      FreedDecreases(fat, cur);
      Freed(fat[cur := 0], fat[cur])
    else fat
  }

  lemma FreedDecreases(fat: seq<nat>, cur: nat)
    requires 2 <= cur < |fat|
    ensures fat[cur] != 0 ==> |Live(fat[cur := 0])| < |Live(fat)|
    ensures fat[cur] == 0 ==> Live(fat[cur := 0]) == Live(fat)
  {
    if fat[cur] != 0 {
      assert Live(fat[cur := 0]) == Live(fat) - {cur};
    }
  }

  /** Only cluster c's data differs, and its bytes are now bytes. */
  ghost predicate Rewritten(g: Geometry, im: Image, im': Image, c: nat, bytes: seq<Byte>) {
    && WellSized(g, im) && WellSized(g, im') && 2 <= c < g.Clusters()
    && im'.fat == im.fat
    && (forall b :: 0 <= b < g.Clusters() && b != c ==> im'.data[b] == im.data[b])
    && Bytes(im'.data[c]) == bytes
  }

  /** Splicing in the next piece of buf right behind the pieces already in. */
  lemma SpliceMore<T>(s: seq<T>, pos: nat, buf: seq<T>, n: nat, k: nat)
    requires n + k <= |buf| && pos + n + k <= |s|
    ensures Splice(Splice(s, pos, buf[..n]), pos + n, buf[n..n + k]) == Splice(s, pos, buf[..n + k])
  {}

  lemma RewrittenMore(g: Geometry, im0: Image, im1: Image, im2: Image, c: nat, off: nat, buf: seq<Byte>, n: nat, k: nat)
    requires WellSized(g, im0) && 2 <= c < g.Clusters() && n + k <= |buf| && off + n + k <= ClusterSize(g)
    requires Rewritten(g, im0, im1, c, Splice(Bytes(im0.data[c]), off, buf[..n]))
    requires Rewritten(g, im1, im2, c, Splice(Bytes(im1.data[c]), off + n, buf[n..n + k]))
    ensures Rewritten(g, im0, im2, c, Splice(Bytes(im0.data[c]), off, buf[..n + k]))
  {
    SpliceMore(Bytes(im0.data[c]), off, buf, n, k);
  }

  lemma RewrittenNone(g: Geometry, im: Image, c: nat, off: nat, buf: seq<Byte>)
    requires WellSized(g, im) && 2 <= c < g.Clusters() && off <= ClusterSize(g)
    ensures Rewritten(g, im, im, c, Splice(Bytes(im.data[c]), off, buf[..0]))
  {
    assert Splice(Bytes(im.data[c]), off, buf[..0]) == Bytes(im.data[c]);
  }

  lemma SectorSlice(d: seq<Sector>, i: nat, o: nat, n: nat)
    requires i < |d| && o + n <= 512
    ensures Bytes(d)[512 * i + o..512 * i + o + n] == d[i][o..o + n]
  {
    var a, b := Bytes(d)[512 * i + o..512 * i + o + n], d[i][o..o + n];
    forall p | 0 <= p < n
      ensures a[p] == b[p]
    {
      var q := 512 * i + o + p;
      assert a[p] == Bytes(d)[q] && q / 512 == i && q % 512 == o + p;
    }
  }

  lemma SliceMore<T>(s: seq<T>, a: nat, b: nat, k: nat)
    requires a <= b && b + k <= |s|
    ensures s[a..b] + s[b..b + k] == s[a..b + k]
  {}
}
