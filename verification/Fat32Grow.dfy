/** What appending clusters to a chain and writing into it does to the rest of a volume. */
module Fat32Grow {
  import opened Basics
  import opened Radix
  import opened Fat32Layout
  import opened Fat32Chain

  /** base followed by zeros up to length n. */
  ghost function Padded(base: seq<Byte>, n: nat): (r: seq<Byte>)
    requires |base| <= n
    ensures |r| == n
  {
    base + Zeros(n - |base|)
  }

  lemma ZeroClusterBytes(spc: nat)
    ensures Bytes(ZeroCluster(spc)) == Zeros(512 * spc)
  {}

  /** The image once free cluster c is taken and linked behind last. */
  ghost function Linked(spc: nat, im: Image, last: nat, c: nat): Image
    requires c < |im.fat| && c < |im.data| && last < |im.fat|
  {
    SetFat(Taken(spc, im, c), last, c)
  }

  /** Chain ch0 of im0 has become ch in im: new clusters, all formerly free and lowest first, may
      follow; whatever is outside ch is as it was. */
  ghost predicate Grown(g: Geometry, im0: Image, ch0: seq<nat>, im: Image, ch: seq<nat>) {
    && WellSized(g, im0) && WellSized(g, im)
    && IsChain(im0.fat, ch0) && IsChain(im.fat, ch)
    && ch0 <= ch
    && (forall i :: |ch0| <= i < |ch| ==> Free(im0.fat, ch[i]))
    && (forall b :: 0 <= b < |im.fat| && b !in ch ==> im.fat[b] == im0.fat[b] && im.data[b] == im0.data[b])
    && (forall b, i :: |ch0| <= i < |ch| && Free(im.fat, b) ==> ch[i] < b)
  }

  lemma GrownMember(g: Geometry, im0: Image, ch0: seq<nat>, im: Image, ch: seq<nat>, k: nat)
    requires Grown(g, im0, ch0, im, ch) && k < |ch|
    ensures WellSized(g, im) && IsChain(im.fat, ch) && 2 <= ch[k] < g.Clusters()
  {}

  lemma GrownSelf(g: Geometry, im: Image, ch: seq<nat>)
    requires WellSized(g, im) && IsChain(im.fat, ch)
    ensures Grown(g, im, ch, im, ch)
  {}

  /** Each new cluster was one of the free ones. */
  lemma GrownCount(g: Geometry, im0: Image, ch0: seq<nat>, im: Image, ch: seq<nat>)
    requires Grown(g, im0, ch0, im, ch)
    ensures FreeCount(im0.fat) == FreeCount(im.fat) + |ch| - |ch0|
  {
    var added := ch[|ch0|..];
    var s := set c | c in added;
    assert forall i, j :: 0 <= i < j < |added| ==> added[i] != added[j];
    DistinctSize(added, s);
    forall c: nat
      ensures c in FreeSet(im0.fat) <==> c in FreeSet(im.fat) + s
      ensures c in s ==> c !in FreeSet(im.fat)
    {
      GrownFree(g, im0, ch0, im, ch, c);
    }
    hide Grown, Free;
    assert FreeSet(im0.fat) == FreeSet(im.fat) + s;
  }

  lemma GrownFree(g: Geometry, im0: Image, ch0: seq<nat>, im: Image, ch: seq<nat>, c: nat)
    requires Grown(g, im0, ch0, im, ch)
    ensures |im0.fat| == |im.fat|
    ensures Free(im0.fat, c) <==> Free(im.fat, c) || c in ch[|ch0|..]
    ensures c in ch[|ch0|..] ==> !Free(im.fat, c)
  {
    assert ch == ch0 + ch[|ch0|..];
    if c in ch[|ch0|..] {
      var i :| 0 <= i < |ch| - |ch0| && ch[|ch0|..][i] == c;
      assert ch[|ch0| + i] == c;
    }
    if c < |im0.fat| && im0.fat[c] == 0 { FreeNotInChain(im0.fat, ch0, c); }
    if c < |im.fat| && im.fat[c] == 0 { FreeNotInChain(im.fat, ch, c); }
  }

  lemma {:induction false} DistinctSize(q: seq<nat>, s: set<nat>)
    requires (forall i, j :: 0 <= i < j < |q| ==> q[i] != q[j]) && (forall c :: c in s <==> c in q)
    ensures |s| == |q|
  {
    if q == [] {
      assert s == {};
    } else {
      var c := q[|q| - 1];
      DistinctSize(q[..|q| - 1], s - {c});
    }
  }

  /** Whole clusters for n bytes, one at least. */
  ghost function Rounded(cs: nat, n: nat): nat
    requires cs > 0
  {
    if n == 0 then cs else (n + cs - 1) / cs * cs
  }

  ghost function Least(a: nat, b: nat): nat { if a < b then a else b }

  /** Where the bytes of a write go in a chain of room bytes: at the offset if the chain reaches beyond it. */
  ghost function Landing(room: nat, offset: nat): nat { Least(room, offset) }

  /** How many of want bytes can be written with that many free clusters. */
  ghost function Fitting(cs: nat, room: nat, offset: nat, want: nat, free: nat): nat {
    Least(want, room - Landing(room, offset) + free * cs)
  }

  /** The size of a chain of room bytes after a write of count bytes at offset: a chain that ends at or
      before the offset gets a cluster at once, and more come as the bytes need them. */
  ghost function NewRoom(cs: nat, room: nat, offset: nat, count: nat): nat
    requires cs > 0
  {
    if offset >= room then room + Rounded(cs, count)
    else if offset + count > room then room + Rounded(cs, offset + count - room)
    else room
  }

  lemma RoundedHolds(cs: nat, n: nat)
    requires cs > 0
    ensures Rounded(cs, n) >= n && Rounded(cs, n) >= cs
  {
    var q, r := DivMod(n + cs - 1, cs);
    if q == 0 { assert q * cs == 0; } else { MulMono(1, q, cs); }
  }

  lemma NewRoomHolds(cs: nat, room: nat, offset: nat, count: nat)
    requires cs > 0
    ensures room <= NewRoom(cs, room, offset, count) && Landing(room, offset) + count <= NewRoom(cs, room, offset, count)
  {
    RoundedHolds(cs, count);
    if offset < room && offset + count > room { RoundedHolds(cs, offset + count - room); }
  }

  /** The bytes of a chain after t was written at offset: the old ones, zeros in the new clusters, and t
      where it landed. */
  ghost function Overlaid(cs: nat, b: seq<Byte>, offset: nat, t: seq<Byte>): (r: seq<Byte>)
    requires cs > 0
    ensures |r| == NewRoom(cs, |b|, offset, |t|)
  {
    NewRoomHolds(cs, |b|, offset, |t|);
    Splice(Padded(b, NewRoom(cs, |b|, offset, |t|)), Landing(|b|, offset), t)
  }

  lemma RoundedIs(cs: nat, n: nat, k: nat)
    requires cs > 0 && k > 0 && (if n == 0 then k == 1 else (k - 1) * cs < n <= k * cs)
    ensures Rounded(cs, n) == k * cs
  {
    if n > 0 {
      MulAdd(k, -1, cs);
      DivModUnique(n + cs - 1, cs, k, n + cs - 1 - k * cs);
    }
  }

  /** A chain of n clusters that has grown to n', to hold the bytes and no further. */
  lemma GrownSize(cs: nat, n: nat, n': nat, offset: nat, count: nat)
    requires cs > 0
    requires var least := if offset < n * cs then n else n + 1; var pos := Landing(n * cs, offset);
             pos + count <= n' * cs && (n' == least || (n' > least && (n' - 1) * cs < pos + count))
    ensures n' * cs == NewRoom(cs, n * cs, offset, count)
  {
    MulAdd(n, 1, cs);
    if n' > n {
      var pos := Landing(n * cs, offset);
      MulAdd(n, n' - n, cs);
      MulAdd(n, n' - n - 1, cs);
      if offset < n * cs || n' > n + 1 { RoundedIs(cs, pos + count - n * cs, n' - n); }
      else if count > 0 { RoundedIs(cs, count, 1); }
    }
  }

  lemma LinkedOther(spc: nat, im: Image, last: nat, c: nat, b: nat)
    requires c < |im.fat| == |im.data| && last < |im.fat| && b < |im.fat| && b != c && b != last
    ensures Linked(spc, im, last, c).fat[b] == im.fat[b] && Linked(spc, im, last, c).data[b] == im.data[b]
  {}

  lemma LinkedSized(g: Geometry, im: Image, last: nat, c: nat)
    requires WellSized(g, im) && 2 <= c < |im.fat| && last < |im.fat| && |im.fat| <= EOC
    ensures WellSized(g, Linked(g.spc, im, last, c))
  {}

  lemma GrownAppend(g: Geometry, im0: Image, ch0: seq<nat>, im: Image, ch: seq<nat>, c: nat)
    requires Grown(g, im0, ch0, im, ch) && |im.fat| <= EOC
    requires Free(im.fat, c) && FullBelow(im.fat, c)
    ensures Grown(g, im0, ch0, Linked(g.spc, im, ch[|ch| - 1], c), ch + [c])
  {
    var last := ch[|ch| - 1];
    var im' := Linked(g.spc, im, last, c);
    ChainAppend(im.fat, ch, c, im'.fat);
    FreeNotInChain(im.fat, ch, c);
    LinkedSized(g, im, last, c);
    var ch' := ch + [c];
    assert ch'[|ch|] == c && ch'[|ch| - 1] == last;
    forall b | 0 <= b < |im'.fat| && b !in ch'
      ensures im'.fat[b] == im0.fat[b] && im'.data[b] == im0.data[b]
    {
      assert b !in ch && b != last && b != c;
      LinkedOther(g.spc, im, last, c, b);
    }
    forall b, i | |ch0| <= i < |ch'| && Free(im'.fat, b)
      ensures ch'[i] < b
    {
      assert b != c && b != last;
      assert Free(im.fat, b);
    }
  }

  lemma GrownWrite(g: Geometry, im0: Image, ch0: seq<nat>, im: Image, ch: seq<nat>, n: nat, im': Image, bytes: seq<Byte>)
    requires Grown(g, im0, ch0, im, ch) && n < |ch| && Rewritten(g, im, im', ch[n], bytes)
    ensures Grown(g, im0, ch0, im', ch)
  {
    forall b | 0 <= b < |im'.fat| && b !in ch
      ensures im'.data[b] == im0.data[b]
    {
      assert b != ch[n];
    }
  }

  lemma ChainInData(g: Geometry, im: Image, ch: seq<nat>)
    requires WellSized(g, im) && IsChain(im.fat, ch)
    ensures InData(im, ch) && |Content(im, ch)| == |ch| * ClusterSize(g)
  {
    ContentLength(g, im, ch);
  }

  /** Appending a cluster appends a cluster's worth of zeros. */
  lemma ContentAppend(g: Geometry, im: Image, ch: seq<nat>, c: nat)
    requires WellSized(g, im) && IsChain(im.fat, ch) && Free(im.fat, c) && |im.fat| <= EOC
    ensures var im' := Linked(g.spc, im, ch[|ch| - 1], c);
            && InData(im, ch) && InData(im', ch + [c])
            && Content(im', ch + [c]) == Content(im, ch) + Zeros(ClusterSize(g))
  {
    var im' := Linked(g.spc, im, ch[|ch| - 1], c);
    FreeNotInChain(im.fat, ch, c);
    ContentFrame(im, im', ch);
    ContentOne(im', c);
    ContentConcat(im', ch, [c]);
    ZeroClusterBytes(g.spc);
  }

  /** A write in progress: n bytes of buf stand at pos of a chain grown from base. */
  ghost predicate Writing(g: Geometry, im: Image, ch: seq<nat>, base: seq<Byte>, pos: nat, t: seq<Byte>) {
    && WellSized(g, im) && IsChain(im.fat, ch) && InData(im, ch)
    && |base| <= |ch| * ClusterSize(g) && pos + |t| <= |ch| * ClusterSize(g)
    && Content(im, ch) == Splice(Padded(base, |ch| * ClusterSize(g)), pos, t)
  }

  lemma WritingStart(g: Geometry, im: Image, ch: seq<nat>, pos: nat)
    requires WellSized(g, im) && IsChain(im.fat, ch) && pos <= |ch| * ClusterSize(g)
    ensures InData(im, ch) && Writing(g, im, ch, Content(im, ch), pos, [])
  {
    ChainInData(g, im, ch);
    hide ClusterSize, Content;
    var base := Content(im, ch);
    assert Padded(base, |ch| * ClusterSize(g)) == base;
    assert Splice(base, pos, []) == base;
  }

  lemma WritingAppend(g: Geometry, im: Image, ch: seq<nat>, base: seq<Byte>, pos: nat, t: seq<Byte>, c: nat)
    requires Writing(g, im, ch, base, pos, t) && Free(im.fat, c) && |im.fat| <= EOC
    ensures Writing(g, Linked(g.spc, im, ch[|ch| - 1], c), ch + [c], base, pos, t)
  {
    var im' := Linked(g.spc, im, ch[|ch| - 1], c);
    ContentAppend(g, im, ch, c);
    ChainAppend(im.fat, ch, c, im'.fat);
    LinkedSized(g, im, ch[|ch| - 1], c);
    MulAdd(|ch|, 1, ClusterSize(g));
    PadMore(base, |ch| * ClusterSize(g), ClusterSize(g), pos, t);
  }

  lemma PadMore(base: seq<Byte>, n: nat, k: nat, pos: nat, t: seq<Byte>)
    requires |base| <= n && pos + |t| <= n
    ensures Splice(Padded(base, n), pos, t) + Zeros(k) == Splice(Padded(base, n + k), pos, t)
  {
    assert Padded(base, n) + Zeros(k) == Padded(base, n + k);
  }

  lemma SpliceTwice<T>(s: seq<T>, pos: nat, t: seq<T>, u: seq<T>)
    requires pos + |t| + |u| <= |s|
    ensures Splice(Splice(s, pos, t), pos + |t|, u) == Splice(s, pos, t + u)
  {}

  /** Writing u into cluster n of the chain, right behind what is already written. */
  lemma WritingCluster(g: Geometry, im: Image, ch: seq<nat>, base: seq<Byte>, pos: nat, t: seq<Byte>,
                       n: nat, off: nat, u: seq<Byte>, im': Image)
    requires Writing(g, im, ch, base, pos, t) && n < |ch|
    requires pos + |t| == n * ClusterSize(g) + off && off + |u| <= ClusterSize(g)
    requires Rewritten(g, im, im', ch[n], Splice(Bytes(im.data[ch[n]]), off, u))
    ensures Writing(g, im', ch, base, pos, t + u)
  {
    assert pos + |t| + |u| <= |ch| * ClusterSize(g) by {
      MulMono(n + 1, |ch|, ClusterSize(g));
      MulAdd(n, 1, ClusterSize(g));
    }
    ContentWrite(g, im, im', ch, n, off, u);
    SpliceTwice(Padded(base, |ch| * ClusterSize(g)), pos, t, u);
  }

  /** Cluster n's bytes are the chain's bytes from n clusters on. */
  lemma ContentSlice(g: Geometry, im: Image, ch: seq<nat>, n: nat, a: nat, b: nat)
    requires WellSized(g, im) && InData(im, ch) && n < |ch| && a <= b <= ClusterSize(g)
    ensures n * ClusterSize(g) + b <= |Content(im, ch)|
    ensures Bytes(im.data[ch[n]])[a..b] == Content(im, ch)[n * ClusterSize(g) + a..n * ClusterSize(g) + b]
  {
    hide Content, Bytes;
    ContentSplit(g, im, ch, n);
    var size, content := ClusterSize(g), Content(im, ch);
    assert content[n * size..n * size + size][a..b] == content[n * size + a..n * size + b];
  }
}
