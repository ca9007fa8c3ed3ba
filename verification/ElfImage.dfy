/** What the PT_LOAD loop of the ELF64 loader leaves: the memory image and the page permissions as two
    functions of the segments, exact in every case, and what the format promises of disjoint ones. */
module ElfImage {
  import opened Basics
  const PAGE: int := 4096
  const USER_BASE: int := 0x2_0000_0000
  const USER_END: int := 0x8000_0000_0000
  const WRAP: int := 0x1_0000_0000_0000_0000
  const MAX32: int := 0xFFFF_FFFF

  type U64 = x: int | 0 <= x < 0x1_0000_0000_0000_0000

  /** A program header as read from the file, or the failure to read it. */
  datatype Header =
    | Unreadable
    | Phdr(load: bool, write: bool, exec: bool, offset: U64, vaddr: U64, filesz: U64, memsz: U64)

  /** A PT_LOAD header that passed every check, at its final address. */
  datatype Segment = Segment(write: bool, exec: bool, offset: int, vaddr: int, filesz: int, memsz: int)

  datatype Perm = Perm(write: bool, exec: bool)

  predicate SegmentOk(s: Segment) {
    && 0 <= s.filesz <= s.memsz && USER_BASE <= s.vaddr && s.vaddr + s.memsz < USER_END
    && 0 <= s.offset <= MAX32 && s.filesz <= MAX32
  }

  /** The checks of the loop, with its 64-bit sums. */
  function Check(h: Header, base: U64): (r: (bool, Segment))
    requires h.Phdr?
    ensures r.0 ==> SegmentOk(r.1)
  {
    var vaddr := (h.vaddr as int + base as int) % WRAP;
    var end := (vaddr + h.memsz as int) % WRAP;
    var s := Segment(h.write, h.exec, h.offset, vaddr, h.filesz, h.memsz);
    if h.filesz > h.memsz || end < vaddr || h.offset > MAX32 || h.filesz > MAX32 then (false, s)
    else if vaddr >= USER_END || end >= USER_END || vaddr < USER_BASE then (false, s)
    else (true, s)
  }

  function PageOf(a: int): int { a / PAGE }

  /** The first page of a segment and the page after its last. */
  function First(s: Segment): int { s.vaddr / PAGE }
  function Last(s: Segment): int { (s.vaddr + s.memsz + PAGE - 1) / PAGE }

  /** The permissions the second pass gives a page: those of the header, and write where the segment
      begins or ends inside the page. */
  function Tightened(s: Segment, p: int): Perm {
    var edge := (p == First(s) && s.vaddr % PAGE != 0) || (p == Last(s) - 1 && (s.vaddr + s.memsz) % PAGE != 0);
    Perm(s.write || edge, s.exec)
  }

  /** Which pages end up mapped, and how: by the last segment that ranges over them. */
  function Mapped(segs: seq<Segment>, p: int): bool {
    if segs == [] then false
    else First(segs[|segs| - 1]) <= p < Last(segs[|segs| - 1]) || Mapped(segs[..|segs| - 1], p)
  }

  function PermAt(segs: seq<Segment>, p: int): Perm
    requires Mapped(segs, p)
  {
    var s := segs[|segs| - 1];
    if First(s) <= p < Last(s) then Tightened(s, p) else PermAt(segs[..|segs| - 1], p)
  }

  predicate Readable(s: Segment, file: seq<Byte>) {
    0 <= s.offset && 0 <= s.filesz && (s.filesz == 0 || s.offset + s.filesz <= |file|)
  }

  /** The byte at an address: that of the last segment whose file part covers it, else zero. */
  function Image(segs: seq<Segment>, file: seq<Byte>, a: int): Byte
    requires Loadable(segs, file)
  {
    if segs == [] then 0
    else
      var s := segs[|segs| - 1];
      assert Readable(s, file);
      if s.vaddr <= a < s.vaddr + s.filesz then file[s.offset + a - s.vaddr] else Image(segs[..|segs| - 1], file, a)
  }

  predicate Loadable(segs: seq<Segment>, file: seq<Byte>) {
    forall i :: 0 <= i < |segs| ==> SegmentOk(segs[i]) && Readable(segs[i], file)
  }

  ghost predicate PermsHold(perms: map<int, Perm>, segs: seq<Segment>) {
    && (forall p :: p in perms <==> Mapped(segs, p))
    && (forall p :: p in perms ==> perms[p] == PermAt(segs, p))
  }

  ghost predicate MemHolds(mem: map<int, Byte>, segs: seq<Segment>, file: seq<Byte>)
    requires Loadable(segs, file)
  {
    forall a :: a in mem ==> mem[a] == Image(segs, file, a)
  }

  /** Every header can be read and every PT_LOAD header passes the checks. */
  predicate Accepted(headers: seq<Header>, base: U64) {
    forall i :: 0 <= i < |headers| ==> headers[i].Phdr? && (headers[i].load ==> Check(headers[i], base).0)
  }

  /** The PT_LOAD segments, in order. */
  function Segments(headers: seq<Header>, base: U64): (r: seq<Segment>)
    requires Accepted(headers, base)
  {
    if headers == [] then []
    else
      var h := headers[|headers| - 1];
      Segments(headers[..|headers| - 1], base) + if h.load then [Check(h, base).1] else []
  }

  /** The pages a segment ranges over, and those of all segments: what they take to map. */
  function Range(s: Segment): set<int> { set p: int | First(s) <= p < Last(s) && Ranges(s, p) }

  predicate Ranges(s: Segment, p: int) { First(s) <= p < Last(s) }

  function Pages(segs: seq<Segment>): (r: set<int>)
    ensures forall p :: p in r <==> Mapped(segs, p)
  {
    if segs == [] then {} else Pages(segs[..|segs| - 1]) + Range(segs[|segs| - 1])
  }

  /** A part takes no more pages than the whole. */
  lemma PagesPrefix(segs: seq<Segment>, i: nat)
    requires i <= |segs|
    ensures |Pages(segs[..i])| <= |Pages(segs)|
  {
    MappedPrefix(segs, i);
    Smaller(Pages(segs[..i]), Pages(segs));
  }

  lemma {:induction false} MappedPrefix(segs: seq<Segment>, i: nat)
    requires i <= |segs|
    ensures forall p :: Mapped(segs[..i], p) ==> Mapped(segs, p)
  {
    if i < |segs| {
      MappedPrefix(segs[..|segs| - 1], i);
      assert segs[..|segs| - 1][..i] == segs[..i];
    } else {
      assert segs[..i] == segs;
    }
  }

  lemma {:induction false} Smaller(a: set<int>, b: set<int>)
    requires a <= b
    ensures |a| <= |b|
  {
    assert b == a + (b - a);
  }

  lemma NoSegments(headers: seq<Header>, base: U64)
    ensures Accepted(headers[..0], base) && Segments(headers[..0], base) == [] && ImageEnd([]) == 0 && Disjoint([]) && Pages([]) == {}
  {}

  lemma SegmentsStep(headers: seq<Header>, i: nat, base: U64)
    requires i < |headers| && Accepted(headers[..i], base)
    requires headers[i].Phdr? && (headers[i].load ==> Check(headers[i], base).0)
    ensures Accepted(headers[..i + 1], base)
    ensures Segments(headers[..i + 1], base)
         == if headers[i].load then Segments(headers[..i], base) + [Check(headers[i], base).1] else Segments(headers[..i], base)
  {
    hide Check;
    assert headers[..i + 1][..i] == headers[..i] && headers[..i + 1][i] == headers[i];
    forall k | 0 <= k < i ensures headers[..i + 1][k] == headers[..i][k] {}
  }

  /** The pages of a segment below p. */
  function Below(s: Segment, p: int): set<int> { set q: int | First(s) <= q < p && Ranges(s, q) }

  /** How many pages of a segment are missing from a set of pages, those below p only or all. */
  function MissingBelow(s: Segment, p: int, had: set<int>): nat { |Below(s, p) - had| }
  function Missing(s: Segment, had: set<int>): nat { |Range(s) - had| }

  lemma BelowStep(s: Segment, p: int, had: set<int>)
    requires First(s) <= p < Last(s)
    ensures p !in Below(s, p) && Below(s, p + 1) == Below(s, p) + {p}
    ensures MissingBelow(s, p + 1, had) == MissingBelow(s, p, had) + if p in had then 0 else 1
    ensures MissingBelow(s, p + 1, had) <= Missing(s, had)
  {
    hide First, Last;
    if p !in had { assert Below(s, p + 1) - had == (Below(s, p) - had) + {p}; }
    else { assert Below(s, p + 1) - had == Below(s, p) - had; }
    Smaller(Below(s, p + 1) - had, Range(s) - had);
  }

  lemma BelowEnds(s: Segment, p: int, had: set<int>)
    ensures Below(s, First(s)) == {} && MissingBelow(s, First(s), had) == 0
    ensures p >= Last(s) ==> Below(s, p) == Range(s) && MissingBelow(s, p, had) == Missing(s, had)
  {
    hide First, Last;
    assert Below(s, First(s)) - had == {};
    if p >= Last(s) { assert Below(s, p) == Range(s); }
  }

  /** The second space is the first and newly mapped pages, writable and zeroed. */
  ghost predicate Grown(p0: map<int, Perm>, m0: map<int, Byte>, p1: map<int, Perm>, m1: map<int, Byte>) {
    && (forall p :: p in p0 ==> p in p1 && p1[p] == p0[p])
    && (forall p :: p in p1 && p !in p0 ==> p1[p] == Perm(true, false))
    && (forall a :: a in m0 ==> a in m1 && m1[a] == m0[a])
    && (forall a :: a in m1 && a !in m0 ==> m1[a] == 0)
  }

  lemma GrownNone(p0: map<int, Perm>, m0: map<int, Byte>)
    ensures Grown(p0, m0, p0, m0)
  {}

  lemma GrownStep(p0: map<int, Perm>, m0: map<int, Byte>, p1: map<int, Perm>, m1: map<int, Byte>,
                  p2: map<int, Perm>, m2: map<int, Byte>)
    requires Grown(p0, m0, p1, m1) && Grown(p1, m1, p2, m2)
    ensures Grown(p0, m0, p2, m2)
  {}

  /** What the loop needs: every header accepted, every segment's bytes in the file, and a frame for
      each page that some segment ranges over. */
  predicate Fits(headers: seq<Header>, base: U64, file: seq<Byte>, frames: nat) {
    && Accepted(headers, base) && Loadable(Segments(headers, base), file)
    && |Pages(Segments(headers, base))| <= frames
  }

  lemma Rejected(headers: seq<Header>, base: U64, file: seq<Byte>, frames: nat, i: nat)
    requires i < |headers| && (headers[i].Phdr? ==> headers[i].load && !Check(headers[i], base).0)
    ensures !Fits(headers, base, file, frames)
  {
    hide Check, Segments, Loadable;
  }

  /** A segment that could not be loaded, after those before it were. */
  lemma Unfit(headers: seq<Header>, base: U64, file: seq<Byte>, frames: nat, i: nat)
    requires i < |headers| && Accepted(headers[..i + 1], base)
    requires var segs := Segments(headers[..i + 1], base);
             segs != [] && (!Readable(segs[|segs| - 1], file) || |Pages(segs)| > frames)
    ensures !Fits(headers, base, file, frames)
  {
    hide Check, Pages, Segments, Accepted, Readable;
    if Accepted(headers, base) {
      var all, part := Segments(headers, base), Segments(headers[..i + 1], base);
      SegmentsPrefix(headers, base, i + 1);
      PagesPrefix(all, |part|);
      assert all[|part| - 1] == part[|part| - 1];
    }
  }

  lemma {:induction false} SegmentsPrefix(headers: seq<Header>, base: U64, i: nat)
    requires i <= |headers| && Accepted(headers, base)
    ensures Accepted(headers[..i], base)
    ensures var part := Segments(headers[..i], base);
            |part| <= |Segments(headers, base)| && part == Segments(headers, base)[..|part|]
  {
    hide Check;
    if i == |headers| {
      assert headers[..i] == headers;
    } else {
      var n := |headers| - 1;
      assert Accepted(headers[..n], base);
      SegmentsPrefix(headers[..n], base, i);
      assert headers[..n][..i] == headers[..i];
    }
  }

  lemma KeysArePages(perms: map<int, Perm>, segs: seq<Segment>)
    requires PermsHold(perms, segs)
    ensures perms.Keys == Pages(segs)
  {
    forall p ensures p in perms.Keys <==> p in Pages(segs) { assert p in perms <==> Mapped(segs, p); }
  }

  lemma PagesStep(segs: seq<Segment>, s: Segment)
    ensures Pages(segs + [s]) == Pages(segs) + Range(s)
    ensures |Pages(segs + [s])| == |Pages(segs)| + Missing(s, Pages(segs))
  {
    assert (segs + [s])[..|segs|] == segs;
    assert Pages(segs) + Range(s) == Pages(segs) + (Range(s) - Pages(segs));
  }

  lemma EndStep(segs: seq<Segment>, s: Segment)
    ensures ImageEnd(segs + [s]) == if s.vaddr + s.memsz > ImageEnd(segs) then s.vaddr + s.memsz else ImageEnd(segs)
  {
    assert (segs + [s])[..|segs|] == segs;
  }

  function ImageEnd(segs: seq<Segment>): int {
    if segs == [] then 0
    else
      var s, e := segs[|segs| - 1], ImageEnd(segs[..|segs| - 1]);
      if s.vaddr + s.memsz > e then s.vaddr + s.memsz else e
  }

  /** The two have no byte in common. */
  predicate Apart(s: Segment, t: Segment) {
    s.memsz == 0 || t.memsz == 0 || s.vaddr + s.memsz <= t.vaddr || t.vaddr + t.memsz <= s.vaddr
  }

  predicate Disjoint(segs: seq<Segment>) {
    && (forall i :: 0 <= i < |segs| ==> SegmentOk(segs[i]))
    && forall i, j :: 0 <= i < j < |segs| ==> Apart(segs[i], segs[j])
  }

  /** s is disjoint from all of segs. */
  predicate Clear(segs: seq<Segment>, s: Segment) {
    && SegmentOk(s) && (forall i :: 0 <= i < |segs| ==> SegmentOk(segs[i]) && Apart(segs[i], s))
  }

  lemma DisjointPrefix(segs: seq<Segment>, s: Segment)
    ensures Disjoint(segs + [s]) ==> Disjoint(segs) && Clear(segs, s)
  {
    if Disjoint(segs + [s]) {
      var r := segs + [s];
      assert forall i :: 0 <= i < |segs| ==> r[i] == segs[i];
      assert r[|segs|] == s;
    }
  }

  lemma LoadStep(segs: seq<Segment>, s: Segment, file: seq<Byte>)
    requires Loadable(segs, file) && SegmentOk(s) && Readable(s, file)
    ensures Loadable(segs + [s], file)
  {}

  /** The permissions after both passes. */
  lemma PermsStep(p0: map<int, Perm>, m0: map<int, Byte>, p1: map<int, Perm>, m1: map<int, Byte>, p2: map<int, Perm>,
                  segs: seq<Segment>, s: Segment)
    requires PermsHold(p0, segs) && p2.Keys == p1.Keys
    requires p1.Keys == p0.Keys + Range(s)
    requires Grown(p0, m0, p1, m1)
    requires forall p :: p in p2 ==> p2[p] == if First(s) <= p < Last(s) then Tightened(s, p) else p1[p]
    ensures PermsHold(p2, segs + [s])
  {
    hide First, Last, Tightened;
    assert forall p :: p in p1 <==> p in p0 || First(s) <= p < Last(s);
    assert (segs + [s])[..|segs|] == segs;
  }

  /** The memory after the pages were mapped (m1) and the file bytes copied (m2). */
  lemma MemStep(p0: map<int, Perm>, m0: map<int, Byte>, p1: map<int, Perm>, m1: map<int, Byte>, m2: map<int, Byte>,
                segs: seq<Segment>, s: Segment, file: seq<Byte>)
    requires Loadable(segs, file) && Loadable(segs + [s], file) && SegmentOk(s) && Readable(s, file)
    requires MemHolds(m0, segs, file) && PermsHold(p0, segs) && m2.Keys == m1.Keys
    requires forall a :: a in m0 <==> PageOf(a) in p0
    requires Grown(p0, m0, p1, m1)
    requires forall a :: a in m2 ==>
               m2[a] == if s.vaddr <= a < s.vaddr + s.filesz then file[s.offset + a - s.vaddr] else m1[a]
    ensures MemHolds(m2, segs + [s], file)
  {
    hide Mapped, PermAt, Image, PageOf;
    ImageOutside(segs, file);
    ImageStep(segs, s, file);
  }

  /** A disjoint segment is only ever copied through writable pages. */
  lemma NotDenied(p0: map<int, Perm>, m0: map<int, Byte>, p1: map<int, Perm>, m1: map<int, Byte>, segs: seq<Segment>, s: Segment)
    requires PermsHold(p0, segs) && Clear(segs, s)
    requires Grown(p0, m0, p1, m1)
    ensures forall a :: s.vaddr <= a < s.vaddr + s.filesz && PageOf(a) in p1 ==> p1[PageOf(a)].write
  {
    hide Mapped, PermAt, PageOf;
    WritableBefore(segs, s);
  }

  lemma ImageStep(segs: seq<Segment>, s: Segment, file: seq<Byte>)
    requires Loadable(segs, file) && Loadable(segs + [s], file) && Readable(s, file)
    ensures forall a ::
              Image(segs + [s], file, a) == if s.vaddr <= a < s.vaddr + s.filesz then file[s.offset + a - s.vaddr] else Image(segs, file, a)
  {
    assert (segs + [s])[..|segs|] == segs;
  }

  /** Outside the mapped pages the image is zero. */
  lemma {:induction false} ImageOutside(segs: seq<Segment>, file: seq<Byte>)
    requires Loadable(segs, file)
    ensures forall a :: !Mapped(segs, PageOf(a)) ==> Image(segs, file, a) == 0
  {
    if segs != [] {
      var t := segs[|segs| - 1];
      assert SegmentOk(t);
      ImageOutside(segs[..|segs| - 1], file);
    }
  }

  /** Where a disjoint segment has bytes on a page mapped before it, that page is still writable: the
      segment that tightened it begins or ends inside the page. */
  lemma {:induction false} WritableBefore(segs: seq<Segment>, s: Segment)
    requires Clear(segs, s)
    ensures forall a :: s.vaddr <= a < s.vaddr + s.memsz && Mapped(segs, PageOf(a)) ==> PermAt(segs, PageOf(a)).write
  {
    if segs != [] {
      var t := segs[|segs| - 1];
      WritableBefore(segs[..|segs| - 1], s);
      forall a | s.vaddr <= a < s.vaddr + s.memsz && Mapped(segs, PageOf(a)) ensures PermAt(segs, PageOf(a)).write {
        if First(t) <= PageOf(a) < Last(t) { EdgeWritable(t, a); }
      }
    }
  }

  /** A page that a segment ranges over but does not fill is one of its edges. */
  lemma EdgeWritable(t: Segment, a: int)
    requires SegmentOk(t) && First(t) <= PageOf(a) < Last(t) && (a < t.vaddr || t.vaddr + t.memsz <= a)
    ensures Tightened(t, PageOf(a)).write
  {}

  /** Each segment of a disjoint set holds its file bytes and then zeros, shared pages or not. */
  lemma {:induction false} SegmentImage(segs: seq<Segment>, file: seq<Byte>, i: nat, k: nat)
    requires Disjoint(segs) && Loadable(segs, file) && i < |segs| && k < segs[i].memsz
    ensures Mapped(segs, PageOf(segs[i].vaddr + k))
    ensures Image(segs, file, segs[i].vaddr + k) == if k < segs[i].filesz then file[segs[i].offset + k] else 0
  {
    var n := |segs| - 1;
    var rest, t := segs[..n], segs[n];
    if i < n {
      assert Apart(segs[i], t) && SegmentOk(t);
      SegmentImage(rest, file, i, k);
    } else {
      assert SegmentOk(t);
      if k >= t.filesz { OthersZero(rest, file, t, t.vaddr + k); }
    }
  }

  /** Nothing before a disjoint segment put a byte where it lies. */
  lemma {:induction false} OthersZero(segs: seq<Segment>, file: seq<Byte>, s: Segment, a: int)
    requires Loadable(segs, file) && (forall i :: 0 <= i < |segs| ==> Apart(segs[i], s)) && s.vaddr <= a < s.vaddr + s.memsz
    ensures Image(segs, file, a) == 0
  {
    if segs != [] {
      var t := segs[|segs| - 1];
      assert SegmentOk(t) && Apart(t, s);
      OthersZero(segs[..|segs| - 1], file, s, a);
    }
  }

  /** A page with bytes of a writable segment stays writable. */
  lemma {:induction false} WriteKept(segs: seq<Segment>, i: nat, a: int)
    requires Disjoint(segs) && i < |segs| && segs[i].write && segs[i].vaddr <= a < segs[i].vaddr + segs[i].memsz
    ensures Mapped(segs, PageOf(a)) && PermAt(segs, PageOf(a)).write
  {
    var n := |segs| - 1;
    var rest, t := segs[..n], segs[n];
    assert SegmentOk(t);
    if i < n {
      assert Apart(segs[i], t);
      WriteKept(rest, i, a);
      if First(t) <= PageOf(a) < Last(t) { EdgeWritable(t, a); }
    }
  }

  predicate Fills(s: Segment, p: int) { s.vaddr <= PAGE * p && PAGE * (p + 1) <= s.vaddr + s.memsz }

  /** A segment without memory, at an address inside the page. */
  predicate Intrudes(s: Segment, p: int) { s.memsz == 0 && PageOf(s.vaddr) == p && s.vaddr % PAGE != 0 }

  /** A page one segment fills has exactly its header's permissions, unless a later PT_LOAD header
      with no memory points inside the page. */
  lemma {:induction false} FilledPage(segs: seq<Segment>, i: nat, p: int)
    requires Disjoint(segs) && i < |segs| && Fills(segs[i], p)
    requires forall j :: i < j < |segs| ==> !Intrudes(segs[j], p)
    ensures Mapped(segs, p) && PermAt(segs, p) == Perm(segs[i].write, segs[i].exec)
  {
    var n := |segs| - 1;
    var rest, t := segs[..n], segs[n];
    assert SegmentOk(t);
    if i < n {
      FilledPage(rest, i, p);
      assert Apart(segs[i], t);
      NotRanged(segs[i], t, p);
    }
  }

  lemma NotRanged(s: Segment, t: Segment, p: int)
    requires SegmentOk(s) && SegmentOk(t) && Fills(s, p) && Apart(s, t)
    ensures First(t) <= p < Last(t) <==> Intrudes(t, p)
  {}

  /** Such a header leaves the page writable and takes over its exec bit: the claim above is exact. */
  lemma {:induction false} IntrudedPage(segs: seq<Segment>, i: nat, j: nat, p: int)
    requires Disjoint(segs) && i < j < |segs| && Fills(segs[i], p) && Intrudes(segs[j], p)
    requires forall k :: j < k < |segs| ==> !Intrudes(segs[k], p)
    ensures Mapped(segs, p) && PermAt(segs, p) == Perm(true, segs[j].exec)
  {
    var n := |segs| - 1;
    var rest, t := segs[..n], segs[n];
    assert SegmentOk(t) && SegmentOk(segs[i]);
    assert Apart(segs[i], t);
    NotRanged(segs[i], t, p);
    if j < n { IntrudedPage(rest, i, j, p); }
  }
}
