/** What the loader promises in terms of the program headers themselves: which are accepted, what each
    PT_LOAD header puts into memory, and which permissions its pages get. */
module ElfHeaders {
  import opened Basics
  import opened ElfImage

  /** Where a header's segment goes. */
  function Address(h: Header, base: U64): int
    requires h.Phdr?
  {
    (h.vaddr as int + base as int) % 0x1_0000_0000_0000_0000
  }

  /** A header passes the checks exactly when its sizes are in order and 32 bits hold its place in the file,
      and the segment lies in user space, without wrapping around. */
  lemma CheckMeans(h: Header, base: U64)
    requires h.Phdr?
    ensures Check(h, base).0 <==>
              && h.filesz <= h.memsz && h.offset <= 0xFFFF_FFFF && h.filesz <= 0xFFFF_FFFF
              && 0x2_0000_0000 <= Address(h, base) && Address(h, base) + h.memsz < 0x8000_0000_0000
    ensures Check(h, base).1 == Segment(h.write, h.exec, h.offset, Address(h, base), h.filesz, h.memsz)
  {}

  lemma AcceptedMeans(headers: seq<Header>, base: U64)
    ensures Accepted(headers, base) <==>
              forall i :: 0 <= i < |headers| ==>
                headers[i].Phdr? && (headers[i].load ==>
                  && headers[i].filesz <= headers[i].memsz && headers[i].offset <= 0xFFFF_FFFF && headers[i].filesz <= 0xFFFF_FFFF
                  && 0x2_0000_0000 <= Address(headers[i], base) && Address(headers[i], base) + headers[i].memsz < 0x8000_0000_0000)
  {
    hide Check, Address;
    forall i | 0 <= i < |headers| && headers[i].Phdr?
      ensures Check(headers[i], base).0 <==>
                && headers[i].filesz <= headers[i].memsz && headers[i].offset <= 0xFFFF_FFFF && headers[i].filesz <= 0xFFFF_FFFF
                && 0x2_0000_0000 <= Address(headers[i], base) && Address(headers[i], base) + headers[i].memsz < 0x8000_0000_0000
    {
      CheckMeans(headers[i], base);
    }
  }

  /** How many of the first n headers are PT_LOAD. */
  function Loads(headers: seq<Header>, n: nat): nat
    requires n <= |headers|
  {
    if n == 0 then 0 else Loads(headers, n - 1) + if headers[n - 1].Phdr? && headers[n - 1].load then 1 else 0
  }

  /** The segment of the k-th PT_LOAD header is the k-th, with the header's own flags, offset and sizes. */
  lemma {:induction false} SegmentOf(headers: seq<Header>, base: U64, i: nat)
    requires Accepted(headers, base) && i < |headers| && headers[i].load
    ensures Loads(headers, i) < |Segments(headers, base)| == Loads(headers, |headers|)
    ensures var h := headers[i];
            Segments(headers, base)[Loads(headers, i)] == Segment(h.write, h.exec, h.offset, Address(h, base), h.filesz, h.memsz)
  {
    var n := |headers| - 1;
    SegmentCount(headers, base);
    CheckMeans(headers[i], base);
    hide Check, Address;
    LoadsPrefix(headers, n, i);
    if i < n {
      SegmentOf(headers[..n], base, i);
    } else {
      SegmentCount(headers[..n], base);
      LoadsPrefix(headers, n, n);
    }
  }

  lemma {:induction false} SegmentCount(headers: seq<Header>, base: U64)
    requires Accepted(headers, base)
    ensures |Segments(headers, base)| == Loads(headers, |headers|)
  {
    hide Check;
    if headers != [] {
      var n := |headers| - 1;
      SegmentCount(headers[..n], base);
      LoadsPrefix(headers, n, n);
    }
  }

  lemma {:induction false} LoadsPrefix(headers: seq<Header>, n: nat, i: nat)
    requires i <= n <= |headers|
    ensures Loads(headers[..n], i) == Loads(headers, i)
  {
    if i > 0 { LoadsPrefix(headers, n, i - 1); }
  }

  /** Later headers have later segments. */
  lemma {:induction false} LoadsGrow(headers: seq<Header>, i: nat, j: nat)
    requires i <= j <= |headers|
    ensures Loads(headers, i) <= Loads(headers, j)
    ensures i < j && headers[i].Phdr? && headers[i].load ==> Loads(headers, i) < Loads(headers, j)
    decreases j - i
  {
    if i < j { LoadsGrow(headers, i, j - 1); }
  }

  /** Every segment comes from a header. */
  lemma {:induction false} HeaderOf(headers: seq<Header>, base: U64, k: nat) returns (i: nat)
    requires Accepted(headers, base) && k < |Segments(headers, base)|
    ensures i < |headers| && headers[i].load && Loads(headers, i) == k
  {
    hide Check;
    var n := |headers| - 1;
    SegmentCount(headers, base);
    SegmentCount(headers[..n], base);
    LoadsPrefix(headers, n, n);
    if k < Loads(headers, n) {
      i := HeaderOf(headers[..n], base, k);
      LoadsPrefix(headers, n, i);
    } else {
      i := n;
    }
  }

  /** The pages a segment ranges over: those that hold a byte of it, and for one without memory the page
      its address points inside. */
  lemma RangeMeans(s: Segment, p: int)
    requires SegmentOk(s)
    ensures First(s) <= p < Last(s) <==>
              (exists a :: s.vaddr <= a < s.vaddr + s.memsz && a / 4096 == p)
              || (s.memsz == 0 && s.vaddr / 4096 == p && s.vaddr % 4096 != 0)
  {
    if First(s) <= p < Last(s) && s.memsz > 0 {
      var a := if p == First(s) then s.vaddr else 4096 * p;
      assert s.vaddr <= a < s.vaddr + s.memsz && a / 4096 == p;
    }
  }

  /** What a segment makes of a page it ranges over: its exec bit, and write if the header says so or the
      segment does not fill the page. */
  lemma TightenedMeans(s: Segment, p: int)
    requires SegmentOk(s) && First(s) <= p < Last(s)
    ensures Tightened(s, p) == Perm(s.write || !(s.vaddr <= 4096 * p && 4096 * (p + 1) <= s.vaddr + s.memsz), s.exec)
  {}

  /** The last segment to range over a page decides: so also of its exec bit. */
  lemma {:induction false} LastDecides(segs: seq<Segment>, i: nat, p: int)
    requires i < |segs| && First(segs[i]) <= p < Last(segs[i])
    requires forall j :: i < j < |segs| ==> !(First(segs[j]) <= p < Last(segs[j]))
    ensures Mapped(segs, p) && PermAt(segs, p) == Tightened(segs[i], p)
  {
    hide First, Last, Tightened;
    var n := |segs| - 1;
    if i < n {
      assert forall j :: i < j < n ==> segs[..n][j] == segs[j];
      LastDecides(segs[..n], i, p);
    }
  }

  /** No byte belongs to two PT_LOAD headers. */
  ghost predicate Separate(headers: seq<Header>, base: U64) {
    forall i, j :: 0 <= i < j < |headers| && headers[i].Phdr? && headers[j].Phdr? && headers[i].load && headers[j].load ==>
      var h, k := headers[i], headers[j];
      h.memsz == 0 || k.memsz == 0
      || Address(h, base) + h.memsz <= Address(k, base) || Address(k, base) + k.memsz <= Address(h, base)
  }

  lemma SeparateSegments(headers: seq<Header>, base: U64)
    requires Accepted(headers, base) && Separate(headers, base)
    ensures Disjoint(Segments(headers, base))
  {
    hide Check, Address;
    var segs := Segments(headers, base);
    forall k | 0 <= k < |segs| ensures SegmentOk(segs[k]) { SegmentFits(headers, base, k); }
    forall k, l | 0 <= k < l < |segs| ensures Apart(segs[k], segs[l]) {
      var i := HeaderOf(headers, base, k);
      var j := HeaderOf(headers, base, l);
      if j <= i { LoadsGrow(headers, j, i); }
      SegmentOf(headers, base, i);
      SegmentOf(headers, base, j);
    }
  }

  lemma SegmentFits(headers: seq<Header>, base: U64, k: nat)
    requires Accepted(headers, base) && k < |Segments(headers, base)|
    ensures SegmentOk(Segments(headers, base)[k])
  {
    var i := HeaderOf(headers, base, k);
    SegmentOf(headers, base, i);
    CheckMeans(headers[i], base);
  }

  /** What a PT_LOAD header puts into memory: its bytes of the file, then zeros. */
  lemma HeaderImage(headers: seq<Header>, base: U64, file: seq<Byte>, i: nat, k: nat)
    requires Accepted(headers, base) && Separate(headers, base) && Loadable(Segments(headers, base), file)
    requires i < |headers| && headers[i].load && k < headers[i].memsz
    ensures var h := headers[i]; var segs := Segments(headers, base);
            && Mapped(segs, (Address(h, base) + k) / 4096)
            && (k < h.filesz ==> h.offset + k < |file|)
            && Image(segs, file, Address(h, base) + k) == if k < h.filesz then file[h.offset + k] else 0
  {
    hide Check, Address, Image, Mapped;
    SegmentOf(headers, base, i);
    SeparateSegments(headers, base);
    var segs := Segments(headers, base);
    assert Readable(segs[Loads(headers, i)], file);
    SegmentImage(segs, file, Loads(headers, i), k);
  }

  /** A page with bytes of a writable header is writable. */
  lemma HeaderWritable(headers: seq<Header>, base: U64, i: nat, k: nat)
    requires Accepted(headers, base) && Separate(headers, base)
    requires i < |headers| && headers[i].load && headers[i].write && k < headers[i].memsz
    ensures var segs := Segments(headers, base); var p := (Address(headers[i], base) + k) / 4096;
            Mapped(segs, p) && PermAt(segs, p).write
  {
    hide Check, Address, PermAt, Mapped;
    SegmentOf(headers, base, i);
    SeparateSegments(headers, base);
    WriteKept(Segments(headers, base), Loads(headers, i), Address(headers[i], base) + k);
  }

  /** A page that a header's segment fills has exactly the header's permissions, unless a later PT_LOAD header
      without memory points inside it. */
  lemma HeaderFills(headers: seq<Header>, base: U64, i: nat, p: int)
    requires Accepted(headers, base) && Separate(headers, base) && i < |headers| && headers[i].load
    requires Address(headers[i], base) <= 4096 * p && 4096 * (p + 1) <= Address(headers[i], base) + headers[i].memsz
    requires forall j :: i < j < |headers| && headers[j].load && headers[j].memsz == 0 ==>
               !(Address(headers[j], base) / 4096 == p && Address(headers[j], base) % 4096 != 0)
    ensures Mapped(Segments(headers, base), p)
    ensures PermAt(Segments(headers, base), p) == Perm(headers[i].write, headers[i].exec)
  {
    hide Check, Address, PermAt, Mapped;
    var segs := Segments(headers, base);
    SegmentOf(headers, base, i);
    SeparateSegments(headers, base);
    forall l | Loads(headers, i) < l < |segs| ensures !Intrudes(segs[l], p) {
      var j := HeaderOf(headers, base, l);
      if j <= i { LoadsGrow(headers, j, i); }
      SegmentOf(headers, base, j);
    }
    FilledPage(segs, Loads(headers, i), p);
  }

  /** The last PT_LOAD header to range over a page gives it its exec bit, whether or not it fills it. */
  lemma HeaderExec(headers: seq<Header>, base: U64, i: nat, p: int)
    requires Accepted(headers, base) && i < |headers| && headers[i].load && Over(headers[i], base, p)
    requires forall j :: i < j < |headers| && headers[j].load ==> !Over(headers[j], base, p)
    ensures Mapped(Segments(headers, base), p) && PermAt(Segments(headers, base), p).exec == headers[i].exec
  {
    hide Check, Address, PermAt, Mapped, First, Last, Over;
    var segs := Segments(headers, base);
    SegmentOf(headers, base, i);
    SegmentFits(headers, base, Loads(headers, i));
    OverRange(headers[i], base, segs[Loads(headers, i)], p);
    forall l | Loads(headers, i) < l < |segs| ensures !(First(segs[l]) <= p < Last(segs[l])) {
      var j := HeaderOf(headers, base, l);
      if j <= i { LoadsGrow(headers, j, i); }
      SegmentOf(headers, base, j);
      SegmentFits(headers, base, l);
      OverRange(headers[j], base, segs[l], p);
    }
    LastDecides(segs, Loads(headers, i), p);
    TightenedMeans(segs[Loads(headers, i)], p);
  }

  /** The header has a byte on the page, or has no memory and points inside it. */
  ghost predicate Over(h: Header, base: U64, p: int)
    requires h.Phdr?
  {
    || (exists a :: Address(h, base) <= a < Address(h, base) + h.memsz && a / 4096 == p)
    || (h.memsz == 0 && Address(h, base) / 4096 == p && Address(h, base) % 4096 != 0)
  }

  lemma OverRange(h: Header, base: U64, s: Segment, p: int)
    requires h.Phdr? && SegmentOk(s) && s.vaddr == Address(h, base) && s.memsz == h.memsz
    ensures Over(h, base, p) <==> First(s) <= p < Last(s)
  {
    RangeMeans(s, p);
  }
}
