/** The PT_LOAD loop of the ELF64 loader: map, copy, tighten, against the image it has to leave. */
module ElfLoader {
  import opened Basics
  import opened ElfImage
  import opened ElfHeaders

  class Loader {
    var perms: map<int, Perm>
    var mem: map<int, Byte>
    /** Frames the allocator still has. */
    var frames: nat
    /** Some copy went through a page mapped without write. */
    ghost var denied: bool

    /** An empty user address space. */
    constructor (frames: nat)
      ensures perms == map[] && mem == map[] && this.frames == frames && !denied
    {
      perms, mem := map[], map[];
      this.frames := frames;
      denied := false;
    }

    /** Every byte of a mapped page is there, and no other. */
    ghost predicate Backed()
      reads this`perms, this`mem
    {
      forall a :: a in mem <==> PageOf(a) in perms
    }

    /** The space is what the segments loaded so far make it. */
    ghost predicate Holds(segs: seq<Segment>, file: seq<Byte>)
      reads this
    {
      Backed() && Loadable(segs, file) && PermsHold(perms, segs) && MemHolds(mem, segs, file)
    }

    /** First pass: map what is not mapped, readable and writable and zeroed. It succeeds exactly when
        the frames last for the missing pages, and takes one for each. */
    method MapPages(s: Segment) returns (ok: bool)
      requires Backed()
      modifies this`perms, this`mem, this`frames
      ensures Backed()
      ensures ok <==> Missing(s, old(perms).Keys) <= old(frames)
      ensures ok ==> perms.Keys == old(perms).Keys + Range(s) && frames == old(frames) - Missing(s, old(perms).Keys)
      ensures Grown(old(perms), old(mem), perms, mem)
    {
      hide Backed, Grown, First, Last, Range, Below, Missing, MissingBelow;
      ghost var p0, m0, had := perms, mem, perms.Keys;
      var p := First(s);
      BelowEnds(s, p, had);
      GrownNone(p0, m0);
      while p < Last(s)
        invariant Backed() && First(s) <= p && Grown(p0, m0, perms, mem) && perms.Keys == had + Below(s, p)
        invariant frames + MissingBelow(s, p, had) == old(frames)
      {
        BelowStep(s, p, had);
        if p !in perms {
          if frames == 0 { return false; }
          frames := frames - 1;
          ghost var p1, m1 := perms, mem;
          NewPage(p);
          GrownStep(p0, m0, p1, m1, perms, mem);
        }
        p := p + 1;
      }
      BelowEnds(s, p, had);
      ok := true;
    }

    method NewPage(p: int)
      requires Backed() && p !in perms
      modifies this`perms, this`mem
      ensures Backed()
      ensures perms.Keys == old(perms).Keys + {p} && Grown(old(perms), old(mem), perms, mem)
    {
      var zero: map<int, Byte> := map a: int | PAGE * p <= a < PAGE * (p + 1) && PageOf(a) == p :: 0;
      mem := mem + zero;
      perms := perms[p := Perm(true, false)];
    }

    /** read_fs into the mapped pages. A short read is a failure. */
    method Copy(s: Segment, file: seq<Byte>) returns (ok: bool)
      requires SegmentOk(s) && Backed() && Range(s) <= perms.Keys
      modifies this`mem, this`denied
      ensures Backed() && mem.Keys == old(mem).Keys
      ensures ok <==> Readable(s, file)
      ensures ok ==> forall a :: a in mem ==>
                mem[a] == if s.vaddr <= a < s.vaddr + s.filesz && Readable(s, file) then file[s.offset + a - s.vaddr] else old(mem)[a]
      ensures denied <==> old(denied) || exists a :: s.vaddr <= a < s.vaddr + s.filesz && PageOf(a) in perms && !perms[PageOf(a)].write
    {
      hide PageOf, First, Last, Range;
      denied := denied || exists a :: s.vaddr <= a < s.vaddr + s.filesz && PageOf(a) in perms && !perms[PageOf(a)].write;
      ok := s.filesz == 0 || s.offset + s.filesz <= |file|;
      if ok && s.filesz > 0 {
        mem := map a | a in mem :: if s.vaddr <= a < s.vaddr + s.filesz then file[s.offset + a - s.vaddr] else mem[a];
      }
    }

    /** Second pass: every page of the segment gets its final permissions. */
    method Tighten(s: Segment)
      requires Backed() && Range(s) <= perms.Keys
      modifies this`perms
      ensures Backed() && perms.Keys == old(perms).Keys
      ensures forall p :: p in perms ==> perms[p] == if First(s) <= p < Last(s) then Tightened(s, p) else old(perms)[p]
    {
      var p := First(s);
      while p < Last(s)
        invariant First(s) <= p && (p <= Last(s) || p == First(s)) && perms.Keys == old(perms).Keys
        invariant forall q :: q in perms ==> perms[q] == if First(s) <= q < p then Tightened(s, q) else old(perms)[q]
      {
        perms := perms[p := Tightened(s, p)];
        p := p + 1;
      }
    }

    /** One PT_LOAD segment that passed the checks. */
    method LoadSegment(s: Segment, file: seq<Byte>, ghost segs: seq<Segment>) returns (ok: bool)
      requires SegmentOk(s) && Holds(segs, file)
      modifies this
      ensures ok <==> Readable(s, file) && |Pages(segs + [s])| <= old(frames) + |Pages(segs)|
      ensures ok ==> Holds(segs + [s], file) && frames + |Pages(segs + [s])| == old(frames) + |Pages(segs)|
      ensures ok && Clear(segs, s) && !old(denied) ==> !denied
    {
      hide Mapped, PermAt, Image, Tightened, Clear, First, Last, PageOf, MemHolds, Loadable, Range, Pages, Grown, Missing, PermsHold;
      ghost var m0, p0 := mem, perms;
      PagesStep(segs, s);
      KeysArePages(p0, segs);
      ok := MapPages(s);
      if !ok { return; }
      ghost var m1, p1 := mem, perms;
      ok := Copy(s, file);
      if !ok { return; }
      ghost var m2 := mem;
      Tighten(s);
      LoadStep(segs, s, file);
      MemStep(p0, m0, p1, m1, m2, segs, s, file);
      PermsStep(p0, m0, p1, m1, perms, segs, s);
      if Clear(segs, s) { NotDenied(p0, m0, p1, m1, segs, s); }
    }

    /** The loop over the program headers: it succeeds exactly when every header is accepted, the file
        holds every segment's bytes and the frames last for the pages of all of them. */
    method Load(headers: seq<Header>, base: U64, file: seq<Byte>) returns (ok: bool, end: int)
      requires perms == map[] && mem == map[] && !denied
      modifies this
      ensures ok <==> Fits(headers, base, file, old(frames))
      ensures ok ==> Holds(Segments(headers, base), file) && end == ImageEnd(Segments(headers, base))
      ensures ok ==> frames == old(frames) - |Pages(Segments(headers, base))|
      ensures ok && Separate(headers, base) ==>
                !denied && forall i :: 0 <= i < |headers| && headers[i].load ==> InPlace(headers[i], base, file)
    {
      hide Backed, PermsHold, MemHolds, Loadable, Clear, Disjoint, Segments, ImageEnd, Check, SegmentOk, Pages, Readable, Accepted;
      ghost var segs: seq<Segment> := [];
      end := 0;
      assert Holds(segs, file) by { EmptyHolds(file); }
      NoSegments(headers, base);
      for i := 0 to |headers|
        invariant Accepted(headers[..i], base) && segs == Segments(headers[..i], base)
        invariant Holds(segs, file) && end == ImageEnd(segs) && frames + |Pages(segs)| == old(frames)
        invariant Disjoint(segs) ==> !denied
      {
        var h := headers[i];
        if h.Unreadable? {
          Rejected(headers, base, file, old(frames), i);
          return false, 0;
        }
        if h.load {
          var c := Check(h, base);
          if !c.0 {
            Rejected(headers, base, file, old(frames), i);
            return false, 0;
          }
          var s := c.1;
          DisjointPrefix(segs, s);
          EndStep(segs, s);
          SegmentsStep(headers, i, base);
          var done := LoadSegment(s, file, segs);
          if !done {
            Unfit(headers, base, file, old(frames), i);
            return false, 0;
          }
          segs := segs + [s];
          end := if s.vaddr + s.memsz > end then s.vaddr + s.memsz else end;
        } else {
          SegmentsStep(headers, i, base);
        }
      }
      assert headers[..|headers|] == headers;
      assert Loadable(segs, file);
      if Separate(headers, base) { AllInPlace(headers, base, file); }
      ok := true;
    }

    /** The header's bytes of the file are at its address, and zeros behind them. */
    ghost predicate InPlace(h: Header, base: U64, file: seq<Byte>)
      reads this
      requires h.Phdr?
    {
      forall k :: 0 <= k < h.memsz ==> ByteInPlace(h, Address(h, base), file, k)
    }

    ghost predicate ByteInPlace(h: Header, at: int, file: seq<Byte>, k: nat)
      reads this
      requires h.Phdr?
    {
      && at + k in mem && (k < h.filesz ==> h.offset + k < |file|)
      && mem[at + k] == if k < h.filesz then file[h.offset + k] else 0
    }

    lemma AllInPlace(headers: seq<Header>, base: U64, file: seq<Byte>)
      requires Accepted(headers, base) && Separate(headers, base) && Holds(Segments(headers, base), file)
      ensures Disjoint(Segments(headers, base))
      ensures forall i :: 0 <= i < |headers| && headers[i].load ==> InPlace(headers[i], base, file)
    {
      hide Check, Address, Holds, InPlace;
      SeparateSegments(headers, base);
      forall i | 0 <= i < |headers| && headers[i].load ensures InPlace(headers[i], base, file) {
        OneInPlace(headers, base, file, i);
      }
    }

    lemma OneInPlace(headers: seq<Header>, base: U64, file: seq<Byte>, i: nat)
      requires Accepted(headers, base) && Separate(headers, base) && Holds(Segments(headers, base), file)
      requires i < |headers| && headers[i].load
      ensures InPlace(headers[i], base, file)
    {
      hide Check, Address, Holds, Separate, ByteInPlace;
      forall k | 0 <= k < headers[i].memsz ensures ByteInPlace(headers[i], Address(headers[i], base), file, k) {
        ByteLoaded(headers, base, file, i, k);
      }
    }

    lemma ByteLoaded(headers: seq<Header>, base: U64, file: seq<Byte>, i: nat, k: nat)
      requires Accepted(headers, base) && Separate(headers, base) && Holds(Segments(headers, base), file)
      requires i < |headers| && headers[i].load && k < headers[i].memsz
      ensures ByteInPlace(headers[i], Address(headers[i], base), file, k)
    {
      hide Check, Address, Image, Mapped, PermAt, Separate, Loadable;
      HeaderImage(headers, base, file, i, k);
      assert PageOf(Address(headers[i], base) + k) in perms;
    }

    lemma EmptyHolds(file: seq<Byte>)
      requires perms == map[] && mem == map[]
      ensures Holds([], file)
    {}
  }
}
