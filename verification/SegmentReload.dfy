/** Segments through a file: load_segments knows nothing of the section lists that layout worked
    with and goes by file offsets and addresses. Which sections it finds, and when it finds those
    the segment had. */
module SegmentReload {
  import opened Arith
  import opened Bytes
  import opened ElfTypes
  import opened Options
  import Layout
  import LayoutSafety
  import LayoutSteps
  import LayoutExact
  import LayoutContainment
  import LayoutMemory
  import LayoutAddresses
  import LayoutAlignment
  import LayoutRelative
  import opened Streams
  import opened ElfSection
  import opened ElfSegment
  import opened SaveLoad

  /** The program headers, flags and addresses of o are those of a finished layout. */
  predicate SegmentsFrom(o: Object, r: Layout.Result) {
    && |o.phdrs| == |r.segs| && |o.sects| == |r.cur.secs|
    && (forall i :: 0 <= i < |r.segs| ==>
          && o.phdrs[i].offset == r.segs[i].offset && o.phdrs[i].filesz == r.segs[i].filesz
          && o.phdrs[i].vaddr == r.segs[i].vaddr && o.phdrs[i].memsz == r.segs[i].memsz)
    && (forall x :: 0 <= x < |o.sects| ==>
          && o.sects[x].header.flags == r.cur.secs[x].flags && o.sects[x].header.addr == r.cur.secs[x].addr
          && o.sects[x].header.offset == r.cur.secs[x].offset && o.sects[x].header.size == r.cur.secs[x].size)
  }

  function HeadersOf(o: Object): (hs: seq<Shdr>)
    ensures |hs| == |o.sects|
  {
    seq(|o.sects|, i requires 0 <= i < |o.sects| => o.sects[i].header)
  }

  /** What load finds in segment i. */
  function Found(o: Object, i: nat): seq<nat>
    requires i < |o.phdrs|
  {
    Members(HeadersOf(o), o.phdrs[i])
  }

  lemma HeaderAt(o: Object, x: nat)
    requires x < |o.sects|
    ensures HeadersOf(o)[x] == o.sects[x].header
  {}

  // ---------------------------------------------------------------- exactly which sections

  /** The section's place in the file lies in the segment's part of it. */
  predicate InFilePart(g: Layout.Seg, s: Layout.Sec) {
    g.offset <= s.offset && s.offset + s.size <= g.offset + g.filesz && s.offset < g.offset + g.filesz
  }

  /** No end of a section or a segment wraps. */
  predicate NoWrap(g: Layout.Seg, s: Layout.Sec) {
    && s.addr + s.size < M64 && g.vaddr + g.memsz < M64
    && s.offset + s.size < M64 && g.offset + g.filesz < M64
  }

  lemma FoundInside(o: Object, r: Layout.Result, i: nat, x: nat)
    requires SegmentsFrom(o, r) && i < |r.segs| && x < |r.cur.secs|
    requires if Alloc(r.cur.secs[x].flags) then r.segs[i].vaddr + r.segs[i].memsz < M64 && LayoutAddresses.InMemory(r.segs[i], r.cur.secs[x])
             else r.segs[i].offset + r.segs[i].filesz < M64 && InFilePart(r.segs[i], r.cur.secs[x])
    ensures x in Found(o, i)
  {
    hide Alloc;
    MembersExact(HeadersOf(o), o.phdrs[i]);
    HeaderAt(o, x);
  }

  lemma OutsideLost(o: Object, r: Layout.Result, i: nat, x: nat)
    requires SegmentsFrom(o, r) && i < |r.segs| && x < |r.cur.secs| && Alloc(r.cur.secs[x].flags)
    requires r.cur.secs[x].addr + r.cur.secs[x].size < M64 && r.segs[i].vaddr + r.segs[i].memsz < M64
    requires !LayoutAddresses.InMemory(r.segs[i], r.cur.secs[x])
    ensures x !in Found(o, i)
  {
    hide Alloc;
    MembersExact(HeadersOf(o), o.phdrs[i]);
    HeaderAt(o, x);
  }

  lemma OutsidePartLost(o: Object, r: Layout.Result, i: nat, x: nat)
    requires SegmentsFrom(o, r) && i < |r.segs| && x < |r.cur.secs| && !Alloc(r.cur.secs[x].flags)
    requires r.cur.secs[x].offset + r.cur.secs[x].size < M64 && r.segs[i].offset + r.segs[i].filesz < M64
    requires !InFilePart(r.segs[i], r.cur.secs[x])
    ensures x !in Found(o, i)
  {
    hide Alloc;
    MembersExact(HeadersOf(o), o.phdrs[i]);
    HeaderAt(o, x);
  }

  /** Whatever the lists were: load finds in a segment exactly the SHF_ALLOC sections that lie in
      its memory, and the others that lie in its part of the file. */
  lemma FoundExactly(o: Object, r: Layout.Result, i: nat, x: nat)
    requires SegmentsFrom(o, r) && i < |r.segs| && x < |r.cur.secs| && NoWrap(r.segs[i], r.cur.secs[x])
    ensures x in Found(o, i) <==>
              if Alloc(r.cur.secs[x].flags) then LayoutAddresses.InMemory(r.segs[i], r.cur.secs[x])
              else InFilePart(r.segs[i], r.cur.secs[x])
  {
    hide Alloc, Found, SegmentsFrom, InFilePart, LayoutAddresses.InMemory;
    var g, s := r.segs[i], r.cur.secs[x];
    if if Alloc(s.flags) then LayoutAddresses.InMemory(g, s) else InFilePart(g, s) {
      FoundInside(o, r, i, x);
    } else if Alloc(s.flags) {
      OutsideLost(o, r, i, x);
    } else {
      OutsidePartLost(o, r, i, x);
    }
  }

  // ---------------------------------------------------------------- the sections of a segment

  /** A nonempty section with bytes in the file and no SHF_ALLOC is found again, in a segment that
      encloses its file-backed sections (EnclosedExactly says which do). */
  ghost predicate ByOffset(h: Layout.Head, segs: seq<Layout.Seg>, order: seq<nat>, secs: seq<Layout.Sec>, pos: nat, q: nat, x: nat)
    requires LayoutSteps.Laid(h, segs, order, secs, pos) && q < |order|
  {
    && x in segs[order[q]].secs && x < |secs| && Layout.InFile(secs[x]) && !Alloc(secs[x].flags) && secs[x].size > 0
    && (LayoutSteps.FirstToPlace(segs, order, secs, q) ==>
          LayoutContainment.Flush(LayoutExact.FreshAt(h, segs, order, secs, pos, q)))
  }

  lemma FoundByOffset(o: Object, h: Layout.Head, segs: seq<Layout.Seg>, order: seq<nat>, secs: seq<Layout.Sec>, q: nat, x: nat)
    requires LayoutSteps.Laid(h, segs, order, secs, o.HeadersEnd()) && q < |order| && LayoutSteps.Nesting(segs, order)
    requires var r := Layout.LayoutAll(h, segs, order, secs, o.HeadersEnd()); r.shoff < h.m <= M64 && SegmentsFrom(o, r)
    requires ByOffset(h, segs, order, secs, o.HeadersEnd(), q, x)
    ensures |o.phdrs| == |segs| && x in Found(o, order[q])
  {
    hide Layout.LayoutAll, LayoutSteps.Laid, LayoutSteps.Nesting, LayoutSteps.FirstToPlace, LayoutContainment.Flush, LayoutExact.FreshAt,
         Alloc, Object.HeadersEnd, Found;
    LayoutSteps.LaidInput(h, segs, order, secs, o.HeadersEnd());
    var r, pos := Layout.LayoutAll(h, segs, order, secs, o.HeadersEnd()), o.HeadersEnd();
    LayoutExact.TypesKept(h, segs, order, secs, pos);
    LayoutContainment.EnclosedExactly(h, segs, order, secs, pos, q);
    LayoutAddresses.AddressKept(h, segs, order, secs, pos, q);
    var k :| 0 <= k < |segs[order[q]].secs| && segs[order[q]].secs[k] == x;
    assert LayoutSteps.Real(secs, segs[order[q]].secs[k]);
    assert LayoutSafety.SameData(secs[x], r.cur.secs[x]);
    FoundInside(o, r, order[q], x);
  }

  /** A nonempty section that counts in the segment's memory is found again when its address follows
      its offset in a segment that places it, or when the segment is nested in such a one and has
      the address of its first section. */
  ghost predicate ByAddress(h: Layout.Head, segs: seq<Layout.Seg>, order: seq<nat>, secs: seq<Layout.Sec>, pos: nat, q: nat, x: nat)
    requires LayoutSteps.Laid(h, segs, order, secs, pos) && q < |order|
    requires |Layout.LayoutAll(h, segs, order, secs, pos).cur.secs| == |secs|
  {
    && LayoutContainment.HasReal(segs[order[q]], secs)
    && LayoutAddresses.Counted(segs[order[q]], secs, x)
    && LayoutAddresses.Whole(segs, order, secs, q) && LayoutAddresses.InRange(h, segs, order, secs, pos, q)
    && (|| (LayoutSteps.FirstToPlace(segs, order, secs, q) && LayoutAddresses.Follows(segs[order[q]], secs[x]))
        || exists p :: 0 <= p < |order| && FromOuter(h, segs, order, secs, pos, p, q, x))
  }

  ghost predicate FromOuter(h: Layout.Head, segs: seq<Layout.Seg>, order: seq<nat>, secs: seq<Layout.Sec>, pos: nat, p: nat, q: nat, x: nat)
    requires LayoutSteps.Laid(h, segs, order, secs, pos) && p < |order| && q < |order|
    requires |Layout.LayoutAll(h, segs, order, secs, pos).cur.secs| == |secs|
  {
    && LayoutContainment.HasReal(segs[order[p]], secs)
    && LayoutAddresses.Whole(segs, order, secs, p) && LayoutAddresses.InRange(h, segs, order, secs, pos, p)
    && LayoutAddresses.NestedAt(h, segs, order, secs, pos, p, q)
    && forall y :: y in {x, segs[order[q]].secs[0]} ==>
         LayoutAddresses.Counted(segs[order[p]], secs, y) && LayoutAddresses.Follows(segs[order[p]], secs[y])
  }

  lemma FoundByAddress(o: Object, h: Layout.Head, segs: seq<Layout.Seg>, order: seq<nat>, secs: seq<Layout.Sec>, q: nat, x: nat)
    requires LayoutSteps.Laid(h, segs, order, secs, o.HeadersEnd()) && q < |order| && LayoutSteps.Nesting(segs, order)
    requires var r := Layout.LayoutAll(h, segs, order, secs, o.HeadersEnd());
             r.shoff < h.m <= M64 && |r.cur.secs| == |secs| && SegmentsFrom(o, r)
    requires ByAddress(h, segs, order, secs, o.HeadersEnd(), q, x)
    ensures |o.phdrs| == |segs| && x in Found(o, order[q])
  {
    hide Layout.LayoutAll, LayoutSteps.Laid, LayoutSteps.Nesting, LayoutSteps.FirstToPlace, LayoutContainment.HasReal, Object.HeadersEnd, Found,
         LayoutAddresses.Whole, LayoutAddresses.InRange, LayoutAddresses.Follows, LayoutAddresses.NestedAt, LayoutAddresses.InMemory;
    LayoutSteps.LaidInput(h, segs, order, secs, o.HeadersEnd());
    var r, pos := Layout.LayoutAll(h, segs, order, secs, o.HeadersEnd()), o.HeadersEnd();
    LayoutAddresses.AddressKept(h, segs, order, secs, pos, q);
    if LayoutSteps.FirstToPlace(segs, order, secs, q) && LayoutAddresses.Follows(segs[order[q]], secs[x]) {
      LayoutAddresses.FollowsAligned(h, segs, order, secs, pos, q, x);
      LayoutAddresses.ConsistentInMemory(h, segs, order, secs, pos, q, x);
    } else {
      var p: nat :| 0 <= p < |order| && FromOuter(h, segs, order, secs, pos, p, q, x);
      LayoutAddresses.NestedInMemory(h, segs, order, secs, pos, p, q, x);
    }
    MemoryEnds(o, h, segs, order, secs, q);
    LayoutExact.TypesKept(h, segs, order, secs, pos);
    assert LayoutSafety.SameData(secs[x], r.cur.secs[x]);
    FoundInside(o, r, order[q], x);
  }

  lemma MemoryEnds(o: Object, h: Layout.Head, segs: seq<Layout.Seg>, order: seq<nat>, secs: seq<Layout.Sec>, q: nat)
    requires LayoutSteps.Laid(h, segs, order, secs, o.HeadersEnd()) && q < |order| && LayoutSteps.Nesting(segs, order)
    requires LayoutContainment.HasReal(segs[order[q]], secs)
    requires Layout.LayoutAll(h, segs, order, secs, o.HeadersEnd()).shoff < h.m <= M64
    requires LayoutAddresses.InRange(h, segs, order, secs, o.HeadersEnd(), q)
    ensures var r := Layout.LayoutAll(h, segs, order, secs, o.HeadersEnd());
            |r.segs| == |segs| && r.segs[order[q]].vaddr + r.segs[order[q]].memsz < M64
  {
    hide Layout.LayoutAll, LayoutSteps.Nesting, LayoutContainment.HasReal, LayoutMemory.ExactMemory, LayoutMemory.FallsShort,
         LayoutMemory.NobitsFollow, LayoutMemory.FileIsMemory, Object.HeadersEnd;
    LayoutAddresses.RangeFits(h, segs, order, secs, o.HeadersEnd(), q);
    LayoutMemory.FileSizeWithinMemory(h, segs, order, secs, o.HeadersEnd(), q);
    LayoutAddresses.AddressKept(h, segs, order, secs, o.HeadersEnd(), q);
  }

  /** An SHF_ALLOC section with a preset address, whatever its type and whichever segment placed it,
      is found in a segment that has it exactly when the address lies in the segment's memory: from
      its virtual address, the larger of the size it brought along and of what layout counts. */
  lemma PresetFoundIff(o: Object, h: Layout.Head, segs: seq<Layout.Seg>, order: seq<nat>, secs: seq<Layout.Sec>, q: nat, x: nat)
    requires LayoutSteps.Laid(h, segs, order, secs, o.HeadersEnd()) && q < |order| && LayoutSteps.Nesting(segs, order)
    requires var r := Layout.LayoutAll(h, segs, order, secs, o.HeadersEnd()); r.shoff < h.m <= M64 && SegmentsFrom(o, r)
    requires LayoutContainment.HasReal(segs[order[q]], secs) && LayoutAddresses.InRange(h, segs, order, secs, o.HeadersEnd(), q)
    requires x in segs[order[q]].secs && LayoutSteps.Real(secs, x) && Alloc(secs[x].flags) && secs[x].addrSet
    requires secs[x].addr + secs[x].size < M64
    ensures |o.phdrs| == |segs|
    ensures var seg, s := segs[order[q]], secs[x];
            var end := seg.vaddr + LayoutMemory.Max(seg.memsz, LayoutMemory.ExactMemory(h, segs, order, secs, o.HeadersEnd(), q));
            x in Found(o, order[q]) <==> seg.vaddr <= s.addr < end && s.addr + s.size <= end
  {
    hide Layout.LayoutAll, LayoutSteps.Laid, LayoutSteps.Nesting, LayoutContainment.HasReal, Object.HeadersEnd, Found, Alloc,
         LayoutMemory.ExactMemory, LayoutMemory.FallsShort, LayoutMemory.NobitsFollow, LayoutMemory.FileIsMemory;
    var pos := o.HeadersEnd();
    LayoutSteps.LaidInput(h, segs, order, secs, pos);
    var r := Layout.LayoutAll(h, segs, order, secs, pos);
    LayoutAddresses.RangeFits(h, segs, order, secs, pos, q);
    LayoutMemory.FileSizeWithinMemory(h, segs, order, secs, pos, q);
    LayoutAddresses.AddressKept(h, segs, order, secs, pos, q);
    LayoutAddresses.PresetKept(h, segs, order, secs, pos, q, x);
    LayoutExact.TypesKept(h, segs, order, secs, pos);
    assert LayoutSafety.SameData(secs[x], r.cur.secs[x]);
    if LayoutAddresses.InMemory(r.segs[order[q]], r.cur.secs[x]) {
      FoundInside(o, r, order[q], x);
    } else {
      OutsideLost(o, r, order[q], x);
    }
  }

  /** The end of an aligned segment in memory, from the segments and sections as given. */
  function MemoryEnd(segs: seq<Layout.Seg>, secs: seq<Layout.Sec>, i: nat): int
    requires i < |segs| && forall k :: 0 <= k < |segs| ==> Layout.IndicesOk(segs[k], |secs|)
  {
    var g := LayoutAlignment.RaiseAll(segs, secs, |segs|)[i];
    assert Layout.IndicesOk(segs[i], |secs|);
    segs[i].vaddr + LayoutMemory.Max(segs[i].memsz, LayoutRelative.AtAddress(g, secs).Mem(|g.secs|))
  }

  /** For a segment that save aligns, the condition can be read off the input: it does not depend on
      where in the file the segment comes to stand. */
  lemma AlignedPresetFoundIff(o: Object, h: Layout.Head, segs: seq<Layout.Seg>, order: seq<nat>, secs: seq<Layout.Sec>, q: nat, x: nat)
    requires LayoutRelative.RaisedLaid(h, segs, order, secs, o.HeadersEnd()) && q < |order|
    requires LayoutRelative.AlignedStep(segs, order, secs, q)
    requires SegmentsFrom(o, Layout.LayoutAll(h, LayoutAlignment.RaiseAll(segs, secs, |segs|), order, secs, o.HeadersEnd()))
    requires x in segs[order[q]].secs && LayoutSteps.Real(secs, x) && Alloc(secs[x].flags) && secs[x].addrSet
    requires secs[x].addr + secs[x].size < M64 && MemoryEnd(segs, secs, order[q]) < h.m
    ensures |o.phdrs| == |segs|
    ensures var s, end := secs[x], MemoryEnd(segs, secs, order[q]);
            x in Found(o, order[q]) <==> segs[order[q]].vaddr <= s.addr < end && s.addr + s.size <= end
  {
    hide Layout.LayoutAll, LayoutAlignment.RaiseAll, LayoutSteps.Nesting, LayoutContainment.HasReal, LayoutSteps.FirstToPlace, Object.HeadersEnd,
         Found, Alloc, LayoutMemory.ExactMemory, LayoutRelative.AtAddress, LayoutRelative.AlignedStep, LayoutAlignment.AlignmentsOk;
    LayoutRelative.RaisedParts(h, segs, order, secs, o.HeadersEnd(), q);
    LayoutRelative.AlignedMemory(h, segs, order, secs, o.HeadersEnd(), q);
    var all := LayoutAlignment.RaiseAll(segs, secs, |segs|);
    PresetFoundIff(o, h, all, order, secs, q, x);
  }

  // ---------------------------------------------------------------- reading the segments

  /** The table ends the file, so everything before it can be read. */
  lemma TableInFile(o: Object)
    requires o.FieldsFit() && o.Placed() && |o.sects| > 0
    ensures o.ehdr.shoff < |o.Image()|
  {
    hide Object.FieldsFit, Object.Placed, Object.Image;
    HeaderHeld(o, 0);
    PlacedBounds(o, 0);
  }

  /** Null sections leave the sizes alone. */
  lemma {:induction false} NullsOnly(h: Layout.Head, seg: Layout.Seg, start: nat, j: nat, r: Layout.Run)
    requires h.m > 0 && j <= |seg.secs| && |r.cur.secs| == |r.cur.gen| && Layout.IndicesOk(seg, |r.cur.secs|)
    requires forall k :: 0 <= k < |seg.secs| ==> r.cur.secs[seg.secs[k]].stype == SHT_NULL
    ensures Layout.PlaceFrom(h, seg, start, j, r).filesz == r.filesz
    decreases |seg.secs| - j
  {
    if j < |seg.secs| && r.ok {
      NullsOnly(h, seg, start, j + 1, Layout.Place(h, seg, start, seg.secs[j], r));
    }
  }

  /** A segment without sections, or with null sections only, covers nothing, the program header
      table, or the file up to the position of its turn. */
  lemma BareSegment(h: Layout.Head, segs: seq<Layout.Seg>, order: seq<nat>, secs: seq<Layout.Sec>, pos: nat, q: nat)
    requires LayoutSteps.Laid(h, segs, order, secs, pos) && q < |order| && !LayoutContainment.HasReal(segs[order[q]], secs)
    requires h.phoff + h.phsize <= pos && Layout.LayoutAll(h, segs, order, secs, pos).shoff < h.m
    ensures var r := Layout.LayoutAll(h, segs, order, secs, pos);
            |r.segs| == |segs| && (r.segs[order[q]].filesz == 0 || r.segs[order[q]].offset + r.segs[order[q]].filesz <= r.shoff)
  {
    hide Layout.LayoutAll, LayoutSteps.CursorBefore, Layout.PlaceFrom, Layout.Start, LayoutSafety.GenMatches, LayoutSteps.Earlier;
    LayoutSteps.LaidInput(h, segs, order, secs, pos);
    LayoutSteps.StepOfLayout(h, segs, order, secs, pos, q);
    var cq, seg := LayoutSteps.CursorBefore(h, segs, order, secs, pos, q), segs[order[q]];
    forall k | 0 <= k < |seg.secs| ensures cq.secs[seg.secs[k]].stype == SHT_NULL {
      assert !LayoutSteps.Real(secs, seg.secs[k]);
      assert LayoutSafety.SameData(secs[seg.secs[k]], cq.secs[seg.secs[k]]);
    }
    var (start, size, p) := Layout.Start(h, seg, cq);
    BareStart(h, seg, cq);
    NullsOnly(h, seg, start, 0, Layout.Run(true, cq.(pos := p), size, size));
    SmallMod(size, h.m);
  }

  lemma BareStart(h: Layout.Head, seg: Layout.Seg, cq: Layout.Cursor)
    requires |cq.secs| == |cq.gen| && Layout.IndicesOk(seg, |cq.secs|)
    ensures var (start, size, p) := Layout.Start(h, seg, cq);
            size == 0 || start + size == h.phoff + h.phsize || start + size == cq.pos
  {
    hide Layout.AlignedPos;
  }

  lemma SmallMod(v: nat, m: nat)
    requires v < m
    ensures v % m == v
  {
    ModShift(0, m, v);
  }

  lemma AllReadable(o: Object, h: Layout.Head, segs: seq<Layout.Seg>, order: seq<nat>, secs: seq<Layout.Sec>)
    requires LayoutSteps.Laid(h, segs, order, secs, o.HeadersEnd()) && LayoutSteps.Nesting(segs, order)
    requires h.phoff + h.phsize <= o.HeadersEnd()
    requires var r := Layout.LayoutAll(h, segs, order, secs, o.HeadersEnd());
             r.shoff < h.m <= M64 && SegmentsFrom(o, r) && o.ehdr.shoff == r.shoff
    requires o.FieldsFit() && o.ehdr.shoff <= |o.Image()|
    ensures |o.phdrs| == |segs| && forall i :: 0 <= i < |o.phdrs| ==> Readable(o, i)
  {
    hide Layout.LayoutAll, LayoutSteps.Nesting, LayoutContainment.HasReal, Object.HeadersEnd, Object.FieldsFit, Object.Image,
         LayoutSteps.FirstToPlace,
         LayoutContainment.Flush, LayoutContainment.Inside, LayoutExact.FreshAt;
    var r, pos := Layout.LayoutAll(h, segs, order, secs, o.HeadersEnd()), o.HeadersEnd();
    LayoutContainment.LengthsKept(h, segs, order, secs, pos);
    forall i | 0 <= i < |o.phdrs| ensures Readable(o, i) {
      assert i in order;
      var q :| 0 <= q < |order| && order[q] == i;
      if LayoutContainment.HasReal(segs[i], secs) {
        LayoutContainment.EnclosedExactly(h, segs, order, secs, pos, q);
      } else {
        BareSegment(h, segs, order, secs, pos, q);
      }
    }
  }

  /** Saving and loading, when segments are pairwise disjoint, equal or nested: every program header
      reads back with the bytes it covers; and load finds the sections of a segment again that
      ByOffset and ByAddress describe. */
  lemma SectionsFoundAgain(o: Object, h: Layout.Head, segs: seq<Layout.Seg>, order: seq<nat>, secs: seq<Layout.Sec>)
    requires h.phoff + h.phsize <= o.HeadersEnd() && |o.sects| > 0
    requires LayoutSteps.Laid(h, segs, order, secs, o.HeadersEnd()) && LayoutSteps.Nesting(segs, order)
    requires var r := Layout.LayoutAll(h, segs, order, secs, o.HeadersEnd());
             r.shoff < h.m <= M64 && |r.cur.secs| == |secs| && FromLayout(o, r.cur.secs, r.shoff) && SegmentsFrom(o, r)
    requires o.FieldsFit() && Seekable(o)
    ensures o.Placed() && |o.phdrs| == |segs| && forall i :: 0 <= i < |o.phdrs| ==> Readable(o, i)
    ensures var f := LoadHeader(In(o.Image(), 0, false));
            && f.Some?
            && var (c, swap, e, s) := f.value;
               AllSegmentsLoaded(o, LoadSegments(c, swap, e, 0, LoadSections(c, swap, e, 0, s).1).0)
    ensures forall q: nat, x: nat :: q < |order| && ByOffset(h, segs, order, secs, o.HeadersEnd(), q, x) ==> x in Found(o, order[q])
    ensures forall q: nat, x: nat :: q < |order| && ByAddress(h, segs, order, secs, o.HeadersEnd(), q, x) ==> x in Found(o, order[q])
  {
    hide Layout.LayoutAll, Object.FieldsFit, Object.Placed, Object.Image, LoadHeader, LoadSections, LoadSegments, AllSegmentsLoaded, Found,
         ByOffset, ByAddress, SegmentsFrom, Readable, LayoutSteps.Nesting, Object.HeadersEnd;
    LayoutSteps.LaidInput(h, segs, order, secs, o.HeadersEnd());
    LayoutPlaces(o, h, segs, order, secs);
    TableInFile(o);
    AllReadable(o, h, segs, order, secs);
    SaveLoadSegments(o);
    forall q: nat, x: nat | q < |order| && ByOffset(h, segs, order, secs, o.HeadersEnd(), q, x) ensures x in Found(o, order[q]) {
      FoundByOffset(o, h, segs, order, secs, q, x);
    }
    forall q: nat, x: nat | q < |order| && ByAddress(h, segs, order, secs, o.HeadersEnd(), q, x) ensures x in Found(o, order[q]) {
      FoundByAddress(o, h, segs, order, secs, q, x);
    }
  }

  /** The layout of PresetOutside. */
  function PagedLayout(): Layout.Result {
    Layout.LayoutAll(Layout.Head(M64, 64, 112), [LayoutAddresses.PAGE, LayoutAddresses.NESTED_PAGE], [0, 1],
                     LayoutAddresses.PAGED_SECS, 176)
  }

  /** It does not hold for all sections: load loses the NOBITS section of PresetOutside, whose preset
      address lies behind the segment's memory, and the data section in the nested segment there. */
  lemma PresetLost(o: Object)
    requires SegmentsFrom(o, PagedLayout())
    ensures |o.phdrs| == 2 && 2 in LayoutAddresses.PAGE.secs && 2 !in Found(o, 0)
    ensures 1 in LayoutAddresses.NESTED_PAGE.secs && 1 !in Found(o, 1)
  {
    hide Layout.LayoutAll, Found;
    LayoutAddresses.PresetOutside();
    var r := PagedLayout();
    PagedKept(r);
    assert 2 == LayoutAddresses.PAGE.secs[1] && 1 == LayoutAddresses.NESTED_PAGE.secs[0];
    OutsideLost(o, r, 0, 2);
    OutsideLost(o, r, 1, 1);
  }

  lemma PagedKept(r: Layout.Result)
    requires r == PagedLayout()
    requires r.ok
    ensures |r.cur.secs| == 3 && forall x :: 1 <= x < 3 ==> Alloc(r.cur.secs[x].flags) && r.cur.secs[x].size == LayoutAddresses.PAGED_SECS[x].size
  {
    hide Layout.LayoutAll;
    var segs := [LayoutAddresses.PAGE, LayoutAddresses.NESTED_PAGE];
    assert [0, 1][0] == 0 && [0, 1][1] == 1;
    LayoutSafety.LayoutIsDisjoint(Layout.Head(M64, 64, 112), segs, [0, 1], LayoutAddresses.PAGED_SECS, 176);
    forall x | 1 <= x < 3 ensures Alloc(r.cur.secs[x].flags) && r.cur.secs[x].size == LayoutAddresses.PAGED_SECS[x].size {
      assert LayoutSafety.SameData(LayoutAddresses.PAGED_SECS[x], r.cur.secs[x]);
    }
  }
}
