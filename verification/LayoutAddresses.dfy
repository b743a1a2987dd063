/** Sections and segments in memory: where a section's address stands in its segment after layout. */
module LayoutAddresses {
  import opened Arith
  import opened Bytes
  import opened ElfTypes
  import opened Options
  import opened Layout
  import opened LayoutSafety
  import opened LayoutSteps
  import opened LayoutExact
  import opened LayoutContainment
  import opened LayoutMemory
  import opened SegmentOrder
  import LayoutAlignment

  /** The addresses of section s lie in the memory of segment g. */
  predicate InMemory(g: Seg, s: Sec) {
    g.vaddr <= s.addr && s.addr + s.size <= g.vaddr + g.memsz && s.addr < g.vaddr + g.memsz
  }

  /** The section is no further from the segment in memory than in the file. */
  predicate Consistent(g: Seg, s: Sec) {
    g.vaddr <= s.addr && s.addr - g.vaddr <= s.offset - g.offset
  }

  // ---------------------------------------------------------------- laid out afresh

  /** Every gap of the list counts in memory, or there is none. */
  predicate GapsCount(seg: Seg, secs: seq<Sec>)
    requires IndicesOk(seg, |secs|)
  {
    forall k :: 0 <= k < |seg.secs| && Unaddressed(secs[seg.secs[k]]) ==>
      CountsInMemory(seg, secs[seg.secs[k]]) || secs[seg.secs[k]].addralign <= 1
  }

  /** What stands before a section in the file is also before it in memory. */
  lemma {:induction false} MemoryReaches(f: Fresh, j: nat)
    requires Sane(f) && j <= f.Count() && FileIsMemory(f.seg, f.secs) && GapsCount(f.seg, f.secs)
    ensures f.Pos(j) <= f.start + f.Mem(j)
  {
    hide Fresh.Pos, Fresh.Gap, Fresh.Place, Fresh.File, Fresh.Mem, Fresh.Skipped, CountsInMemory, FreshGap;
    if j == 0 {
      AtZero(f);
    } else {
      Next(f, j - 1);
      MemoryReaches(f, j - 1);
      var s := f.Sec(j - 1);
      if s.stype == SHT_NOBITS && !CountsInMemory(f.seg, s) {
        if s.addrSet {
          AddressedNobits(f.seg, f.start, s, f.Pos(j - 1));
        } else {
          FlatGap(f.seg, f.start, s, f.Pos(j - 1));
        }
      }
    }
  }

  lemma FreshReaches(f: Fresh, j: nat)
    requires Sane(f) && j < f.Count() && FileIsMemory(f.seg, f.secs) && GapsCount(f.seg, f.secs)
    requires f.Sec(j).stype != SHT_NULL && CountsInMemory(f.seg, f.Sec(j))
    ensures f.Place(j) + f.Sec(j).size <= f.start + f.Mem(f.Count())
  {
    hide Fresh.Pos, Fresh.Gap, Fresh.Place, Fresh.File, Fresh.Mem, Fresh.Skipped, CountsInMemory, FreshGap;
    MemoryReaches(f, j);
    Next(f, j);
    Monotone(f, j + 1, f.Count());
  }

  // ---------------------------------------------------------------- sections placed already

  lemma {:induction false} SharedMonotone(p: Shared, j: nat, n: nat)
    requires p.Ok() && j <= n <= p.Count() && ListInOrder(p.secs, p.seg.secs)
    requires SomeBacked(p, j) || StartsLow(p)
    ensures p.Mem(j) <= p.Mem(n)
    decreases n
  {
    hide ListInOrder, Shared.File, Shared.Mem, CountsInMemory;
    if j < n {
      SharedMonotone(p, j, n - 1);
      MemStep(p, n - 1);
      if p.Sec(n - 1).stype != SHT_NULL {
        NextBehindFile(p, n - 1, n - 1);
      }
    }
  }

  /** The segment starts where its first section does. */
  predicate StartsLow(p: Shared)
    requires p.Ok()
  {
    p.size == 0 && forall a :: 0 <= a < p.Count() && p.Sec(a).stype != SHT_NULL ==> p.start <= p.Sec(a).offset
  }

  lemma MemStep(p: Shared, j: nat)
    requires p.Ok() && j < p.Count()
    ensures p.Mem(j + 1) == if p.Sec(j).stype != SHT_NULL && CountsInMemory(p.seg, p.Sec(j))
                            then p.Mem(j) + p.Sec(j).size + p.Sec(j).offset - p.start - p.File(j) else p.Mem(j)
  {}

  lemma SharedReachesMemory(p: Shared, j: nat)
    requires p.Ok() && j < p.Count() && ListInOrder(p.secs, p.seg.secs) && FileIsMemory(p.seg, p.secs)
    requires NobitsBehind(p) || StartsLow(p)
    requires p.Sec(j).stype != SHT_NULL && CountsInMemory(p.seg, p.Sec(j))
    ensures p.Sec(j).offset + p.Sec(j).size <= p.start + p.Mem(p.Count())
  {
    hide ListInOrder, Shared.File, Shared.Mem, CountsInMemory, FileIsMemory, Balance;
    BalanceIs(p, j);
    BalanceGrows(p, j);
    MemStep(p, j);
    assert NobitsBehind(p) ==> SomeBacked(p, j + 1) by { BackedBy(p, j); }
    SharedMonotone(p, j + 1, p.Count());
  }

  lemma BackedBy(p: Shared, j: nat)
    requires p.Ok() && j < p.Count() && p.Sec(j).stype != SHT_NULL && CountsInMemory(p.seg, p.Sec(j))
    ensures NobitsBehind(p) ==> SomeBacked(p, j + 1)
  {
    if NobitsBehind(p) {
      if p.Sec(j).stype == SHT_NOBITS {
        var b :| 0 <= b < j && InFile(p.Sec(b));
      } else {
        assert InFile(p.Sec(j));
      }
    }
  }

  // ---------------------------------------------------------------- the whole layout

  /** Neither the memory size nor the end of the segment in memory leaves the class's range. */
  ghost predicate InRange(h: Head, segs: seq<Seg>, order: seq<nat>, secs: seq<Sec>, pos: nat, q: nat)
    requires Laid(h, segs, order, secs, pos) && q < |order| && HasReal(segs[order[q]], secs)
  {
    var m := ExactMemory(h, segs, order, secs, pos, q);
    0 <= m && segs[order[q]].vaddr + Max(segs[order[q]].memsz, m) < h.m
  }

  /** All that the segment of step q has in the file is in memory, and so is what it skips. A segment
      that starts with the null section over sections placed before has no counted NOBITS section in
      front of its first file-backed one. */
  predicate Whole(segs: seq<Seg>, order: seq<nat>, secs: seq<Sec>, q: nat)
    requires q < |order| && (forall i :: 0 <= i < |order| ==> order[i] < |segs|) && IndicesOk(segs[order[q]], |secs|)
  {
    var seg := segs[order[q]];
    && FileIsMemory(seg, secs)
    && (FirstToPlace(segs, order, secs, q) ==> GapsCount(seg, secs))
    && (!FirstToPlace(segs, order, secs, q) ==> StartsWithNull(seg, secs) ==> NobitsFollow(seg, secs))
  }

  /** A nonempty section that counts in the segment's memory. */
  predicate Counted(seg: Seg, secs: seq<Sec>, x: nat) {
    x in seg.secs && Real(secs, x) && CountsInMemory(seg, secs[x]) && secs[x].size > 0
  }

  /** Memory reaches at least as far as the file for every section counted there. */
  lemma CountedReaches(h: Head, segs: seq<Seg>, order: seq<nat>, secs: seq<Sec>, pos: nat, q: nat, x: nat)
    requires Laid(h, segs, order, secs, pos) && q < |order| && Nesting(segs, order)
    requires LayoutAll(h, segs, order, secs, pos).shoff < h.m <= M64 && HasReal(segs[order[q]], secs)
    requires Whole(segs, order, secs, q) && Counted(segs[order[q]], secs, x)
    ensures var r := LayoutAll(h, segs, order, secs, pos);
            && |r.segs| == |segs| && |r.cur.secs| == |secs|
            && r.cur.secs[x].offset + secs[x].size <= r.segs[order[q]].offset + ExactMemory(h, segs, order, secs, pos, q)
  {
    hide LayoutAll, Laid, HasReal, ListInOrder, FirstToPlace, AllPlaced, Placeable, Turn, Nesting, FreshAt, SharedAt, CountsInMemory,
         FileIsMemory, Fresh.Mem, Fresh.File, Shared.Mem, Shared.File, NobitsFollow, GapsCount, Fresh.Pos, Fresh.Place;
    LaidInput(h, segs, order, secs, pos);
    TypesKept(h, segs, order, secs, pos);
    var seg, r, turn := segs[order[q]], LayoutAll(h, segs, order, secs, pos), Turn(h, segs, order, secs, pos, q);
    RealPlaceable(seg, secs);
    var a :| 0 <= a < |seg.secs| && seg.secs[a] == x;
    if FirstToPlace(segs, order, secs, q) {
      NestingSorted(segs, order);
      FreshInLayout(h, segs, order, secs, pos, q);
      FreshSaneAt(h, segs, order, secs, pos, q);
      var f := FreshAt(h, segs, order, secs, pos, q);
      FreshReaches(f, a);
      SettledFrom(f, h.m, r.segs[order[q]], r.cur.secs, r.shoff);
      PlaceOfSection(f, h.m, r.cur.secs, a);
    } else {
      FreshOrShared(segs, order, secs, q);
      SharedInLayout(h, segs, order, secs, pos, q);
      ListsInOrder(h, segs, order, secs, pos, q);
      SharedAtIs(h, segs, order, secs, pos, q);
      RealsKept(secs, r.cur.secs, seg, turn);
      FlagsKept(seg, secs, r.cur.secs);
      var p := SharedAt(h, segs, order, secs, pos, q);
      SharedStarts(seg, r.cur.secs, turn);
      if StartsWithNull(seg, secs) { FollowBehind(seg, secs, p); }
      SharedCounts(seg, secs, r.cur.secs, x);
      SharedReachesMemory(p, a);
    }
  }

  lemma SharedCounts(seg: Seg, secs: seq<Sec>, after: seq<Sec>, x: nat)
    requires |after| == |secs| && x < |secs| && SameData(secs[x], after[x]) && CountsInMemory(seg, secs[x])
    ensures CountsInMemory(seg, after[x])
  {}

  /** So a nonempty counted section whose address is no further from the segment's than its offset
      is from the segment's offset lies in the segment's memory. */
  lemma ConsistentInMemory(h: Head, segs: seq<Seg>, order: seq<nat>, secs: seq<Sec>, pos: nat, q: nat, x: nat)
    requires Laid(h, segs, order, secs, pos) && q < |order| && Nesting(segs, order)
    requires LayoutAll(h, segs, order, secs, pos).shoff < h.m <= M64 && HasReal(segs[order[q]], secs)
    requires InRange(h, segs, order, secs, pos, q) && Whole(segs, order, secs, q) && Counted(segs[order[q]], secs, x)
    requires |LayoutAll(h, segs, order, secs, pos).segs| == |segs| && |LayoutAll(h, segs, order, secs, pos).cur.secs| == |secs|
    requires Consistent(LayoutAll(h, segs, order, secs, pos).segs[order[q]], LayoutAll(h, segs, order, secs, pos).cur.secs[x])
    ensures InMemory(LayoutAll(h, segs, order, secs, pos).segs[order[q]], LayoutAll(h, segs, order, secs, pos).cur.secs[x])
  {
    hide LayoutAll, Laid, HasReal, Nesting, CountsInMemory, Whole, ExactMemory, FallsShort, NobitsFollow, FileIsMemory;
    CountedReaches(h, segs, order, secs, pos, q, x);
    assert ExactMemory(h, segs, order, secs, pos, q) < h.m by { RangeFits(h, segs, order, secs, pos, q); }
    FileSizeWithinMemory(h, segs, order, secs, pos, q);
    TypesKept(h, segs, order, secs, pos);
    AddressKept(h, segs, order, secs, pos, q);
  }

  lemma RangeFits(h: Head, segs: seq<Seg>, order: seq<nat>, secs: seq<Sec>, pos: nat, q: nat)
    requires Laid(h, segs, order, secs, pos) && q < |order| && HasReal(segs[order[q]], secs)
    requires InRange(h, segs, order, secs, pos, q)
    ensures 0 <= ExactMemory(h, segs, order, secs, pos, q) < h.m
  {
    hide HasReal, ExactMemory;
  }

  lemma AddressKept(h: Head, segs: seq<Seg>, order: seq<nat>, secs: seq<Sec>, pos: nat, q: nat)
    requires Laid(h, segs, order, secs, pos) && q < |order|
    ensures |LayoutAll(h, segs, order, secs, pos).segs| == |segs|
    ensures LayoutAll(h, segs, order, secs, pos).segs[order[q]].vaddr == segs[order[q]].vaddr
    ensures LayoutAll(h, segs, order, secs, pos).segs[order[q]].secs == segs[order[q]].secs
  {
    hide LayoutAll, SegmentRun, Start, CursorBefore;
    LaidInput(h, segs, order, secs, pos);
    StepOfLayout(h, segs, order, secs, pos, q);
  }

  // ---------------------------------------------------------------- addresses that follow the file

  /** The section's address is left to layout, or it has bytes in the file and an address not below
      the segment's: then layout keeps its distance from the segment's start. */
  predicate Follows(seg: Seg, s: Sec) {
    !s.addrSet || (InFile(s) && s.size != 0 && seg.vaddr <= s.addr < M64)
  }

  /** In a segment laid out afresh its address is as far from the segment's as its offset is. */
  predicate Aligned(g: Seg, s: Sec) {
    g.offset <= s.offset && s.addr == g.vaddr + (s.offset - g.offset)
  }

  lemma FollowsAligned(h: Head, segs: seq<Seg>, order: seq<nat>, secs: seq<Sec>, pos: nat, q: nat, x: nat)
    requires Laid(h, segs, order, secs, pos) && q < |order| && Nesting(segs, order)
    requires LayoutAll(h, segs, order, secs, pos).shoff < h.m <= M64 && HasReal(segs[order[q]], secs)
    requires FirstToPlace(segs, order, secs, q) && Whole(segs, order, secs, q) && InRange(h, segs, order, secs, pos, q)
    requires Counted(segs[order[q]], secs, x) && Follows(segs[order[q]], secs[x])
    ensures var r := LayoutAll(h, segs, order, secs, pos);
            |r.segs| == |segs| && |r.cur.secs| == |secs| && Aligned(r.segs[order[q]], r.cur.secs[x])
    ensures secs[x].addrSet ==> LayoutAll(h, segs, order, secs, pos).cur.secs[x].addr == secs[x].addr
  {
    hide LayoutAll, Laid, HasReal, FirstToPlace, Placeable, Turn, Nesting, FreshAt, CountsInMemory, Whole, ExactMemory,
         Fresh.Mem, Fresh.File, Fresh.Pos, Fresh.Place, W64, Aligned, LayoutAlignment.Distance, SettledAt, ByFresh, InRange;
    LaidInput(h, segs, order, secs, pos);
    TypesKept(h, segs, order, secs, pos);
    var seg, r := segs[order[q]], LayoutAll(h, segs, order, secs, pos);
    RealPlaceable(seg, secs);
    NestingSorted(segs, order);
    FreshInLayout(h, segs, order, secs, pos, q);
    FreshSaneAt(h, segs, order, secs, pos, q);
    var f := FreshAt(h, segs, order, secs, pos, q);
    var a :| 0 <= a < |seg.secs| && seg.secs[a] == x;
    SettledFrom(f, h.m, r.segs[order[q]], r.cur.secs, r.shoff);
    PlaceOfSection(f, h.m, r.cur.secs, a);
    CountedReaches(h, segs, order, secs, pos, q, x);
    AddressKept(h, segs, order, secs, pos, q);
    StartBefore(f, a);
    StartIs(f, h.m, r.segs[order[q]], r.cur.secs, r.shoff);
    if secs[x].addrSet {
      PresetDistance(h, segs, order, secs, pos, q, x);
      DistanceAligned(x, seg, r.segs[order[q]], secs[x].addr, r.cur.secs);
    } else {
      RangeEnd(h, segs, order, secs, pos, q);
      GivenAligned(f, h.m, r.segs[order[q]], r.cur.secs, a);
    }
  }

  lemma RangeEnd(h: Head, segs: seq<Seg>, order: seq<nat>, secs: seq<Sec>, pos: nat, q: nat)
    requires Laid(h, segs, order, secs, pos) && q < |order| && HasReal(segs[order[q]], secs)
    requires InRange(h, segs, order, secs, pos, q)
    ensures segs[order[q]].vaddr + ExactMemory(h, segs, order, secs, pos, q) < h.m
  {
    hide HasReal, ExactMemory;
  }

  lemma StartIs(f: Fresh, m: nat, g: Seg, secs: seq<Sec>, end: nat)
    requires f.Ok() && m > 0 && ByFresh(f, m, g, secs, end)
    ensures g.offset == f.start && g.vaddr == f.seg.vaddr
  {
    hide SettledAt, W64, Fresh.Mem, Fresh.File, Fresh.Pos;
  }

  lemma DistanceAligned(x: nat, seg: Seg, g: Seg, addr: nat, secs: seq<Sec>)
    requires LayoutAlignment.Distance(x, seg, g.offset, addr, secs) && g.vaddr == seg.vaddr && seg.vaddr <= addr < M64
    ensures x < |secs| && secs[x].addr == addr && Aligned(g, secs[x])
  {}

  lemma GivenAligned(f: Fresh, m: nat, g: Seg, secs: seq<Sec>, a: nat)
    requires f.Ok() && 0 < m <= M64 && a < f.Count() && SettledAt(f, m, f.Count(), secs) && f.Sec(a).stype != SHT_NULL && !f.Sec(a).addrSet
    requires g.offset == f.start <= f.Place(a) && g.vaddr == f.seg.vaddr && f.seg.vaddr + f.Place(a) - f.start < m
    requires f.seg.secs[a] < |secs| && secs[f.seg.secs[a]].offset == f.Place(a)
    ensures Aligned(g, secs[f.seg.secs[a]])
  {
    hide Fresh.Place, Fresh.Pos, SettledAt, W64;
    GivenAddress(f, m, secs, a);
    SmallMod(f.seg.vaddr + f.Place(a) - f.start, m);
  }

  lemma SmallMod(v: nat, m: nat)
    requires v < m <= M64
    ensures W64(v) % m == v
  {
    ModShift(0, m, v);
  }

  lemma StartBefore(f: Fresh, a: nat)
    requires Sane(f) && a < f.Count()
    ensures f.start <= f.Place(a)
  {
    hide Fresh.Gap;
  }

  lemma GivenAddress(f: Fresh, m: nat, secs: seq<Sec>, a: nat)
    requires f.Ok() && m > 0 && a < f.Count() && SettledAt(f, m, f.Count(), secs) && f.Sec(a).stype != SHT_NULL && !f.Sec(a).addrSet
    ensures f.seg.secs[a] < |secs| && secs[f.seg.secs[a]].addr == W64(f.seg.vaddr + f.Place(a) - f.start) % m
  {
    hide Fresh.Place;
  }

  lemma PresetDistance(h: Head, segs: seq<Seg>, order: seq<nat>, secs: seq<Sec>, pos: nat, q: nat, x: nat)
    requires Laid(h, segs, order, secs, pos) && q < |order| && Sorted(segs)
    requires LayoutAll(h, segs, order, secs, pos).shoff < M64 && Placeable(segs[order[q]], secs)
    requires FirstToPlace(segs, order, secs, q)
    requires x in segs[order[q]].secs && x < |secs| && secs[x].addrSet && InFile(secs[x]) && secs[x].size != 0
    requires |LayoutAll(h, segs, order, secs, pos).segs| == |segs|
    ensures LayoutAlignment.Distance(x, segs[order[q]], LayoutAll(h, segs, order, secs, pos).segs[order[q]].offset, secs[x].addr,
                                     LayoutAll(h, segs, order, secs, pos).cur.secs)
  {
    hide LayoutAll, Laid, SegmentRun, Start, SegmentOrder.Increasing, AlignedPos, CursorBefore, Extents, GenMatches, Earlier;
    LaidInput(h, segs, order, secs, pos);
    StepOfLayout(h, segs, order, secs, pos, q);
    var cq, f := CursorBefore(h, segs, order, secs, pos, q), FreshAt(h, segs, order, secs, pos, q);
    FirstUnplaced(segs, order, secs, q, f, cq);
    RunIsFresh(h, segs[order[q]], secs, cq);
    FreshSaneAt(h, segs, order, secs, pos, q);
    assert Real(secs, x);
    LayoutAlignment.StepDistance(h, segs, order, secs, pos, q, cq, LayoutAll(h, segs, order, secs, pos), x);
  }

  // ---------------------------------------------------------------- nested segments

  /** The sections of a segment that is not first to place them were placed together. */
  lemma {:induction false} PlacedTogether(segs: seq<Seg>, order: seq<nat>, secs: seq<Sec>, q: nat) returns (p: nat)
    requires q < |order| && (forall i :: 0 <= i < |order| ==> order[i] < |segs|) && Nesting(segs, order)
    requires !FirstToPlace(segs, order, secs, q)
    ensures p < q && FirstToPlace(segs, order, secs, p) && Elements(segs[order[q]].secs) <= Elements(segs[order[p]].secs)
    decreases q
  {
    hide Nesting, FirstToPlace;
    p := SomeShared(segs, order, secs, q);
    if !FirstToPlace(segs, order, secs, p) {
      p := PlacedTogether(segs, order, secs, p);
    }
  }

  /** A preset address stays. */
  lemma PresetKept(h: Head, segs: seq<Seg>, order: seq<nat>, secs: seq<Sec>, pos: nat, q: nat, x: nat)
    requires Laid(h, segs, order, secs, pos) && q < |order| && Nesting(segs, order)
    requires LayoutAll(h, segs, order, secs, pos).shoff < M64 && x in segs[order[q]].secs && Real(secs, x) && secs[x].addrSet
    ensures |LayoutAll(h, segs, order, secs, pos).cur.secs| == |secs|
    ensures LayoutAll(h, segs, order, secs, pos).cur.secs[x].addr == secs[x].addr
  {
    hide LayoutAll, Laid, Nesting, FirstToPlace, Placeable, HasReal, FreshAt, Turn, Fresh.Pos, Fresh.Place, Fresh.File, Fresh.Mem;
    LaidInput(h, segs, order, secs, pos);
    TypesKept(h, segs, order, secs, pos);
    var p := q;
    if !FirstToPlace(segs, order, secs, q) {
      p := PlacedTogether(segs, order, secs, q);
      assert x in Elements(segs[order[q]].secs);
    }
    assert x in segs[order[p]].secs;
    var a :| 0 <= a < |segs[order[p]].secs| && segs[order[p]].secs[a] == x;
    HasThis(segs[order[p]], secs, a);
    NestingSorted(segs, order);
    FreshInLayout(h, segs, order, secs, pos, p);
    var f, r := FreshAt(h, segs, order, secs, pos, p), LayoutAll(h, segs, order, secs, pos);
    SettledFrom(f, h.m, r.segs[order[p]], r.cur.secs, r.shoff);
    SettledKeeps(f, h.m, r.cur.secs, a);
  }

  lemma HasThis(seg: Seg, secs: seq<Sec>, a: nat)
    requires IndicesOk(seg, |secs|) && a < |seg.secs| && Real(secs, seg.secs[a])
    ensures HasReal(seg, secs) && Placeable(seg, secs)
  {}

  lemma SettledKeeps(f: Fresh, m: nat, secs: seq<Sec>, a: nat)
    requires f.Ok() && m > 0 && a < f.Count() && SettledAt(f, m, f.Count(), secs) && f.Sec(a).stype != SHT_NULL && f.Sec(a).addrSet
    ensures f.seg.secs[a] < |secs| && secs[f.seg.secs[a]].addr == f.Sec(a).addr
  {
    hide Fresh.Place;
  }

  /** The segment of step q lies in that of step p, which placed the sections, and its address is
      that of its first section. */
  ghost predicate NestedAt(h: Head, segs: seq<Seg>, order: seq<nat>, secs: seq<Sec>, pos: nat, p: nat, q: nat)
    requires Laid(h, segs, order, secs, pos) && p < |order| && q < |order|
    requires |LayoutAll(h, segs, order, secs, pos).cur.secs| == |secs|
  {
    var outer, seg := segs[order[p]], segs[order[q]];
    && FirstToPlace(segs, order, secs, p) && !FirstToPlace(segs, order, secs, q)
    && Elements(seg.secs) <= Elements(outer.secs) && seg.secs != [] && Real(secs, seg.secs[0])
    && seg.vaddr == LayoutAll(h, segs, order, secs, pos).cur.secs[seg.secs[0]].addr
  }

  /** Then what follows the file in the outer segment lies in the nested segment's memory too. */
  lemma NestedInMemory(h: Head, segs: seq<Seg>, order: seq<nat>, secs: seq<Sec>, pos: nat, p: nat, q: nat, x: nat)
    requires Laid(h, segs, order, secs, pos) && p < |order| && q < |order| && Nesting(segs, order)
    requires LayoutAll(h, segs, order, secs, pos).shoff < h.m <= M64 && HasReal(segs[order[p]], secs) && HasReal(segs[order[q]], secs)
    requires Whole(segs, order, secs, p) && InRange(h, segs, order, secs, pos, p)
    requires Whole(segs, order, secs, q) && InRange(h, segs, order, secs, pos, q)
    requires |LayoutAll(h, segs, order, secs, pos).segs| == |segs| && |LayoutAll(h, segs, order, secs, pos).cur.secs| == |secs|
    requires NestedAt(h, segs, order, secs, pos, p, q) && Counted(segs[order[q]], secs, x)
    requires forall y :: y in {x, segs[order[q]].secs[0]} ==> Counted(segs[order[p]], secs, y) && Follows(segs[order[p]], secs[y])
    ensures InMemory(LayoutAll(h, segs, order, secs, pos).segs[order[q]], LayoutAll(h, segs, order, secs, pos).cur.secs[x])
  {
    hide LayoutAll, Laid, HasReal, Nesting, CountsInMemory, Whole, ExactMemory, InRange, FirstToPlace, Follows, InMemory, SharedAt, Turn;
    LaidInput(h, segs, order, secs, pos);
    var r, first := LayoutAll(h, segs, order, secs, pos), segs[order[q]].secs[0];
    FollowsAligned(h, segs, order, secs, pos, p, x);
    FollowsAligned(h, segs, order, secs, pos, p, first);
    NestedStart(h, segs, order, secs, pos, q);
    ListsInOrder(h, segs, order, secs, pos, q);
    TypesKept(h, segs, order, secs, pos);
    FirstLowest(r.cur.secs, segs[order[q]].secs, x);
    AddressKept(h, segs, order, secs, pos, q);
    ConsistentInMemory(h, segs, order, secs, pos, q, x);
  }

  lemma FirstLowest(secs: seq<Sec>, list: seq<nat>, x: nat)
    requires ListInOrder(secs, list) && x in list && Real(secs, x) && Real(secs, list[0])
    ensures secs[list[0]].offset <= secs[x].offset
  {
    var k :| 0 <= k < |list| && list[k] == x;
  }

  lemma NestedStart(h: Head, segs: seq<Seg>, order: seq<nat>, secs: seq<Sec>, pos: nat, q: nat)
    requires Laid(h, segs, order, secs, pos) && q < |order| && Nesting(segs, order)
    requires LayoutAll(h, segs, order, secs, pos).shoff < M64 && !FirstToPlace(segs, order, secs, q)
    requires segs[order[q]].secs != [] && Real(secs, segs[order[q]].secs[0])
    ensures var r := LayoutAll(h, segs, order, secs, pos);
            |r.segs| == |segs| && |r.cur.secs| == |secs| && r.segs[order[q]].offset == r.cur.secs[segs[order[q]].secs[0]].offset
  {
    hide LayoutAll, Laid, Nesting, Turn, SharedAt, FirstToPlace, AllPlaced, Shared.File, Shared.Mem;
    LaidInput(h, segs, order, secs, pos);
    TypesKept(h, segs, order, secs, pos);
    FreshOrShared(segs, order, secs, q);
    SharedInLayout(h, segs, order, secs, pos, q);
    SharedAtIs(h, segs, order, secs, pos, q);
  }

  // ---------------------------------------------------------------- inputs on which it fails

  /** Sixteen bytes of data at address 4096 and eight bytes of NOBITS on the next page. */
  const PAGED_SECS: seq<Sec> := [Sec(SHT_NULL, 0, 0, 0, 0, false, 0),
                                 Sec(1, 2, 16, 1, 4096, true, 0),
                                 Sec(SHT_NOBITS, 2, 8, 1, 8192, true, 0)]

  const PAGE: Seg := Seg(1, 4096, 1, 0, 0, 0, [1, 2])
  const NESTED_PAGE: Seg := Seg(1, 0, 1, 0, 0, 0, [1])

  /** The segment of both gets 24 bytes of memory, and the NOBITS section lies behind them. A segment
      nested in it that says its address is 0 does not cover its data either. */
  lemma PresetOutside()
    ensures var r := LayoutAll(Head(M64, 64, 112), [PAGE, NESTED_PAGE], [0, 1], PAGED_SECS, 176);
            && r.ok && |r.segs| == 2 && |r.cur.secs| == 3
            && r.segs[0].vaddr == 4096 && r.segs[0].memsz == 24 && r.cur.secs[2].addr == 8192 && !InMemory(r.segs[0], r.cur.secs[2])
            && r.segs[1].vaddr == 0 && r.segs[1].memsz == 16 && r.cur.secs[1].addr == 4096 && !InMemory(r.segs[1], r.cur.secs[1])
  {
    PagedFirst();
    PagedSecond();
    hide SegmentRun, Start, LooseFrom;
    var h, c0, segs := Head(M64, 64, 112), StartCursor(PAGED_SECS, 176), [PAGE, NESTED_PAGE];
    var c1 := SegmentRun(h, PAGE, c0).cur;
    var f0 := Finish(h, PAGE, Start(h, PAGE, c0).0, SegmentRun(h, PAGE, c0));
    var f1 := Finish(h, NESTED_PAGE, Start(h, NESTED_PAGE, c1).0, SegmentRun(h, NESTED_PAGE, c1));
    FinishSameSections(h, segs, [0, 1], 0, c0);
    var mid := segs[0 := f0];
    FinishSameSections(h, mid, [0, 1], 1, c1);
    var last := mid[1 := f1];
    assert LayoutSegments(h, last, [0, 1], 2, c1) == Outcome(true, last, c1);
    assert LayoutSegments(h, mid, [0, 1], 1, c1) == Outcome(true, last, c1);
    assert LayoutSegments(h, segs, [0, 1], 0, c0) == Outcome(true, last, c1);
    PagedLoose(last, c1);
  }

  const PAGED_CURSOR: Cursor :=
    Cursor([PAGED_SECS[0], PAGED_SECS[1].(offset := 176), PAGED_SECS[2].(offset := 192)], [false, true, true], 192, [1, 2])

  lemma PagedFirst()
    ensures SegmentRun(Head(M64, 64, 112), PAGE, StartCursor(PAGED_SECS, 176)) == Run(true, PAGED_CURSOR, 16, 24)
    ensures Start(Head(M64, 64, 112), PAGE, StartCursor(PAGED_SECS, 176)) == (176, 0, 176)
  {
    var h, c0 := Head(M64, 64, 112), StartCursor(PAGED_SECS, 176);
    assert AlignedPos(PAGE, 176) == 176;
    assert Start(h, PAGE, c0) == (176, 0, 176);
    assert c0.(pos := 176) == c0;
    var one := [PAGED_SECS[0], PAGED_SECS[1].(offset := 176), PAGED_SECS[2]];
    var r0, r1 := Run(true, c0, 0, 0), Run(true, Cursor(one, [false, true, false], 192, [1]), 16, 16);
    var r2 := Run(true, PAGED_CURSOR, 16, 24);
    PagedData(one);
    PagedNobits(one);
    hide Place, PAGED_CURSOR;
    assert PlaceFrom(h, PAGE, 176, 2, r2) == r2;
    assert PlaceFrom(h, PAGE, 176, 1, r1) == r2;
  }

  lemma PagedData(one: seq<Sec>)
    requires one == [PAGED_SECS[0], PAGED_SECS[1].(offset := 176), PAGED_SECS[2]]
    ensures Place(Head(M64, 64, 112), PAGE, 176, 1, Run(true, StartCursor(PAGED_SECS, 176), 0, 0))
         == Run(true, Cursor(one, [false, true, false], 192, [1]), 16, 16)
  {
    hide Gap, W64;
    var c0 := StartCursor(PAGED_SECS, 176);
    PagedGap();
    Unwrapped(16);
    assert PAGED_SECS[1 := PAGED_SECS[1].(offset := 176)] == one;
    assert c0.gen[1 := true] == [false, true, false];
    assert [] + [1] == [1];
  }

  lemma PagedGap()
    ensures Gap(PAGE, 176, PAGED_SECS[1], false, 176, 0) == Some(0)
  {
    hide W64;
    Unwrapped(0);
  }

  lemma PagedNobits(one: seq<Sec>)
    requires one == [PAGED_SECS[0], PAGED_SECS[1].(offset := 176), PAGED_SECS[2]]
    ensures Place(Head(M64, 64, 112), PAGE, 176, 2, Run(true, Cursor(one, [false, true, false], 192, [1]), 16, 16))
         == Run(true, PAGED_CURSOR, 16, 24)
  {
    assert one[2 := PAGED_SECS[2].(offset := 192)] == PAGED_CURSOR.secs;
    assert [false, true, false][2 := true] == [false, true, true];
    assert [1] + [2] == [1, 2];
  }

  lemma PagedSecond()
    ensures SegmentRun(Head(M64, 64, 112), NESTED_PAGE, PAGED_CURSOR) == Run(true, PAGED_CURSOR, 16, 16)
    ensures Start(Head(M64, 64, 112), NESTED_PAGE, PAGED_CURSOR) == (176, 0, 192)
  {
    var h, cur := Head(M64, 64, 112), PAGED_CURSOR;
    assert Start(h, NESTED_PAGE, cur) == (176, 0, 192);
    assert cur.(pos := 192) == cur;
    assert Gap(NESTED_PAGE, 176, cur.secs[1], true, 192, 0) == Some(0);
    var r1 := Run(true, cur, 16, 16);
    assert Place(h, NESTED_PAGE, 176, 1, Run(true, cur, 0, 0)) == r1;
    assert PlaceFrom(h, NESTED_PAGE, 176, 1, r1) == r1;
  }

  lemma PagedLoose(segs: seq<Seg>, cur: Cursor)
    requires |cur.secs| == 3 && |segs| == 2 && segs[0].secs == [1, 2]
    ensures var e := LooseFrom(segs, 0, cur); e.secs[1] == cur.secs[1] && e.secs[2] == cur.secs[2]
  {
    assert InSegment(segs, 1) && InSegment(segs, 2) by {
      assert 1 in segs[0].secs && 2 in segs[0].secs;
    }
    var c1 := if InSegment(segs, 0) then cur else LooseStep(0, cur);
    assert LooseFrom(segs, 3, c1) == c1;
    assert LooseFrom(segs, 2, c1) == c1;
    assert LooseFrom(segs, 1, c1) == c1;
  }
}
