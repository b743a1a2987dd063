/** Sizes of a segment in memory and in the file: the file size may not be larger than the memory
    size (System V gABI, chapter 5, "Program Header", p_filesz). Exactly when it is not. */
module LayoutMemory {
  import opened Arith
  import opened Bytes
  import opened ElfTypes
  import opened Options
  import opened Layout
  import opened LayoutSafety
  import opened LayoutSteps
  import opened LayoutExact
  import opened LayoutContainment
  import opened SegmentOrder

  /** All bytes the segment has in the file are also in memory (SHF_ALLOC). */
  predicate FileIsMemory(seg: Seg, secs: seq<Sec>) {
    forall k :: 0 <= k < |seg.secs| && seg.secs[k] < |secs| && InFile(secs[seg.secs[k]]) ==> CountsInMemory(seg, secs[seg.secs[k]])
  }

  function Max(a: int, b: int): int { if a < b then b else a }

  // ---------------------------------------------------------------- laid out afresh

  lemma {:induction false} FreshCovers(f: Fresh, j: nat)
    requires f.Ok() && j <= f.Count() && FileIsMemory(f.seg, f.secs)
    ensures f.File(j) <= f.Mem(j)
  {
    hide Fresh.Pos, Fresh.Gap, Fresh.Place, Fresh.File, Fresh.Mem, Fresh.Skipped, CountsInMemory, FreshGap;
    if j == 0 {
      AtZero(f);
    } else {
      Next(f, j - 1);
      FreshCovers(f, j - 1);
    }
  }

  /** Memory the NOBITS sections among the first j need. */
  function NobitsTotal(secs: seq<Sec>, list: seq<nat>, j: nat): nat
    requires j <= |list| && forall k :: 0 <= k < |list| ==> list[k] < |secs|
  {
    if j == 0 then 0
    else NobitsTotal(secs, list, j - 1) + (if secs[list[j - 1]].stype == SHT_NOBITS then secs[list[j - 1]].size else 0)
  }

  /** The memory size is at most the file up to the segment's end and the NOBITS sections. */
  lemma {:induction false} FreshMemoryBound(f: Fresh, j: nat)
    requires Sane(f) && j <= f.Count()
    ensures f.Mem(j) <= f.Pos(j) + NobitsTotal(f.secs, f.seg.secs, j)
  {
    hide Fresh.Pos, Fresh.Gap, Fresh.Place, Fresh.File, Fresh.Mem, Fresh.Skipped, CountsInMemory, FreshGap;
    if j == 0 {
      AtZero(f);
    } else {
      Next(f, j - 1);
      FreshMemoryBound(f, j - 1);
    }
  }

  /** The sizes of a fresh segment, while the exact ones fit the class. */
  lemma FreshMemory(f: Fresh, m: nat, g: Seg, secs: seq<Sec>, end: nat)
    requires Sane(f) && 0 < m <= M64 && ByFresh(f, m, g, secs, end) && end < m && f.Mem(f.Count()) < m
    ensures g.filesz == f.File(f.Count()) && g.memsz == Max(f.seg.memsz, f.Mem(f.Count()))
    ensures FileIsMemory(f.seg, f.secs) ==> g.filesz <= g.memsz
  {
    hide SettledAt, Fresh.Pos, Fresh.File, Fresh.Mem, FileIsMemory;
    FreshSizes(f, m, g, secs, end);
    ModShift(0, m, f.Mem(f.Count()));
    if FileIsMemory(f.seg, f.secs) { FreshCovers(f, f.Count()); }
  }

  // ---------------------------------------------------------------- sections placed already

  /** What the counted NOBITS sections among the first j add to the memory size: each its size and
      its distance from the end of the file-backed section before it, or from the current position
      when the segment starts with the null section and no file-backed one came yet. */
  function Balance(p: Shared, j: nat): int
    requires p.Ok() && j <= p.Count()
  {
    if j == 0 then 0
    else if p.Sec(j - 1).stype == SHT_NOBITS && CountsInMemory(p.seg, p.Sec(j - 1)) then
      Balance(p, j - 1) + p.Sec(j - 1).offset + p.Sec(j - 1).size - p.start - p.File(j - 1)
    else Balance(p, j - 1)
  }

  /** It is the difference between memory and file size. */
  lemma {:induction false} BalanceIs(p: Shared, j: nat)
    requires p.Ok() && j <= p.Count() && FileIsMemory(p.seg, p.secs)
    ensures p.Mem(j) == p.File(j) + Balance(p, j)
  {
    hide CountsInMemory;
    if j > 0 {
      BalanceIs(p, j - 1);
      assert InFile(p.Sec(j - 1)) ==> CountsInMemory(p.seg, p.Sec(j - 1));
    }
  }

  /** File-backed sections among the first j. */
  predicate SomeBacked(p: Shared, j: nat)
    requires p.Ok() && j <= p.Count()
  {
    exists b :: 0 <= b < j && InFile(p.Sec(b))
  }

  /** From the first file-backed section on, and in a segment that does not start with the null
      section from the beginning, the file size reaches no further than the next section. */
  lemma {:induction false} NextBehindFile(p: Shared, j: nat, x: nat)
    requires p.Ok() && j <= x < p.Count() && p.Sec(x).stype != SHT_NULL && ListInOrder(p.secs, p.seg.secs)
    requires SomeBacked(p, j) || (p.size == 0 && p.start <= p.Sec(x).offset)
    ensures p.start + p.File(j) <= p.Sec(x).offset
    decreases j
  {
    hide ListInOrder, Shared.File;
    FileStep(p, j);
    if j > 0 {
      if InFile(p.Sec(j - 1)) {
        BackedBefore(p, j - 1, x);
      } else {
        NextBehindFile(p, j - 1, x);
      }
    }
  }

  lemma FileStep(p: Shared, j: nat)
    requires p.Ok() && j <= p.Count()
    ensures p.File(j) == if j == 0 then p.size else if InFile(p.Sec(j - 1)) then EndOf(p.Sec(j - 1)) - p.start else p.File(j - 1)
  {}

  lemma BackedBefore(p: Shared, a: nat, b: nat)
    requires p.Ok() && a < b < p.Count() && InFile(p.Sec(a)) && p.Sec(b).stype != SHT_NULL && ListInOrder(p.secs, p.seg.secs)
    ensures EndOf(p.Sec(a)) <= p.Sec(b).offset
  {
    assert Real(p.secs, p.seg.secs[a]) && Real(p.secs, p.seg.secs[b]);
  }

  /** No counted NOBITS section stands in front of the first file-backed one: something a caller
      can see. */
  predicate NobitsBehind(p: Shared)
    requires p.Ok()
  {
    forall a :: 0 <= a < p.Count() && p.Sec(a).stype == SHT_NOBITS && CountsInMemory(p.seg, p.Sec(a)) ==> SomeBacked(p, a)
  }

  lemma {:induction false} BalanceGrows(p: Shared, j: nat)
    requires p.Ok() && j <= p.Count() && ListInOrder(p.secs, p.seg.secs)
    requires NobitsBehind(p) || (p.size == 0 && forall a :: 0 <= a < p.Count() && p.Sec(a).stype != SHT_NULL ==> p.start <= p.Sec(a).offset)
    ensures 0 <= Balance(p, j)
  {
    hide ListInOrder, Shared.File, CountsInMemory, SomeBacked;
    if j > 0 {
      BalanceGrows(p, j - 1);
      if p.Sec(j - 1).stype == SHT_NOBITS && CountsInMemory(p.seg, p.Sec(j - 1)) {
        NextBehindFile(p, j - 1, j - 1);
      }
    }
  }

  /** The sizes of a segment over sections placed already, while the exact ones fit the class: the
      file size is within the memory size unless the segment starts with the null section, its
      balance is negative, and it does not bring along a memory size that large. */
  lemma SharedMemory(seg: Seg, secs: seq<Sec>, turn: nat, m: nat, g: Seg)
    requires IndicesOk(seg, |secs|) && Placeable(seg, secs) && ListInOrder(secs, seg.secs) && turn < m <= M64
    requires forall a :: 0 <= a < |seg.secs| && Real(secs, seg.secs[a]) ==> EndOf(secs[seg.secs[a]]) <= turn
    requires var p := SharedFrom(seg, secs, turn); ByShared(p, m, g) && 0 <= p.Mem(p.Count()) < m
    ensures var p := SharedFrom(seg, secs, turn);
            && g.filesz == p.File(p.Count()) && g.memsz == Max(seg.memsz, p.Mem(p.Count()))
            && (FileIsMemory(seg, secs) ==>
                  (g.filesz <= g.memsz <==>
                     (StartsWithNull(seg, secs) ==> Balance(p, p.Count()) >= 0 || g.filesz <= seg.memsz)))
            && (NobitsBehind(p) ==> Balance(p, p.Count()) >= 0)
  {
    hide Shared.File, Shared.Mem, ListInOrder, FileIsMemory, Balance, NobitsBehind;
    var p := SharedFrom(seg, secs, turn);
    SharedEncloses(seg, secs, turn, m, g);
    if FileIsMemory(seg, secs) { BalanceIs(p, p.Count()); }
    ModShift(0, m, p.Mem(p.Count()));
    assert W64(p.Mem(p.Count())) == p.Mem(p.Count());
    SharedStarts(seg, secs, turn);
    if !StartsWithNull(seg, secs) || NobitsBehind(p) {
      BalanceGrows(p, p.Count());
    }
  }

  // ---------------------------------------------------------------- the whole layout

  /** The exact memory size of the segment of step q, before it is cut to a word. */
  ghost function ExactMemory(h: Head, segs: seq<Seg>, order: seq<nat>, secs: seq<Sec>, pos: nat, q: nat): int
    requires Laid(h, segs, order, secs, pos) && q < |order| && HasReal(segs[order[q]], secs)
  {
    TypesKept(h, segs, order, secs, pos);
    RealPlaceable(segs[order[q]], secs);
    if FirstToPlace(segs, order, secs, q) then
      FreshAt(h, segs, order, secs, pos, q).Mem(|segs[order[q]].secs|)
    else
      SharedAt(h, segs, order, secs, pos, q).Mem(|segs[order[q]].secs|)
  }

  /** The segment starts with the null section, others placed its sections, and counted NOBITS
      sections pull the memory size below the file size. */
  ghost predicate FallsShort(h: Head, segs: seq<Seg>, order: seq<nat>, secs: seq<Sec>, pos: nat, q: nat)
    requires Laid(h, segs, order, secs, pos) && q < |order| && HasReal(segs[order[q]], secs)
  {
    TypesKept(h, segs, order, secs, pos);
    RealPlaceable(segs[order[q]], secs);
    && StartsWithNull(segs[order[q]], secs)
    && !FirstToPlace(segs, order, secs, q)
    && Balance(SharedAt(h, segs, order, secs, pos, q), |segs[order[q]].secs|) < 0
  }

  /** Over the whole layout, when segments are pairwise disjoint, equal or nested: the segment of
      step q, whose exact memory size fits the class, gets that memory size, or the larger one it
      brought along. If its file-backed sections are all in memory, its file size is within its
      memory size exactly unless it falls short of what it brought along. A segment that places its
      sections itself, or that does not start with the null section, or whose counted NOBITS
      sections all stand behind a file-backed one, never falls short. */
  lemma FileSizeWithinMemory(h: Head, segs: seq<Seg>, order: seq<nat>, secs: seq<Sec>, pos: nat, q: nat)
    requires Laid(h, segs, order, secs, pos) && q < |order| && Nesting(segs, order)
    requires LayoutAll(h, segs, order, secs, pos).shoff < h.m <= M64 && HasReal(segs[order[q]], secs)
    requires 0 <= ExactMemory(h, segs, order, secs, pos, q) < h.m
    ensures var r, seg := LayoutAll(h, segs, order, secs, pos), segs[order[q]];
            && |r.segs| == |segs|
            && r.segs[order[q]].memsz == Max(seg.memsz, ExactMemory(h, segs, order, secs, pos, q))
            && (FileIsMemory(seg, secs) ==>
                  (r.segs[order[q]].filesz <= r.segs[order[q]].memsz <==>
                     (FallsShort(h, segs, order, secs, pos, q) ==> r.segs[order[q]].filesz <= seg.memsz)))
            && (NobitsFollow(seg, secs) ==> !FallsShort(h, segs, order, secs, pos, q))
  {
    hide LayoutAll, Laid, HasReal, ListInOrder, ByFresh, ByShared, FirstToPlace, AllPlaced, Placeable, Turn, Nesting, FreshAt, SharedAt,
         FileIsMemory, Balance, Fresh.Mem, Fresh.File, Shared.Mem, Shared.File, NobitsFollow;
    LaidInput(h, segs, order, secs, pos);
    TypesKept(h, segs, order, secs, pos);
    var seg, r, turn := segs[order[q]], LayoutAll(h, segs, order, secs, pos), Turn(h, segs, order, secs, pos, q);
    RealPlaceable(seg, secs);
    if FirstToPlace(segs, order, secs, q) {
      NestingSorted(segs, order);
      FreshInLayout(h, segs, order, secs, pos, q);
      FreshSaneAt(h, segs, order, secs, pos, q);
      FreshMemory(FreshAt(h, segs, order, secs, pos, q), h.m, r.segs[order[q]], r.cur.secs, r.shoff);
    } else {
      FreshOrShared(segs, order, secs, q);
      SharedInLayout(h, segs, order, secs, pos, q);
      ListsInOrder(h, segs, order, secs, pos, q);
      SharedAtIs(h, segs, order, secs, pos, q);
      RealsKept(secs, r.cur.secs, seg, turn);
      FlagsKept(seg, secs, r.cur.secs);
      SharedMemory(seg, r.cur.secs, turn, h.m, r.segs[order[q]]);
      if NobitsFollow(seg, secs) {
        FollowBehind(seg, secs, SharedAt(h, segs, order, secs, pos, q));
      }
    }
  }

  /** In terms of what layout is given: every counted NOBITS section of the list has a file-backed
      one in front of it. */
  predicate NobitsFollow(seg: Seg, secs: seq<Sec>)
    requires IndicesOk(seg, |secs|)
  {
    forall a :: 0 <= a < |seg.secs| && secs[seg.secs[a]].stype == SHT_NOBITS && CountsInMemory(seg, secs[seg.secs[a]]) ==>
      exists b :: 0 <= b < a && InFile(secs[seg.secs[b]])
  }

  lemma FollowBehind(seg: Seg, secs: seq<Sec>, p: Shared)
    requires IndicesOk(seg, |secs|) && NobitsFollow(seg, secs) && p.Ok() && p.seg == seg
    requires |p.secs| == |secs| && forall x :: 0 <= x < |secs| ==> SameData(secs[x], p.secs[x])
    ensures NobitsBehind(p)
  {
    forall a | 0 <= a < p.Count() && p.Sec(a).stype == SHT_NOBITS && CountsInMemory(p.seg, p.Sec(a)) ensures SomeBacked(p, a) {
      assert SameData(secs[seg.secs[a]], p.Sec(a));
      var b :| 0 <= b < a && InFile(secs[seg.secs[b]]);
      assert InFile(p.Sec(b));
    }
  }

  lemma FlagsKept(seg: Seg, secs: seq<Sec>, after: seq<Sec>)
    requires IndicesOk(seg, |secs|) && |after| == |secs| && forall x :: 0 <= x < |secs| ==> SameData(secs[x], after[x])
    ensures FileIsMemory(seg, secs) <==> FileIsMemory(seg, after)
    ensures StartsWithNull(seg, secs) <==> StartsWithNull(seg, after)
  {}

  // ---------------------------------------------------------------- an input on which it fails

  /** A 64-bit object: four bytes of NOBITS with a preset address and fifty bytes of data. */
  const SHORT_SECS: seq<Sec> := [Sec(SHT_NULL, 0, 0, 0, 0, false, 0),
                                 Sec(SHT_NOBITS, 2, 4, 1, 0, true, 0),
                                 Sec(1, 2, 50, 1, 176, true, 0)]

  /** Two segments start with the null section; the second is nested in the first. */
  const SHORT_SEGS: seq<Seg> := [Seg(1, 0, 1, 0, 0, 0, [0, 1, 2]), Seg(1, 0, 1, 0, 0, 0, [0, 1])]

  const SHORT_HEAD: Head := Head(M64, 64, 112)

  /** What the first segment leaves: sections 1 and 2 at 176, the position at 226. */
  const SHORT_PLACED: seq<Sec> := [SHORT_SECS[0], SHORT_SECS[1].(offset := 176), SHORT_SECS[2].(offset := 176)]

  const SHORT_CURSOR: Cursor := Cursor(SHORT_PLACED, [true, true, true], 226, [1, 2])

  /** The layout gives the second segment 226 bytes in the file and 180 in memory. */
  lemma SharedMemoryFallsShort()
    ensures Nesting(SHORT_SEGS, [0, 1]) && FileIsMemory(SHORT_SEGS[1], SHORT_SECS)
    ensures var r := LayoutAll(SHORT_HEAD, SHORT_SEGS, [0, 1], SHORT_SECS, 176);
            r.ok && |r.segs| == 2 && r.segs[1].filesz == 226 && r.segs[1].memsz == 180
  {
    ShortNesting();
    FirstShort();
    SecondShort();
    hide SegmentRun, Start, Finish, LooseFrom, IsSubsequenceOf, Nesting, FileIsMemory;
    var h, c0 := SHORT_HEAD, StartCursor(SHORT_SECS, 176);
    var f0 := Finish(h, SHORT_SEGS[0], Start(h, SHORT_SEGS[0], c0).0, SegmentRun(h, SHORT_SEGS[0], c0));
    var f1 := Finish(h, SHORT_SEGS[1], Start(h, SHORT_SEGS[1], SHORT_CURSOR).0, SegmentRun(h, SHORT_SEGS[1], SHORT_CURSOR));
    FinishSameSections(h, SHORT_SEGS, [0, 1], 0, c0);
    var mid := SHORT_SEGS[0 := f0];
    FinishSameSections(h, mid, [0, 1], 1, SHORT_CURSOR);
    var last := mid[1 := f1];
    assert LayoutSegments(h, last, [0, 1], 2, SHORT_CURSOR) == Outcome(true, last, SHORT_CURSOR);
    assert LayoutSegments(h, mid, [0, 1], 1, SHORT_CURSOR) == Outcome(true, last, SHORT_CURSOR);
    assert LayoutSegments(h, SHORT_SEGS, [0, 1], 0, c0) == Outcome(true, last, SHORT_CURSOR);
  }

  lemma ShortNesting()
    ensures Nesting(SHORT_SEGS, [0, 1]) && FileIsMemory(SHORT_SEGS[1], SHORT_SECS)
  {
    var a, b := SHORT_SEGS[0].secs, SHORT_SEGS[1].secs;
    ShortLists(a, b);
    hide Elements, IsSubsequenceOf, Increasing;
    assert Sorted(SHORT_SEGS);
    assert SupersetsFirst(SHORT_SEGS, [0, 1]);
    assert Elements(a) <= Elements(a) && Elements(b) <= Elements(b);
    assert Laminar(SHORT_SEGS);
  }

  lemma ShortLists(a: seq<nat>, b: seq<nat>)
    requires a == [0, 1, 2] && b == [0, 1]
    ensures Increasing(a) && Increasing(b) && Elements(b) <= Elements(a) && !IsSubsequenceOf(a, b)
  {
    SubsequenceIsProperSubset(a, b);
    assert 2 in a && 2 !in b;
    assert 2 in Elements(a) && 2 !in Elements(b);
    forall x | x in Elements(b) ensures x in Elements(a) {
      assert x == a[0] || x == a[1];
    }
  }

  lemma FirstShort()
    ensures SegmentRun(SHORT_HEAD, SHORT_SEGS[0], StartCursor(SHORT_SECS, 176)) == Run(true, SHORT_CURSOR, 226, 230)
  {
    var h, seg, c0 := SHORT_HEAD, SHORT_SEGS[0], StartCursor(SHORT_SECS, 176);
    assert Start(h, seg, c0) == (0, 176, 176);
    var r0 := Run(true, c0, 176, 176);
    assert c0.(pos := 176) == c0;
    var r1 := Run(true, Cursor(SHORT_SECS, [true, false, false], 176, []), 176, 176);
    assert Place(h, seg, 0, 0, r0) == r1 by {
      assert c0.gen[0 := true] == [true, false, false];
    }
    var two := [SHORT_SECS[0], SHORT_SECS[1].(offset := 176), SHORT_SECS[2]];
    var r2 := Run(true, Cursor(two, [true, true, false], 176, [1]), 176, 180);
    FirstNobits(two);
    var r3 := Run(true, SHORT_CURSOR, 226, 230);
    FirstData(two);
    hide Place, SHORT_CURSOR;
    assert PlaceFrom(h, seg, 0, 3, r3) == r3;
    assert PlaceFrom(h, seg, 0, 2, r2) == r3;
    assert PlaceFrom(h, seg, 0, 1, r1) == r3;
  }

  lemma FirstNobits(two: seq<Sec>)
    requires two == [SHORT_SECS[0], SHORT_SECS[1].(offset := 176), SHORT_SECS[2]]
    ensures Place(SHORT_HEAD, SHORT_SEGS[0], 0, 1, Run(true, Cursor(SHORT_SECS, [true, false, false], 176, []), 176, 176))
         == Run(true, Cursor(two, [true, true, false], 176, [1]), 176, 180)
  {
    assert SHORT_SECS[1 := SHORT_SECS[1].(offset := 176)] == two;
    assert [true, false, false][1 := true] == [true, true, false];
    assert [] + [1] == [1];
  }

  lemma FirstData(two: seq<Sec>)
    requires two == [SHORT_SECS[0], SHORT_SECS[1].(offset := 176), SHORT_SECS[2]]
    ensures Place(SHORT_HEAD, SHORT_SEGS[0], 0, 2, Run(true, Cursor(two, [true, true, false], 176, [1]), 176, 180))
         == Run(true, SHORT_CURSOR, 226, 230)
  {
    hide Gap, W64;
    DataGap();
    Unwrapped(180 + 50);
    Unwrapped(176 + 50);
    assert two[2 := SHORT_SECS[2].(offset := 176)] == SHORT_PLACED;
    assert [true, true, false][2 := true] == [true, true, true];
    assert [1] + [2] == [1, 2];
  }

  lemma DataGap()
    ensures Gap(SHORT_SEGS[0], 0, SHORT_SECS[2], false, 176, 176) == Some(0)
  {
    hide W64;
    Unwrapped(176);
  }

  lemma Unwrapped(v: nat)
    requires v < M64
    ensures W64(v) == v
  {}

  lemma SecondShort()
    ensures var r := SegmentRun(SHORT_HEAD, SHORT_SEGS[1], SHORT_CURSOR);
            && r == Run(true, SHORT_CURSOR, 226, 180)
            && Finish(SHORT_HEAD, SHORT_SEGS[1], Start(SHORT_HEAD, SHORT_SEGS[1], SHORT_CURSOR).0, r).filesz == 226
            && Finish(SHORT_HEAD, SHORT_SEGS[1], Start(SHORT_HEAD, SHORT_SEGS[1], SHORT_CURSOR).0, r).memsz == 180
  {
    var h, seg, cur := SHORT_HEAD, SHORT_SEGS[1], SHORT_CURSOR;
    assert Start(h, seg, cur) == (0, 226, 226);
    assert cur.(pos := 226) == cur;
    var r0, r2 := Run(true, cur, 226, 226), Run(true, cur, 226, 180);
    assert cur.gen[0 := true] == cur.gen;
    assert Place(h, seg, 0, 0, r0) == r0;
    assert Place(h, seg, 0, 1, r0) == r2;
    assert PlaceFrom(h, seg, 0, 2, r2) == r2;
    assert PlaceFrom(h, seg, 0, 1, r0) == r2;
  }
}
