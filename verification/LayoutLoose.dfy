/** The sections outside all segments and the section header table: exactly where layout puts them. */
module LayoutLoose {
  import opened ElfTypes
  import opened Layout
  import opened LayoutSafety
  import opened LayoutSteps

  /** p is the first multiple of n from position e on. */
  predicate First(p: nat, e: nat, n: nat) {
    if n > 1 then p % n == 0 && e <= p < e + n else p == e
  }

  /** Bytes in the file: none of a section of type SHT_NULL (0) or SHT_NOBITS (8). */
  function BytesOf(s: Sec): nat { if s.stype == 0 || s.stype == 8 then 0 else s.size }

  /** Section x, found at position e and left at position f. */
  predicate Follows(x: nat, s: Sec, after: Sec, e: nat, f: nat) {
    && f >= BytesOf(s) && First(f - BytesOf(s), e, s.addralign)
    && after == if x == 0 then s else s.(offset := f - BytesOf(s))
  }

  /** From section x on, the sections outside segments follow each other in the order of their
      numbers; ends[y] is the position before section y. */
  ghost predicate InRow(segs: seq<Seg>, x: nat, secs: seq<Sec>, after: seq<Sec>, ends: seq<nat>) {
    && x <= |secs| == |after| && |ends| == |secs| + 1
    && forall y, z :: x <= y < |secs| && z == y + 1 ==>
         if InSegment(segs, y) then ends[z] == ends[y] else Follows(y, secs[y], after[y], ends[y], ends[z])
  }

  lemma RoundsUp(pos: nat, n: nat)
    ensures First(RoundUp(pos, n), pos, n)
  {
    RoundUpGrows(pos, n);
  }

  lemma TableFirst(pos: nat)
    ensures First(TableAt(pos), pos, 4)
  {}

  /** The sections below x are done. */
  lemma {:induction false} LooseRow(segs: seq<Seg>, x: nat, cur: Cursor) returns (ends: seq<nat>)
    requires x <= |cur.secs|
    ensures var e := LooseFrom(segs, x, cur);
            && InRow(segs, x, cur.secs, e.secs, ends) && ends[x] == cur.pos && ends[|cur.secs|] == e.pos
            && forall y :: 0 <= y < x ==> e.secs[y] == cur.secs[y]
    decreases |cur.secs| - x
  {
    hide InSegment, LooseStep, Follows;
    if x == |cur.secs| {
      ends := seq(|cur.secs| + 1, _ => cur.pos);
    } else if InSegment(segs, x) {
      ends := LooseRow(segs, x + 1, cur);
      ends := ends[x := cur.pos];
    } else {
      StepFollows(x, cur);
      var next := LooseStep(x, cur);
      ends := LooseRow(segs, x + 1, next);
      ends := ends[x := cur.pos];
    }
  }

  lemma StepFollows(x: nat, cur: Cursor)
    requires x < |cur.secs|
    ensures var next := LooseStep(x, cur);
            && |next.secs| == |cur.secs| && (forall y :: 0 <= y < |cur.secs| && y != x ==> next.secs[y] == cur.secs[y])
            && Follows(x, cur.secs[x], next.secs[x], cur.pos, next.pos)
  {
    RoundsUp(cur.pos, cur.secs[x].addralign);
  }

  // ---------------------------------------------------------------- the whole layout

  /** The cursor after the last segment. */
  lemma {:induction false} LastCursor(base: nat, h: Head, segs0: seq<Seg>, c0: Cursor, segs: seq<Seg>, order: seq<nat>, k: nat)
    requires h.m > 0 && k <= |order| && WellIndexed(segs0, order, c0) && Distinct(order)
    requires |segs| == |segs0| && (forall p :: k <= p < |order| ==> segs[order[p]] == segs0[order[p]])
    requires forall i :: 0 <= i < |segs| ==> segs[i].secs == segs0[i].secs
    requires Good(base, CursorAt(h, segs0, order, c0, k)) && WellIndexed(segs, order, CursorAt(h, segs0, order, c0, k))
    requires LayoutSegments(h, segs, order, k, CursorAt(h, segs0, order, c0, k)).ok
    ensures LayoutSegments(h, segs, order, k, CursorAt(h, segs0, order, c0, k)).cur == CursorAt(h, segs0, order, c0, |order|)
    decreases |order| - k
  {
    hide Extents, GenMatches, SegmentRun, Start, Finish;
    if k < |order| {
      var cur := CursorAt(h, segs0, order, c0, k);
      var seg := segs[order[k]];
      var r := SegmentRun(h, seg, cur);
      SegmentKeeps(base, h, seg, cur);
      FinishSameSections(h, segs, order, k, cur);
      NextCursor(h, segs0, order, c0, k);
      LastCursor(base, h, segs0, c0, segs[order[k] := Finish(h, seg, Start(h, seg, cur).0, r)], order, k + 1);
    }
  }

  /** Behind the last segment, and then in the order of their numbers, every section outside all
      segments stands at the first position with its alignment, and the section header table at the
      first multiple of four behind them. Section 0 keeps its offset. */
  lemma LooseExactly(h: Head, segs: seq<Seg>, order: seq<nat>, secs: seq<Sec>, pos: nat) returns (ends: seq<nat>)
    requires Laid(h, segs, order, secs, pos)
    ensures var r := LayoutAll(h, segs, order, secs, pos);
            && |ends| == |secs| + 1 && ends[0] == CursorBefore(h, segs, order, secs, pos, |order|).pos
            && InRow(segs, 0, secs, r.cur.secs, ends)
            && First(r.shoff, ends[|secs|], 4)
  {
    hide LayoutSegments, LooseFrom, CursorAt, Extents, GenMatches, SegmentRun, Start, Finish, Follows, First, TableAt;
    LaidInput(h, segs, order, secs, pos);
    var c0 := StartCursor(secs, pos);
    StartGood(secs, pos, segs, order);
    CursorZero(h, segs, order, c0);
    LayoutShape(h, segs, order, 0, c0);
    SegmentsKeep(pos, h, segs, order, 0, c0);
    LastCursor(pos, h, segs, c0, segs, order, 0);
    var o := LayoutSegments(h, segs, order, 0, c0);
    ends := LooseRow(o.segs, 0, o.cur);
    TableFirst(LooseFrom(o.segs, 0, o.cur).pos);
    forall y | 0 <= y < |secs| ensures InSegment(segs, y) <==> InSegment(o.segs, y) {
      SameMembership(segs, o.segs, y);
    }
    forall y | 0 <= y < |secs| && !InSegment(segs, y) ensures o.cur.secs[y] == secs[y] {
      OrderCovers(segs, order, secs, y);
    }
  }

  // ---------------------------------------------------------------- section 0

  lemma {:induction false} PlaceFromZero(h: Head, seg: Seg, start: nat, j: nat, r: Run)
    requires h.m > 0 && j <= |seg.secs| && |r.cur.secs| == |r.cur.gen| > 0 && IndicesOk(seg, |r.cur.secs|)
    ensures var e := PlaceFrom(h, seg, start, j, r); |e.cur.secs| == |r.cur.secs| && e.cur.secs[0].offset == r.cur.secs[0].offset
    decreases |seg.secs| - j
  {
    hide Gap;
    if j < |seg.secs| && r.ok {
      PlaceFromZero(h, seg, start, j + 1, Place(h, seg, start, seg.secs[j], r));
    }
  }

  lemma {:induction false} SegmentsZero(h: Head, segs: seq<Seg>, order: seq<nat>, k: nat, cur: Cursor)
    requires h.m > 0 && k <= |order| && WellIndexed(segs, order, cur) && |cur.secs| > 0
    ensures var o := LayoutSegments(h, segs, order, k, cur);
            |o.cur.secs| == |cur.secs| && o.cur.secs[0].offset == cur.secs[0].offset
    decreases |order| - k
  {
    hide Start, PlaceFrom;
    if k < |order| {
      var seg := segs[order[k]];
      var (start, size, pos) := Start(h, seg, cur);
      var r := SegmentRun(h, seg, cur);
      PlaceFromShape(h, seg, start, 0, Run(true, cur.(pos := pos), size, size));
      PlaceFromZero(h, seg, start, 0, Run(true, cur.(pos := pos), size, size));
      if r.ok {
        SegmentsZero(h, segs[order[k] := Finish(h, seg, start, r)], order, k + 1, r.cur);
      }
    }
  }

  lemma {:induction false} LooseZero(segs: seq<Seg>, x: nat, cur: Cursor)
    requires x <= |cur.secs| && |cur.secs| > 0
    ensures LooseFrom(segs, x, cur).secs[0].offset == cur.secs[0].offset
    decreases |cur.secs| - x
  {
    if x < |cur.secs| {
      LooseZero(segs, x + 1, if InSegment(segs, x) then cur else LooseStep(x, cur));
    }
  }

  /** Whatever section 0 is and whether or not the layout is refused, it keeps its offset. */
  lemma SectionZeroStays(h: Head, segs: seq<Seg>, order: seq<nat>, secs: seq<Sec>, pos: nat)
    requires h.m > 0 && |secs| > 0 && WellIndexed(segs, order, StartCursor(secs, pos))
    ensures var r := LayoutAll(h, segs, order, secs, pos);
            |r.cur.secs| == |secs| && r.cur.secs[0].offset == secs[0].offset
  {
    hide LayoutSegments, LooseFrom;
    var c0 := StartCursor(secs, pos);
    LayoutShape(h, segs, order, 0, c0);
    SegmentsZero(h, segs, order, 0, c0);
    var o := LayoutSegments(h, segs, order, 0, c0);
    LooseZero(o.segs, 0, o.cur);
  }
}
