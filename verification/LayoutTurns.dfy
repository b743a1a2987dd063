/** The position at which each segment gets its turn, computed from what layout is given: so the
    closed forms of LayoutExact.dfy, and every condition stated through them, can be evaluated
    before save is called. */
module LayoutTurns {
  import opened Bytes
  import opened ElfTypes
  import opened Layout
  import opened LayoutSafety
  import opened LayoutSteps
  import opened LayoutExact
  import opened LayoutContainment
  import opened LayoutMemory
  import SegmentOrder

  /** The position moves over the segments that are first to place their sections; a segment with the
      null section alone is only aligned. */
  function TurnOf(segs: seq<Seg>, order: seq<nat>, secs: seq<Sec>, pos: nat, q: nat): nat
    requires q <= |order| && InputOk(segs, order, secs)
  {
    if q == 0 then pos else
      var t, seg := TurnOf(segs, order, secs, pos, q - 1), segs[order[q - 1]];
      if seg.secs == [] then t
      else if !Placeable(seg, secs) then (if Earlier(segs, order, q - 1, seg.secs[0]) then t else AlignedPos(seg, t))
      else if FirstToPlace(segs, order, secs, q - 1) then FreshFrom(seg, secs, t).Pos(|seg.secs|)
      else t
  }

  /** A segment without sections, or with the null section alone. */
  lemma BareMoves(h: Head, seg: Seg, cur: Cursor)
    requires h.m > 0 && |cur.secs| == |cur.gen| && IndicesOk(seg, |cur.secs|)
    requires seg.secs == [] || (|seg.secs| == 1 && cur.secs[seg.secs[0]].stype == SHT_NULL)
    ensures SegmentRun(h, seg, cur).cur.pos
         == if seg.secs == [] || cur.gen[seg.secs[0]] then cur.pos else AlignedPos(seg, cur.pos)
  {
    hide AlignedPos;
    if seg.secs != [] {
      var (start, size, p) := Start(h, seg, cur);
      var r := Run(true, cur.(pos := p), size, size);
      assert PlaceFrom(h, seg, start, 1, Place(h, seg, start, seg.secs[0], r)) == Place(h, seg, start, seg.secs[0], r);
    }
  }

  /** One step of the cursor, when segments are pairwise disjoint, equal or nested. */
  lemma StepMoves(h: Head, segs: seq<Seg>, order: seq<nat>, secs: seq<Sec>, pos: nat, q: nat)
    requires Laid(h, segs, order, secs, pos) && q < |order| && LayoutAll(h, segs, order, secs, pos).shoff < M64 && Nesting(segs, order)
    ensures var seg, t := segs[order[q]], Turn(h, segs, order, secs, pos, q);
            CursorBefore(h, segs, order, secs, pos, q + 1).pos
            == if seg.secs == [] then t
               else if !Placeable(seg, secs) then (if Earlier(segs, order, q, seg.secs[0]) then t else AlignedPos(seg, t))
               else if FirstToPlace(segs, order, secs, q) then FreshFrom(seg, secs, t).Pos(|seg.secs|)
               else t
  {
    hide LayoutAll, Laid, SegmentRun, Start, CursorBefore, Extents, GenMatches, AlignedPos, Earlier, Nesting, FirstToPlace, AllPlaced,
         Fresh.Pos, Shared.File, Shared.Mem;
    LaidInput(h, segs, order, secs, pos);
    StepOfLayout(h, segs, order, secs, pos, q);
    StepCursor(h, segs, order, secs, pos, q);
    var seg, cq := segs[order[q]], CursorBefore(h, segs, order, secs, pos, q);
    if seg.secs == [] || !Placeable(seg, secs) {
      if seg.secs != [] { assert SameData(secs[seg.secs[0]], cq.secs[seg.secs[0]]); }
      BareMoves(h, seg, cq);
    } else if FirstToPlace(segs, order, secs, q) {
      NestingSorted(segs, order);
      FirstUnplaced(segs, order, secs, q, FreshFrom(seg, secs, cq.pos), cq);
      RunIsFresh(h, seg, secs, cq);
    } else {
      FreshOrShared(segs, order, secs, q);
      TypesKept(h, segs, order, secs, pos);
      AllAlreadyPlaced(segs, order, secs, q, SharedAt(h, segs, order, secs, pos, q), cq);
      SharedAtIs(h, segs, order, secs, pos, q);
      RunIsShared(h, seg, LayoutAll(h, segs, order, secs, pos).cur.secs, cq);
    }
  }

  lemma StepCursor(h: Head, segs: seq<Seg>, order: seq<nat>, secs: seq<Sec>, pos: nat, q: nat)
    requires h.m > 0 && q < |order| && InputOk(segs, order, secs)
    ensures CursorBefore(h, segs, order, secs, pos, q + 1) == SegmentRun(h, segs[order[q]], CursorBefore(h, segs, order, secs, pos, q)).cur
  {
    hide SegmentRun;
  }

  /** Turn, read off the cursor of the loop, is that position. */
  lemma {:induction false} TurnIs(h: Head, segs: seq<Seg>, order: seq<nat>, secs: seq<Sec>, pos: nat, q: nat)
    requires Laid(h, segs, order, secs, pos) && q < |order| && LayoutAll(h, segs, order, secs, pos).shoff < M64 && Nesting(segs, order)
    ensures Turn(h, segs, order, secs, pos, q) == TurnOf(segs, order, secs, pos, q)
    ensures FreshAt(h, segs, order, secs, pos, q) == FreshFrom(segs[order[q]], secs, TurnOf(segs, order, secs, pos, q))
    decreases q
  {
    hide LayoutAll, Laid, CursorBefore, Nesting, FirstToPlace, Earlier, AlignedPos, Fresh.Pos;
    LaidInput(h, segs, order, secs, pos);
    if q > 0 {
      TurnIs(h, segs, order, secs, pos, q - 1);
      StepMoves(h, segs, order, secs, pos, q - 1);
    } else {
      FirstTurn(h, segs, order, secs, pos);
    }
  }

  /** And the position behind the last segment. */
  lemma LastTurn(h: Head, segs: seq<Seg>, order: seq<nat>, secs: seq<Sec>, pos: nat)
    requires Laid(h, segs, order, secs, pos) && LayoutAll(h, segs, order, secs, pos).shoff < M64 && Nesting(segs, order)
    ensures CursorBefore(h, segs, order, secs, pos, |order|).pos == TurnOf(segs, order, secs, pos, |order|)
  {
    hide LayoutAll, Laid, CursorBefore, Nesting, FirstToPlace, Earlier, AlignedPos, Fresh.Pos;
    LaidInput(h, segs, order, secs, pos);
    if order == [] {
      FirstTurn(h, segs, order, secs, pos);
    } else {
      TurnIs(h, segs, order, secs, pos, |order| - 1);
      StepMoves(h, segs, order, secs, pos, |order| - 1);
    }
  }

  lemma FirstTurn(h: Head, segs: seq<Seg>, order: seq<nat>, secs: seq<Sec>, pos: nat)
    requires h.m > 0 && InputOk(segs, order, secs)
    ensures CursorBefore(h, segs, order, secs, pos, 0).pos == pos
  {}

  /** Enclosure of any segment, decided before the layout is run. */
  lemma EnclosedByInput(h: Head, segs: seq<Seg>, order: seq<nat>, secs: seq<Sec>, pos: nat, q: nat)
    requires Laid(h, segs, order, secs, pos) && q < |order| && Nesting(segs, order)
    requires LayoutAll(h, segs, order, secs, pos).shoff < h.m <= M64
    ensures var r := LayoutAll(h, segs, order, secs, pos);
            && |r.segs| == |segs|
            && (Inside(r.cur.secs, r.segs[order[q]]) <==>
                  (FirstToPlace(segs, order, secs, q) ==> Flush(FreshFrom(segs[order[q]], secs, TurnOf(segs, order, secs, pos, q)))))
  {
    hide LayoutAll, Laid, Nesting, FirstToPlace, Flush, FreshAt, FreshFrom, Inside, HasReal, TurnOf, Turn;
    LaidInput(h, segs, order, secs, pos);
    TurnIs(h, segs, order, secs, pos, q);
    EnclosedExactly(h, segs, order, secs, pos, q);
  }

  // ---------------------------------------------------------------- what a nested segment owes

  /** Where section x of a segment laid out afresh goes. */
  ghost function PlaceIn(f: Fresh, x: nat): nat
    requires f.Ok() && x in f.seg.secs
  {
    var a: nat :| a < f.Count() && f.seg.secs[a] == x;
    f.Place(a)
  }

  predicate Within(seg: Seg, f: Fresh) {
    f.Ok() && forall j :: 0 <= j < |seg.secs| ==> seg.secs[j] in f.seg.secs
  }

  /** The file up to the last file-backed section among the first j of the list, or up to the
      position of the segment's turn when there is none. */
  ghost function Reached(f: Fresh, seg: Seg, turn: nat, j: nat): nat
    requires Within(seg, f) && j <= |seg.secs|
  {
    if j == 0 then turn
    else if InFile(f.secs[seg.secs[j - 1]]) then PlaceIn(f, seg.secs[j - 1]) + f.secs[seg.secs[j - 1]].size
    else Reached(f, seg, turn, j - 1)
  }

  /** What the counted NOBITS sections bring, less the bytes placed between each of them and what is
      reached: in front of the first file-backed section, all bytes placed up to the turn. */
  ghost function Owed(f: Fresh, seg: Seg, turn: nat, j: nat): int
    requires Within(seg, f) && j <= |seg.secs|
  {
    if j == 0 then 0
    else if f.secs[seg.secs[j - 1]].stype == SHT_NOBITS && CountsInMemory(seg, f.secs[seg.secs[j - 1]]) then
      Owed(f, seg, turn, j - 1) + f.secs[seg.secs[j - 1]].size - (Reached(f, seg, turn, j - 1) - PlaceIn(f, seg.secs[j - 1]))
    else Owed(f, seg, turn, j - 1)
  }

  lemma PlacedRecord(f: Fresh, m: nat, secs: seq<Sec>, x: nat)
    requires Sane(f) && m > 0 && SettledAt(f, m, f.Count(), secs) && x in f.seg.secs
    ensures x < |secs| == |f.secs| && secs[x].stype == f.secs[x].stype
    ensures f.secs[x].stype != SHT_NULL ==>
              && secs[x].offset == PlaceIn(f, x) && secs[x].size == f.secs[x].size && secs[x].flags == f.secs[x].flags
  {
    hide Fresh.Place, Fresh.Pos;
    var a: nat :| a < f.Count() && f.seg.secs[a] == x && PlaceIn(f, x) == f.Place(a);
    SettledRecord(f, m, secs, a);
  }

  lemma SettledRecord(f: Fresh, m: nat, secs: seq<Sec>, a: nat)
    requires Sane(f) && m > 0 && SettledAt(f, m, f.Count(), secs) && a < f.Count()
    ensures var x := f.seg.secs[a];
            && x < |secs| == |f.secs| && secs[x].stype == f.secs[x].stype
            && (f.secs[x].stype != SHT_NULL ==>
                  secs[x].offset == f.Place(a) && secs[x].size == f.secs[x].size && secs[x].flags == f.secs[x].flags)
  {
    hide Fresh.Place, Fresh.Pos;
    PlaceOfSection(f, m, secs, a);
  }

  lemma {:induction false} BalanceIsOwed(f: Fresh, m: nat, p: Shared, turn: nat, j: nat)
    requires Sane(f) && m > 0 && p.Ok() && SettledAt(f, m, f.Count(), p.secs) && Within(p.seg, f)
    requires p.start == 0 && p.size == turn && j <= p.Count()
    ensures p.File(j) == Reached(f, p.seg, turn, j) && Balance(p, j) == Owed(f, p.seg, turn, j)
  {
    hide PlaceIn, SettledAt, Fresh.Place, Fresh.Pos, Sane;
    if j > 0 {
      BalanceIsOwed(f, m, p, turn, j - 1);
      assert p.seg.secs[j - 1] in f.seg.secs;
      PlacedRecord(f, m, p.secs, p.seg.secs[j - 1]);
    }
  }

  /** The segment of step q starts with the null section and lies in that of step p, which placed its
      sections: it falls short exactly when it owes. Both sides of the condition are input. */
  lemma FallsShortIff(h: Head, segs: seq<Seg>, order: seq<nat>, secs: seq<Sec>, pos: nat, p: nat, q: nat)
    requires Laid(h, segs, order, secs, pos) && p < |order| && q < |order| && Nesting(segs, order)
    requires LayoutAll(h, segs, order, secs, pos).shoff < h.m <= M64 && HasReal(segs[order[q]], secs)
    requires StartsWithNull(segs[order[q]], secs) && !FirstToPlace(segs, order, secs, q)
    requires FirstToPlace(segs, order, secs, p) && SegmentOrder.Elements(segs[order[q]].secs) <= SegmentOrder.Elements(segs[order[p]].secs)
    ensures var f := FreshFrom(segs[order[p]], secs, TurnOf(segs, order, secs, pos, p));
            && Within(segs[order[q]], f)
            && (FallsShort(h, segs, order, secs, pos, q) <==>
                  Owed(f, segs[order[q]], TurnOf(segs, order, secs, pos, q), |segs[order[q]].secs|) < 0)
  {
    hide LayoutAll, Laid, Nesting, FirstToPlace, FreshFrom, TurnOf, Turn, SharedAt, Balance, Owed, Placeable, ByFresh, FreshAt, HasReal,
         SettledAt, Sane;
    LaidInput(h, segs, order, secs, pos);
    TypesKept(h, segs, order, secs, pos);
    TurnIs(h, segs, order, secs, pos, p);
    TurnIs(h, segs, order, secs, pos, q);
    var seg, r, f := segs[order[q]], LayoutAll(h, segs, order, secs, pos), FreshAt(h, segs, order, secs, pos, p);
    forall j | 0 <= j < |seg.secs| ensures seg.secs[j] in f.seg.secs {
      assert seg.secs[j] in SegmentOrder.Elements(seg.secs);
    }
    OuterReal(secs, seg, segs[order[p]]);
    RealPlaceable(segs[order[p]], secs);
    RealPlaceable(seg, secs);
    NestingSorted(segs, order);
    FreshInLayout(h, segs, order, secs, pos, p);
    SettledFrom(f, h.m, r.segs[order[p]], r.cur.secs, r.shoff);
    FreshSaneAt(h, segs, order, secs, pos, p);
    SharedAtIs(h, segs, order, secs, pos, q);
    FromNull(seg, secs, r.cur.secs, Turn(h, segs, order, secs, pos, q));
    BalanceIsOwed(f, h.m, SharedAt(h, segs, order, secs, pos, q), Turn(h, segs, order, secs, pos, q), |seg.secs|);
  }

  lemma OuterReal(secs: seq<Sec>, seg: Seg, outer: Seg)
    requires HasReal(seg, secs) && SegmentOrder.Elements(seg.secs) <= SegmentOrder.Elements(outer.secs)
    ensures HasReal(outer, secs)
  {
    var k :| 0 <= k < |seg.secs| && Real(secs, seg.secs[k]);
    assert seg.secs[k] in SegmentOrder.Elements(seg.secs);
    var a :| 0 <= a < |outer.secs| && outer.secs[a] == seg.secs[k];
  }

  lemma FromNull(seg: Seg, secs: seq<Sec>, after: seq<Sec>, turn: nat)
    requires IndicesOk(seg, |secs|) && |after| == |secs| && StartsWithNull(seg, secs) && Placeable(seg, after)
    requires forall x :: 0 <= x < |secs| ==> after[x].stype == secs[x].stype
    ensures SharedFrom(seg, after, turn).start == 0 && SharedFrom(seg, after, turn).size == turn
  {}
}
