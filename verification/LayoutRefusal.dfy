/** When save refuses a layout, decided from its input: some section with a preset address would have
    to go behind the position at which its segment has arrived. */
module LayoutRefusal {
  import opened Bytes
  import opened ElfTypes
  import opened Layout
  import opened LayoutSafety
  import opened LayoutSteps
  import opened LayoutExact
  import opened LayoutRows
  import opened LayoutTurns
  import SegmentOrder

  /** No section that the segment of step q is first to place lies behind. */
  predicate StepFits(segs: seq<Seg>, order: seq<nat>, secs: seq<Sec>, pos: nat, q: nat)
    requires q < |order| && InputOk(segs, order, secs)
  {
    var seg := segs[order[q]];
    Placeable(seg, secs) && FirstToPlace(segs, order, secs, q) ==>
      var f := FreshFrom(seg, secs, TurnOf(segs, order, secs, pos, q));
      forall a :: 0 <= a < |seg.secs| ==> !BehindAt(f, a)
  }

  predicate AllFit(segs: seq<Seg>, order: seq<nat>, secs: seq<Sec>, pos: nat)
    requires InputOk(segs, order, secs)
  {
    forall q :: 0 <= q < |order| ==> StepFits(segs, order, secs, pos, q)
  }

  /** No position reaches 2^64. */
  predicate Bounded(segs: seq<Seg>, order: seq<nat>, secs: seq<Sec>, pos: nat)
    requires InputOk(segs, order, secs)
  {
    forall q :: 0 <= q <= |order| ==> TurnOf(segs, order, secs, pos, q) < M64
  }

  /** The cursor before step k of a layout that was not refused before. */
  ghost predicate Arrived(segs: seq<Seg>, order: seq<nat>, secs: seq<Sec>, pos: nat, k: nat, cur: Cursor)
    requires k <= |order| && InputOk(segs, order, secs)
  {
    && |cur.secs| == |cur.gen| == |secs| && Good(pos, cur)
    && (forall x :: 0 <= x < |secs| ==> SameData(secs[x], cur.secs[x]) && (!cur.gen[x] ==> cur.secs[x] == secs[x]))
    && (forall x :: 0 <= x < |secs| ==> (cur.gen[x] <==> Earlier(segs, order, k, x)))
    && cur.pos == TurnOf(segs, order, secs, pos, k)
  }

  lemma EarlierNext(segs: seq<Seg>, order: seq<nat>, k: nat, x: nat)
    requires k < |order| && forall i :: 0 <= i < |order| ==> order[i] < |segs|
    ensures Earlier(segs, order, k + 1, x) <==> Earlier(segs, order, k, x) || x in segs[order[k]].secs
  {}

  /** A segment without sections, or with the null section alone, is never refused. */
  lemma BareRuns(h: Head, seg: Seg, cur: Cursor)
    requires h.m > 0 && |cur.secs| == |cur.gen| && IndicesOk(seg, |cur.secs|)
    requires seg.secs == [] || (|seg.secs| == 1 && cur.secs[seg.secs[0]].stype == SHT_NULL)
    ensures SegmentRun(h, seg, cur).ok
  {
    hide AlignedPos;
    if seg.secs != [] {
      var (start, size, p) := Start(h, seg, cur);
      var r := Run(true, cur.(pos := p), size, size);
      assert PlaceFrom(h, seg, start, 1, Layout.Place(h, seg, start, seg.secs[0], r)) == Layout.Place(h, seg, start, seg.secs[0], r);
    }
  }

  lemma SharedPlaced(segs: seq<Seg>, order: seq<nat>, secs: seq<Sec>, pos: nat, k: nat, cur: Cursor)
    requires k < |order| && InputOk(segs, order, secs) && Arrived(segs, order, secs, pos, k, cur)
    requires Placeable(segs[order[k]], secs) && AllPlaced(segs, order, secs, k)
    ensures Placeable(segs[order[k]], cur.secs) && AlreadyPlaced(SharedFrom(segs[order[k]], cur.secs, cur.pos), cur)
  {
    hide Earlier, Extents, GenMatches, TurnOf;
    var seg := segs[order[k]];
    assert IndicesOk(seg, |secs|);
    forall a | 0 <= a < |seg.secs| && cur.secs[seg.secs[a]].stype != SHT_NULL ensures cur.gen[seg.secs[a]] {
      assert seg.secs[a] in seg.secs && Real(secs, seg.secs[a]);
    }
  }

  /** Whether step k is refused, and where it leaves the position otherwise. */
  lemma StepRuns(h: Head, segs: seq<Seg>, order: seq<nat>, secs: seq<Sec>, pos: nat, k: nat, cur: Cursor)
    requires h.m > 0 && k < |order| && InputOk(segs, order, secs) && Nesting(segs, order)
    requires Arrived(segs, order, secs, pos, k, cur) && cur.pos < M64
    ensures var e := SegmentRun(h, segs[order[k]], cur);
            && (e.ok <==> StepFits(segs, order, secs, pos, k))
            && (e.ok ==> e.cur.pos == TurnOf(segs, order, secs, pos, k + 1))
  {
    hide Earlier, Extents, GenMatches, SegmentRun, Start, Nesting, FirstToPlace, AllPlaced, AlignedPos, BehindAt, Fresh.Pos, SegmentOrder.Increasing;
    var seg := segs[order[k]];
    assert IndicesOk(seg, |secs|);
    if seg.secs == [] || !Placeable(seg, secs) {
      if seg.secs != [] { assert SameData(secs[seg.secs[0]], cur.secs[seg.secs[0]]); }
      BareRuns(h, seg, cur);
      BareMoves(h, seg, cur);
    } else if FirstToPlace(segs, order, secs, k) {
      SortedOne(segs, order, order[k]);
      FirstUnplaced(segs, order, secs, k, FreshFrom(seg, secs, cur.pos), cur);
      RunRefusedIff(h, seg, secs, cur);
      if SegmentRun(h, seg, cur).ok {
        RunIsFresh(h, seg, secs, cur);
      }
    } else {
      FreshOrShared(segs, order, secs, k);
      SharedPlaced(segs, order, secs, pos, k, cur);
      RunIsShared(h, seg, cur.secs, cur);
    }
  }

  lemma SortedOne(segs: seq<Seg>, order: seq<nat>, i: nat)
    requires (forall q :: 0 <= q < |order| ==> order[q] < |segs|) && Nesting(segs, order) && i < |segs|
    ensures SegmentOrder.Increasing(segs[i].secs)
  {}

  lemma StepArrives(h: Head, segs: seq<Seg>, order: seq<nat>, secs: seq<Sec>, pos: nat, k: nat, cur: Cursor)
    requires h.m > 0 && k < |order| && InputOk(segs, order, secs) && Arrived(segs, order, secs, pos, k, cur)
    requires SegmentRun(h, segs[order[k]], cur).ok
    requires SegmentRun(h, segs[order[k]], cur).cur.pos == TurnOf(segs, order, secs, pos, k + 1)
    ensures Arrived(segs, order, secs, pos, k + 1, SegmentRun(h, segs[order[k]], cur).cur)
  {
    hide Earlier, Extents, GenMatches, SegmentRun, TurnOf;
    var seg := segs[order[k]];
    assert IndicesOk(seg, |cur.secs|);
    SegmentKeeps(pos, h, seg, cur);
    var next := SegmentRun(h, seg, cur).cur;
    forall x | 0 <= x < |secs| ensures next.gen[x] <==> Earlier(segs, order, k + 1, x) {
      EarlierNext(segs, order, k, x);
    }
  }

  /** From step k on; segs are the segments as the steps before left them. */
  lemma {:induction false} StepsRefused(h: Head, segs0: seq<Seg>, segs: seq<Seg>, order: seq<nat>, secs: seq<Sec>, pos: nat, k: nat, cur: Cursor)
    requires h.m > 0 && k <= |order| && InputOk(segs0, order, secs) && Nesting(segs0, order) && Distinct(order)
    requires |segs| == |segs0| && (forall p :: k <= p < |order| ==> segs[order[p]] == segs0[order[p]])
    requires forall i :: 0 <= i < |segs| ==> segs[i].secs == segs0[i].secs
    requires Arrived(segs0, order, secs, pos, k, cur) && WellIndexed(segs, order, cur)
    requires Bounded(segs0, order, secs, pos)
    ensures LayoutSegments(h, segs, order, k, cur).ok <==>
            forall q :: k <= q < |order| ==> StepFits(segs0, order, secs, pos, q)
    decreases |order| - k
  {
    hide Extents, GenMatches, SegmentRun, Start, Finish, Arrived, StepFits, TurnOf, Nesting;
    if k < |order| {
      var seg := segs[order[k]];
      ArrivedGood(segs0, order, secs, pos, k, cur);
      var r := SegmentRun(h, seg, cur);
      StepRuns(h, segs0, order, secs, pos, k, cur);
      SegmentKeeps(pos, h, seg, cur);
      if r.ok {
        StepArrives(h, segs0, order, secs, pos, k, cur);
        FinishSameSections(h, segs, order, k, cur);
        StepsRefused(h, segs0, segs[order[k] := Finish(h, seg, Start(h, seg, cur).0, r)], order, secs, pos, k + 1, r.cur);
      }
    }
  }

  lemma ArrivedGood(segs: seq<Seg>, order: seq<nat>, secs: seq<Sec>, pos: nat, k: nat, cur: Cursor)
    requires k <= |order| && InputOk(segs, order, secs) && Arrived(segs, order, secs, pos, k, cur)
    ensures Good(pos, cur) && |cur.secs| == |cur.gen| == |secs| && cur.pos == TurnOf(segs, order, secs, pos, k)
  {}

  /** Layout succeeds exactly when no section lies behind in any segment that is first to place it. */
  lemma RefusedExactly(h: Head, segs: seq<Seg>, order: seq<nat>, secs: seq<Sec>, pos: nat)
    requires h.m > 0 && InputOk(segs, order, secs) && Nesting(segs, order) && Distinct(order)
    requires Bounded(segs, order, secs, pos)
    ensures LayoutAll(h, segs, order, secs, pos).ok <==> AllFit(segs, order, secs, pos)
  {
    hide LayoutSegments, LooseFrom, Extents, GenMatches, StepFits, Nesting, Bounded;
    var c0 := StartCursor(secs, pos);
    StartGood(secs, pos, segs, order);
    LayoutShape(h, segs, order, 0, c0);
    forall x | 0 <= x < |secs| ensures !Earlier(segs, order, 0, x) {
      NoneBetween(segs, order, 0, x);
    }
    StepsRefused(h, segs, segs, order, secs, pos, 0, c0);
  }
}
