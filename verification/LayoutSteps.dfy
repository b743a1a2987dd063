/** The segment pass step by step, in terms of what layout was given: the cursor before each step,
    what a step does to its segment, and that the rest of the layout leaves it so. */
module LayoutSteps {
  import opened ElfTypes
  import opened Layout
  import opened LayoutSafety
  import opened SegmentOrder

  // ---------------------------------------------------------------- the cursor before a step

  /** Sections, flags and position when the segment of step q gets its turn. */
  function CursorAt(h: Head, segs: seq<Seg>, order: seq<nat>, cur: Cursor, q: nat): (r: Cursor)
    requires h.m > 0 && q <= |order| && WellIndexed(segs, order, cur)
    ensures |r.secs| == |r.gen| == |cur.secs|
    decreases q
  {
    if q == 0 then cur else
      var c := CursorAt(h, segs, order, cur, q - 1);
      RunShape(h, segs[order[q - 1]], c);
      SegmentRun(h, segs[order[q - 1]], c).cur
  }

  lemma RunShape(h: Head, seg: Seg, cur: Cursor)
    requires h.m > 0 && |cur.secs| == |cur.gen| && IndicesOk(seg, |cur.secs|)
    ensures var e := SegmentRun(h, seg, cur);
            |e.cur.secs| == |e.cur.gen| == |cur.secs| && cur.pos <= e.cur.pos
  {
    var (start, size, pos) := Start(h, seg, cur);
    PlaceFromShape(h, seg, start, 0, Run(true, cur.(pos := pos), size, size));
  }

  /** Section x lies in a segment of the steps k, ..., q - 1. */
  predicate Between(segs: seq<Seg>, order: seq<nat>, k: nat, q: nat, x: nat)
    requires q <= |order| && forall i :: 0 <= i < |order| ==> order[i] < |segs|
  {
    exists p :: k <= p < q && x in segs[order[p]].secs
  }

  /** Section x is placed before step q. */
  predicate Earlier(segs: seq<Seg>, order: seq<nat>, q: nat, x: nat)
    requires q <= |order| && forall i :: 0 <= i < |order| ==> order[i] < |segs|
  {
    Between(segs, order, 0, q, x)
  }

  /** The outcome of step q for its segment, and that the steps from k on leave it so. */
  ghost predicate StepDone(base: nat, h: Head, segs: seq<Seg>, order: seq<nat>, q: nat, cq: Cursor, o: Outcome)
    requires h.m > 0 && q < |order| && WellIndexed(segs, order, cq)
  {
    var seg := segs[order[q]];
    var e := SegmentRun(h, seg, cq);
    && Good(base, cq) && e.ok && Keeps(cq, e.cur) && Keeps(e.cur, o.cur)
    && |o.segs| == |segs| && o.segs[order[q]] == Finish(h, seg, Start(h, seg, cq).0, e)
    && (forall k :: 0 <= k < |seg.secs| ==> e.cur.gen[seg.secs[k]])
  }

  /** A segment's own record is only written in its own step. */
  lemma {:induction false} LaterStepsKeep(base: nat, h: Head, segs: seq<Seg>, order: seq<nat>, k: nat, cur: Cursor, i: nat)
    requires h.m > 0 && k <= |order| && WellIndexed(segs, order, cur) && Good(base, cur)
    requires i < |segs| && forall q :: k <= q < |order| ==> order[q] != i
    ensures |LayoutSegments(h, segs, order, k, cur).segs| == |segs|
    ensures LayoutSegments(h, segs, order, k, cur).segs[i] == segs[i]
    decreases |order| - k
  {
    hide Extents, GenMatches, SegmentRun, Start, Finish;
    if k < |order| {
      var seg := segs[order[k]];
      var r := SegmentRun(h, seg, cur);
      SegmentKeeps(base, h, seg, cur);
      if r.ok {
        FinishSameSections(h, segs, order, k, cur);
        LaterStepsKeep(base, h, segs[order[k] := Finish(h, seg, Start(h, seg, cur).0, r)], order, k + 1, r.cur, i);
      }
    }
  }

  lemma StepAt(base: nat, h: Head, segs: seq<Seg>, order: seq<nat>, k: nat, cur: Cursor)
    requires h.m > 0 && k < |order| && WellIndexed(segs, order, cur) && Good(base, cur) && Distinct(order)
    requires LayoutSegments(h, segs, order, k, cur).ok
    ensures StepDone(base, h, segs, order, k, cur, LayoutSegments(h, segs, order, k, cur))
  {
    hide Extents, GenMatches, SegmentRun, Start, Finish, Keeps;
    var seg := segs[order[k]];
    var r := SegmentRun(h, seg, cur);
    SegmentKeeps(base, h, seg, cur);
    FinishSameSections(h, segs, order, k, cur);
    KeepsLengths(cur, r.cur);
    var next := segs[order[k] := Finish(h, seg, Start(h, seg, cur).0, r)];
    LaterStepsKeep(base, h, next, order, k + 1, r.cur, order[k]);
    SegmentsKeep(base, h, next, order, k + 1, r.cur);
  }

  lemma KeepsLengths(a: Cursor, b: Cursor)
    requires Keeps(a, b)
    ensures |a.secs| == |b.secs| == |a.gen| == |b.gen| && a.pos <= b.pos
  {}

  /** segs0 are the segments layout began with; segs what is left of them before step k. */
  lemma {:induction false} StepsFrom(base: nat, h: Head, segs0: seq<Seg>, c0: Cursor, segs: seq<Seg>, order: seq<nat>, k: nat, q: nat)
    requires h.m > 0 && k <= q < |order| && WellIndexed(segs0, order, c0) && Distinct(order)
    requires |segs| == |segs0| && (forall p :: k <= p < |order| ==> segs[order[p]] == segs0[order[p]])
    requires (forall i :: 0 <= i < |segs| ==> segs[i].secs == segs0[i].secs)
    requires Good(base, CursorAt(h, segs0, order, c0, k))
    requires WellIndexed(segs, order, CursorAt(h, segs0, order, c0, k))
    requires LayoutSegments(h, segs, order, k, CursorAt(h, segs0, order, c0, k)).ok
    ensures var cur, cq := CursorAt(h, segs0, order, c0, k), CursorAt(h, segs0, order, c0, q);
            && Keeps(cur, cq)
            && (forall x :: 0 <= x < |cur.secs| ==> (cq.gen[x] <==> cur.gen[x] || Between(segs0, order, k, q, x)))
            && StepDone(base, h, segs0, order, q, cq, LayoutSegments(h, segs, order, k, cur))
    decreases q - k
  {
    hide Extents, GenMatches, SegmentRun, Start, Finish, StepDone, Between;
    var cur := CursorAt(h, segs0, order, c0, k);
    if k == q {
      StepAt(base, h, segs, order, k, cur);
      SameStep(base, h, segs0, segs, order, q, cur, LayoutSegments(h, segs, order, k, cur));
      forall x | 0 <= x < |cur.secs| ensures !Between(segs0, order, k, q, x) { NoneBetween(segs0, order, q, x); }
    } else {
      var seg := segs[order[k]];
      var r := SegmentRun(h, seg, cur);
      SegmentKeeps(base, h, seg, cur);
      FinishSameSections(h, segs, order, k, cur);
      var next := segs[order[k] := Finish(h, seg, Start(h, seg, cur).0, r)];
      NextCursor(h, segs0, order, c0, k);
      StepsFrom(base, h, segs0, c0, next, order, k + 1, q);
      var cq := CursorAt(h, segs0, order, c0, q);
      KeepsTransitive(cur, r.cur, cq);
      forall x | 0 <= x < |cur.secs| ensures cq.gen[x] <==> cur.gen[x] || Between(segs0, order, k, q, x) {
        BetweenStep(segs0, order, k, q, x);
        if x in seg.secs { assert r.cur.gen[x]; }
      }
    }
  }

  lemma SameStep(base: nat, h: Head, segs0: seq<Seg>, segs: seq<Seg>, order: seq<nat>, q: nat, cq: Cursor, o: Outcome)
    requires h.m > 0 && q < |order| && WellIndexed(segs, order, cq) && WellIndexed(segs0, order, cq)
    requires |segs| == |segs0| && segs[order[q]] == segs0[order[q]] && StepDone(base, h, segs, order, q, cq, o)
    ensures StepDone(base, h, segs0, order, q, cq, o) && Keeps(cq, cq)
  {}

  lemma NextCursor(h: Head, segs: seq<Seg>, order: seq<nat>, c0: Cursor, k: nat)
    requires h.m > 0 && k < |order| && WellIndexed(segs, order, c0)
    ensures CursorAt(h, segs, order, c0, k + 1) == SegmentRun(h, segs[order[k]], CursorAt(h, segs, order, c0, k)).cur
  {}

  lemma NoneBetween(segs: seq<Seg>, order: seq<nat>, q: nat, x: nat)
    requires q <= |order| && forall i :: 0 <= i < |order| ==> order[i] < |segs|
    ensures !Between(segs, order, q, q, x)
  {}

  lemma BetweenStep(segs: seq<Seg>, order: seq<nat>, k: nat, q: nat, x: nat)
    requires k < q <= |order| && forall i :: 0 <= i < |order| ==> order[i] < |segs|
    ensures Between(segs, order, k, q, x) <==> x in segs[order[k]].secs || Between(segs, order, k + 1, q, x)
  {}

  // ---------------------------------------------------------------- the whole layout

  /** A layout that succeeds, every segment having its own step. */
  ghost predicate Laid(h: Head, segs: seq<Seg>, order: seq<nat>, secs: seq<Sec>, pos: nat) {
    && h.m > 0 && InputOk(segs, order, secs) && Distinct(order)
    && LayoutAll(h, segs, order, secs, pos).ok
  }

  lemma LaidInput(h: Head, segs: seq<Seg>, order: seq<nat>, secs: seq<Sec>, pos: nat)
    requires Laid(h, segs, order, secs, pos)
    ensures h.m > 0 && InputOk(segs, order, secs) && Distinct(order) && (forall q :: 0 <= q < |order| ==> order[q] < |segs|)
    ensures WellIndexed(segs, order, StartCursor(secs, pos))
    ensures forall k :: 0 <= k < |segs| ==> IndicesOk(segs[k], |secs|)
  {}

  function CursorBefore(h: Head, segs: seq<Seg>, order: seq<nat>, secs: seq<Sec>, pos: nat, q: nat): (r: Cursor)
    requires h.m > 0 && q <= |order| && InputOk(segs, order, secs)
    ensures |r.secs| == |r.gen| == |secs|
  {
    CursorAt(h, segs, order, StartCursor(secs, pos), q)
  }

  /** What layout r did to the segment of step q, from the cursor before that step. */
  ghost predicate StepView(h: Head, segs: seq<Seg>, order: seq<nat>, secs: seq<Sec>, pos: nat, q: nat, cq: Cursor, r: Result)
    requires h.m > 0 && q < |order| && InputOk(segs, order, secs) && |cq.secs| == |cq.gen| == |secs|
  {
    var seg := segs[order[q]];
    var e := SegmentRun(h, seg, cq);
    && Good(pos, cq)
    && (forall x :: 0 <= x < |secs| ==> SameData(secs[x], cq.secs[x]) && (!cq.gen[x] ==> cq.secs[x] == secs[x]))
    && (forall x :: 0 <= x < |secs| ==> (cq.gen[x] <==> Earlier(segs, order, q, x)))
    && e.ok && cq.pos <= e.cur.pos <= r.shoff
    && |r.segs| == |segs| && |r.cur.secs| == |e.cur.secs| == |secs|
    && r.segs[order[q]] == Finish(h, seg, Start(h, seg, cq).0, e)
    && (forall k :: 0 <= k < |seg.secs| ==> r.cur.secs[seg.secs[k]] == e.cur.secs[seg.secs[k]])
    && (forall x :: 0 <= x < |secs| && cq.gen[x] ==> cq.secs[x] == r.cur.secs[x])
  }

  /** Every step of a successful layout, seen from its result. */
  lemma StepOfLayout(h: Head, segs: seq<Seg>, order: seq<nat>, secs: seq<Sec>, pos: nat, q: nat)
    requires Laid(h, segs, order, secs, pos) && q < |order|
    ensures StepView(h, segs, order, secs, pos, q, CursorBefore(h, segs, order, secs, pos, q), LayoutAll(h, segs, order, secs, pos))
  {
    hide LayoutSegments, LooseFrom, StepDone, SegmentRun, Start, Finish, Extents, StepView, CursorAt;
    var c0 := StartCursor(secs, pos);
    StartGood(secs, pos, segs, order);
    CursorZero(h, segs, order, c0);
    LayoutShape(h, segs, order, 0, c0);
    SegmentsKeep(pos, h, segs, order, 0, c0);
    var o := LayoutSegments(h, segs, order, 0, c0);
    StepsFrom(pos, h, segs, c0, segs, order, 0, q);
    LooseAfterSegments(pos, segs, order, secs, o);
    var e := LooseFrom(o.segs, 0, o.cur);
    ViewFromStep(h, segs, order, secs, pos, q, CursorBefore(h, segs, order, secs, pos, q), o, e);
  }

  lemma StartGood(secs: seq<Sec>, pos: nat, segs: seq<Seg>, order: seq<nat>)
    requires InputOk(segs, order, secs)
    ensures Good(pos, StartCursor(secs, pos)) && WellIndexed(segs, order, StartCursor(secs, pos))
  {}

  lemma CursorZero(h: Head, segs: seq<Seg>, order: seq<nat>, c0: Cursor)
    requires h.m > 0 && WellIndexed(segs, order, c0)
    ensures CursorAt(h, segs, order, c0, 0) == c0
  {}

  lemma ViewFromStep(h: Head, segs: seq<Seg>, order: seq<nat>, secs: seq<Sec>, pos: nat, q: nat, cq: Cursor, o: Outcome, e: Cursor)
    requires h.m > 0 && q < |order| && InputOk(segs, order, secs) && |cq.secs| == |cq.gen| == |secs|
    requires Keeps(StartCursor(secs, pos), cq)
    requires forall x :: 0 <= x < |secs| ==> (cq.gen[x] <==> Earlier(segs, order, q, x))
    requires StepDone(pos, h, segs, order, q, cq, o) && LooseKeeps(o.segs, 0, o.cur, e)
    requires |o.segs| == |segs| && forall i :: 0 <= i < |segs| ==> o.segs[i].secs == segs[i].secs
    ensures StepView(h, segs, order, secs, pos, q, cq, Result(true, o.segs, e, TableAt(e.pos)))
  {
    hide SegmentRun, Start, Finish, Extents;
    var seg := segs[order[q]];
    forall k | 0 <= k < |seg.secs| ensures e.secs[seg.secs[k]] == SegmentRun(h, seg, cq).cur.secs[seg.secs[k]] {
      assert seg.secs[k] in o.segs[order[q]].secs;
      assert InSegment(o.segs, seg.secs[k]);
    }
    forall x | 0 <= x < |secs| && cq.gen[x] ensures cq.secs[x] == e.secs[x] {
      assert Earlier(segs, order, q, x);
      var p :| 0 <= p < q && x in segs[order[p]].secs;
      assert x in o.segs[order[p]].secs;
      assert InSegment(o.segs, x);
    }
  }

  // ---------------------------------------------------------------- fresh and shared segments

  predicate Real(secs: seq<Sec>, x: nat) { x < |secs| && secs[x].stype != SHT_NULL }

  /** No section of the segment is placed before its step. */
  predicate FirstToPlace(segs: seq<Seg>, order: seq<nat>, secs: seq<Sec>, q: nat)
    requires q < |order| && forall i :: 0 <= i < |order| ==> order[i] < |segs|
  {
    forall x :: x in segs[order[q]].secs && Real(secs, x) ==> !Earlier(segs, order, q, x)
  }

  /** All of them are. */
  predicate AllPlaced(segs: seq<Seg>, order: seq<nat>, secs: seq<Sec>, q: nat)
    requires q < |order| && forall i :: 0 <= i < |order| ==> order[i] < |segs|
  {
    forall x :: x in segs[order[q]].secs && Real(secs, x) ==> Earlier(segs, order, q, x)
  }

  /** Any two section lists are disjoint, equal or nested. */
  predicate Laminar(segs: seq<Seg>) {
    forall i, j :: 0 <= i < |segs| && 0 <= j < |segs| ==>
      || Elements(segs[i].secs) !! Elements(segs[j].secs)
      || Elements(segs[i].secs) <= Elements(segs[j].secs)
      || Elements(segs[j].secs) <= Elements(segs[i].secs)
  }

  /** std::includes needs sorted lists. */
  predicate Sorted(segs: seq<Seg>) { forall i :: 0 <= i < |segs| ==> SegmentOrder.Increasing(segs[i].secs) }

  /** The order get_ordered_segments produces: no segment before a properly larger one. */
  predicate SupersetsFirst(segs: seq<Seg>, order: seq<nat>)
    requires forall q :: 0 <= q < |order| ==> order[q] < |segs|
  {
    forall p, q :: 0 <= p < q < |order| ==> !IsSubsequenceOf(segs[order[p]].secs, segs[order[q]].secs)
  }

  predicate Nesting(segs: seq<Seg>, order: seq<nat>)
    requires forall q :: 0 <= q < |order| ==> order[q] < |segs|
  {
    SupersetsFirst(segs, order) && Laminar(segs) && Sorted(segs)
  }

  /** A segment that shares a section with an earlier one is contained in it. */
  lemma SharedIsNested(segs: seq<Seg>, order: seq<nat>, q: nat, x: nat) returns (p: nat)
    requires q < |order| && (forall i :: 0 <= i < |order| ==> order[i] < |segs|) && Nesting(segs, order)
    requires x in segs[order[q]].secs && Earlier(segs, order, q, x)
    ensures p < q && Elements(segs[order[q]].secs) <= Elements(segs[order[p]].secs)
  {
    hide IsSubsequenceOf, SegmentOrder.Increasing;
    p :| p < q && x in segs[order[p]].secs;
    var s, t := segs[order[q]].secs, segs[order[p]].secs;
    SubsequenceIsProperSubset(t, s);
    assert x in Elements(s) && x in Elements(t);
  }

  /** So a segment is laid out afresh, or all its sections are placed already. */
  lemma FreshOrShared(segs: seq<Seg>, order: seq<nat>, secs: seq<Sec>, q: nat)
    requires q < |order| && (forall i :: 0 <= i < |order| ==> order[i] < |segs|) && Nesting(segs, order)
    ensures FirstToPlace(segs, order, secs, q) || AllPlaced(segs, order, secs, q)
  {
    hide Nesting;
    if x :| x in segs[order[q]].secs && Real(secs, x) && Earlier(segs, order, q, x) {
      var p := SharedIsNested(segs, order, q, x);
      forall y | y in segs[order[q]].secs && Real(secs, y) ensures Earlier(segs, order, q, y) {
        assert y in Elements(segs[order[q]].secs);
        assert y in segs[order[p]].secs;
      }
    }
  }
}
