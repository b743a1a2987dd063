/** Nothing overlaps: the invariant both layout passes keep, and what it gives for the file. */
module LayoutSafety {
  import opened Arith
  import opened Bytes
  import opened ElfTypes
  import opened Layout

  /** Same section except for its place and address. */
  predicate SameData(a: Sec, b: Sec) {
    a.stype == b.stype && a.flags == b.flags && a.size == b.size && a.addralign == b.addralign
  }

  function EndOf(s: Sec): nat { s.offset + FileSize(s) }

  /** The sections placed so far stand one behind the other between base and the cursor. */
  predicate Extents(base: nat, cur: Cursor) {
    && base <= cur.pos
    && (forall a :: 0 <= a < |cur.placed| ==>
          && cur.placed[a] < |cur.secs|
          && cur.secs[cur.placed[a]].stype != SHT_NULL
          && base <= cur.secs[cur.placed[a]].offset
          && EndOf(cur.secs[cur.placed[a]]) <= cur.pos)
    && (forall a, b :: 0 <= a < b < |cur.placed| ==>
          && cur.placed[a] != cur.placed[b]
          && EndOf(cur.secs[cur.placed[a]]) <= cur.secs[cur.placed[b]].offset)
  }

  /** Placing one more section at or behind the cursor keeps the invariant. */
  lemma PlacedBehind(base: nat, cur: Cursor, x: nat, s: Sec, at: nat, next: Cursor)
    requires Extents(base, cur) && x < |cur.secs| && x !in cur.placed
    requires s.stype != SHT_NULL && s.offset == at >= cur.pos
    requires next.secs == cur.secs[x := s] && next.pos == at + FileSize(s) && next.placed == cur.placed + [x]
    ensures Extents(base, next)
  {
    forall a | 0 <= a < |cur.placed| ensures next.secs[cur.placed[a]] == cur.secs[cur.placed[a]] {
      assert cur.placed[a] in cur.placed;
    }
  }

  // ---------------------------------------------------------------- first pass

  predicate GenMatches(cur: Cursor) {
    |cur.gen| == |cur.secs|
    && forall x :: 0 <= x < |cur.secs| && cur.secs[x].stype != SHT_NULL ==> (cur.gen[x] <==> x in cur.placed)
  }

  /** What every step of the segment pass keeps from the cursor it started at. */
  predicate Keeps(a: Cursor, b: Cursor) {
    && |a.secs| == |b.secs| == |a.gen| == |b.gen| && a.pos <= b.pos && a.placed <= b.placed
    && (forall x :: 0 <= x < |a.secs| ==> SameData(a.secs[x], b.secs[x]))
    && (forall x :: 0 <= x < |a.secs| && a.gen[x] ==> b.gen[x] && b.secs[x] == a.secs[x])
    && (forall x :: 0 <= x < |a.secs| && !b.gen[x] ==> b.secs[x] == a.secs[x])
  }

  predicate NullFirst(cur: Cursor) { |cur.secs| > 0 ==> cur.secs[0].stype == SHT_NULL }

  predicate Good(base: nat, cur: Cursor) {
    Extents(base, cur) && GenMatches(cur) && NullFirst(cur)
  }

  lemma KeepsTransitive(a: Cursor, b: Cursor, c: Cursor)
    requires Keeps(a, b) && Keeps(b, c)
    ensures Keeps(a, c)
  {}

  lemma PlaceKeeps(base: nat, h: Head, seg: Seg, start: nat, x: nat, r: Run)
    requires h.m > 0 && x < |r.cur.secs| && Good(base, r.cur) && r.ok
    ensures var e := Place(h, seg, start, x, r);
            && Keeps(r.cur, e.cur)
            && Good(base, e.cur)
            && (e.ok ==> e.cur.gen[x])
            && (forall y :: 0 <= y < |r.cur.secs| && y != x ==> e.cur.gen[y] == r.cur.gen[y])
  {
    var cur := r.cur;
    var e := Place(h, seg, start, x, r);
    var s := cur.secs[x];
    if e.ok && s.stype != SHT_NULL && !cur.gen[x] {
      var gap := Gap(seg, start, s, false, cur.pos, r.filesz).value;
      assert x != 0;
      PlacedBehind(base, cur, x, e.cur.secs[x], cur.pos + gap, e.cur);
      forall y | 0 <= y < |cur.secs| && cur.secs[y].stype != SHT_NULL
        ensures e.cur.gen[y] <==> y in e.cur.placed
      {
        assert y in e.cur.placed <==> y in cur.placed || y == x;
      }
    }
  }

  lemma {:induction false} PlaceFromKeeps(base: nat, h: Head, seg: Seg, start: nat, j: nat, r: Run)
    requires h.m > 0 && j <= |seg.secs| && Good(base, r.cur) && IndicesOk(seg, |r.cur.secs|)
    ensures var e := PlaceFrom(h, seg, start, j, r);
            && Keeps(r.cur, e.cur)
            && Good(base, e.cur)
            && (e.ok ==> r.ok && forall k :: j <= k < |seg.secs| ==> e.cur.gen[seg.secs[k]])
            && (forall y :: 0 <= y < |r.cur.secs| && y !in seg.secs ==> e.cur.gen[y] == r.cur.gen[y])
    decreases |seg.secs| - j
  {
    hide Extents, Place;
    if j < |seg.secs| && r.ok {
      var x := seg.secs[j];
      assert x in seg.secs;
      PlaceKeeps(base, h, seg, start, x, r);
      var mid := Place(h, seg, start, x, r);
      PlaceFromKeeps(base, h, seg, start, j + 1, mid);
      KeepsTransitive(r.cur, mid.cur, PlaceFrom(h, seg, start, j + 1, mid).cur);
    }
  }

  lemma StartMoves(base: nat, h: Head, seg: Seg, cur: Cursor)
    requires Good(base, cur) && IndicesOk(seg, |cur.secs|)
    ensures var (_, _, pos) := Start(h, seg, cur);
            pos >= cur.pos && Good(base, cur.(pos := pos)) && Keeps(cur, cur.(pos := pos))
  {}

  lemma SegmentKeeps(base: nat, h: Head, seg: Seg, cur: Cursor)
    requires h.m > 0 && Good(base, cur) && IndicesOk(seg, |cur.secs|)
    ensures var e := SegmentRun(h, seg, cur);
            && Keeps(cur, e.cur)
            && Good(base, e.cur)
            && (e.ok ==> forall k :: 0 <= k < |seg.secs| ==> e.cur.gen[seg.secs[k]])
            && (forall y :: 0 <= y < |cur.secs| && y !in seg.secs ==> e.cur.gen[y] == cur.gen[y])
  {
    var (start, size, pos) := Start(h, seg, cur);
    StartMoves(base, h, seg, cur);
    PlaceFromKeeps(base, h, seg, start, 0, Run(true, cur.(pos := pos), size, size));
    KeepsTransitive(cur, cur.(pos := pos), SegmentRun(h, seg, cur).cur);
  }

  /** The segments laid out in steps k, k+1, ... hold exactly the sections those steps generate. */
  predicate InOrdered(segs: seq<Seg>, order: seq<nat>, k: nat, x: nat)
    requires forall i :: 0 <= i < |order| ==> order[i] < |segs|
  {
    exists q :: k <= q < |order| && x in segs[order[q]].secs
  }

  lemma {:induction false} SegmentsKeep(base: nat, h: Head, segs: seq<Seg>, order: seq<nat>, k: nat, cur: Cursor)
    requires h.m > 0 && k <= |order| && WellIndexed(segs, order, cur) && Good(base, cur)
    ensures var o := LayoutSegments(h, segs, order, k, cur);
            && Keeps(cur, o.cur)
            && Good(base, o.cur)
            && (o.ok ==> forall x :: 0 <= x < |cur.secs| ==>
                  (o.cur.gen[x] <==> cur.gen[x] || InOrdered(segs, order, k, x)))
    decreases |order| - k
  {
    if k < |order| {
      hide SegmentRun, Finish, Extents;
      var seg := segs[order[k]];
      var r := SegmentRun(h, seg, cur);
      SegmentKeeps(base, h, seg, cur);
      if r.ok {
        var next := segs[order[k] := Finish(h, seg, Start(h, seg, cur).0, r)];
        FinishSameSections(h, segs, order, k, cur);
        SegmentsKeep(base, h, next, order, k + 1, r.cur);
        var o := LayoutSegments(h, next, order, k + 1, r.cur);
        KeepsTransitive(cur, r.cur, o.cur);
        if o.ok {
          forall x | 0 <= x < |cur.secs|
            ensures o.cur.gen[x] <==> cur.gen[x] || InOrdered(segs, order, k, x)
          {
            StepCovers(segs, next, order, k, x);
            assert x in seg.secs ==> r.cur.gen[x];
          }
        }
      }
    }
  }

  lemma FinishSameSections(h: Head, segs: seq<Seg>, order: seq<nat>, k: nat, cur: Cursor)
    requires h.m > 0 && k < |order| && WellIndexed(segs, order, cur)
    ensures var seg := segs[order[k]];
            var next := segs[order[k] := Finish(h, seg, Start(h, seg, cur).0, SegmentRun(h, seg, cur))];
            forall i :: 0 <= i < |segs| ==> next[i].secs == segs[i].secs
  {}

  lemma StepCovers(segs: seq<Seg>, next: seq<Seg>, order: seq<nat>, k: nat, x: nat)
    requires k < |order| && |next| == |segs|
    requires forall i :: 0 <= i < |order| ==> order[i] < |segs|
    requires forall i :: 0 <= i < |segs| ==> next[i].secs == segs[i].secs
    ensures InOrdered(segs, order, k, x) <==> x in segs[order[k]].secs || InOrdered(next, order, k + 1, x)
  {
    if InOrdered(next, order, k + 1, x) {
      var q :| k + 1 <= q < |order| && x in next[order[q]].secs;
      assert x in segs[order[q]].secs;
    }
    if InOrdered(segs, order, k, x) {
      var q :| k <= q < |order| && x in segs[order[q]].secs;
      assert q > k ==> x in next[order[q]].secs;
    }
  }

  // ---------------------------------------------------------------- second pass

  /** What the pass over loose sections keeps. */
  predicate LooseKeeps(segs: seq<Seg>, x: nat, a: Cursor, b: Cursor) {
    && |a.secs| == |b.secs| && a.pos <= b.pos && a.placed <= b.placed
    && (forall y :: 0 <= y < |a.secs| ==> SameData(a.secs[y], b.secs[y]) && b.secs[y].addr == a.secs[y].addr)
    && (forall y :: 0 <= y < |a.secs| && (y < x || InSegment(segs, y)) ==> b.secs[y] == a.secs[y])
  }

  lemma LooseStepKeeps(base: nat, segs: seq<Seg>, x: nat, cur: Cursor)
    requires x < |cur.secs| && Extents(base, cur) && NullFirst(cur) && x !in cur.placed && !InSegment(segs, x)
    ensures var next := LooseStep(x, cur);
            && Extents(base, next) && NullFirst(next) && LooseKeeps(segs, x, cur, next)
            && (forall y :: y in next.placed <==> y in cur.placed || (y == x && cur.secs[x].stype != SHT_NULL))
  {
    var s := cur.secs[x];
    var next := LooseStep(x, cur);
    RoundUpGrows(cur.pos, s.addralign);
    if s.stype == SHT_NULL {
      forall a | 0 <= a < |cur.placed| ensures next.secs[cur.placed[a]] == cur.secs[cur.placed[a]] {
        assert cur.placed[a] in cur.placed;
      }
    } else {
      PlacedBehind(base, cur, x, next.secs[x], RoundUp(cur.pos, s.addralign), next);
    }
  }

  lemma {:induction false} LooseExtents(base: nat, segs: seq<Seg>, x: nat, cur: Cursor)
    requires x <= |cur.secs| && Extents(base, cur) && NullFirst(cur)
    requires forall y :: x <= y < |cur.secs| && !InSegment(segs, y) ==> y !in cur.placed
    ensures var e := LooseFrom(segs, x, cur);
            && Extents(base, e) && LooseKeeps(segs, x, cur, e)
            && (forall y :: y in e.placed <==>
                  y in cur.placed || (x <= y < |cur.secs| && !InSegment(segs, y) && cur.secs[y].stype != SHT_NULL))
    decreases |cur.secs| - x
  {
    hide Extents, InSegment, RoundUp;
    if x < |cur.secs| {
      if InSegment(segs, x) {
        LooseExtents(base, segs, x + 1, cur);
      } else {
        LooseStepKeeps(base, segs, x, cur);
        LooseExtents(base, segs, x + 1, LooseStep(x, cur));
      }
    }
  }

  lemma RoundUpGrows(pos: nat, align: nat)
    ensures pos <= RoundUp(pos, align)
    ensures align > 0 ==> RoundUp(pos, align) % align == 0
  {
    if align > 1 && pos % align != 0 {
      var q := pos / align;
      assert pos + align - pos % align == (q + 1) * align by {
        assert pos == q * align + pos % align;
        assert (q + 1) * align == q * align + align;
      }
      Quotient(q + 1, align);
    }
  }

  // ---------------------------------------------------------------- the file

  predicate Apart(a: Sec, b: Sec) { EndOf(a) <= b.offset || EndOf(b) <= a.offset }

  predicate Distinct(s: seq<nat>) { forall a, b :: 0 <= a < b < |s| ==> s[a] != s[b] }

  /** Section 0 is the null section and the order names every segment. */
  predicate InputOk(segs: seq<Seg>, order: seq<nat>, secs: seq<Sec>) {
    && (|secs| > 0 ==> secs[0].stype == SHT_NULL)
    && (forall k :: 0 <= k < |segs| ==> IndicesOk(segs[k], |secs|))
    && (forall q :: 0 <= q < |order| ==> order[q] < |segs|)
    && (forall k :: 0 <= k < |segs| ==> k in order)
  }

  lemma OrderCovers(segs: seq<Seg>, order: seq<nat>, secs: seq<Sec>, x: nat)
    requires InputOk(segs, order, secs)
    ensures InSegment(segs, x) <==> InOrdered(segs, order, 0, x)
  {
    if InSegment(segs, x) {
      var k :| 0 <= k < |segs| && x in segs[k].secs;
      assert k in order;
      var q :| 0 <= q < |order| && order[q] == k;
    }
  }

  lemma SameMembership(a: seq<Seg>, b: seq<Seg>, x: nat)
    requires |a| == |b| && forall i :: 0 <= i < |a| ==> b[i].secs == a[i].secs
    ensures InSegment(a, x) <==> InSegment(b, x)
  {
    if InSegment(a, x) {
      var k :| 0 <= k < |a| && x in a[k].secs;
      assert x in b[k].secs;
    }
    if InSegment(b, x) {
      var k :| 0 <= k < |b| && x in b[k].secs;
      assert x in a[k].secs;
    }
  }

  /** The second pass takes exactly the sections the first did not, and keeps the invariant. */
  lemma LooseAfterSegments(pos: nat, segs: seq<Seg>, order: seq<nat>, secs: seq<Sec>, o: Outcome)
    requires InputOk(segs, order, secs) && o.ok && Good(pos, o.cur)
    requires |o.segs| == |segs| && forall i :: 0 <= i < |segs| ==> o.segs[i].secs == segs[i].secs
    requires |o.cur.secs| == |secs| && forall x :: 0 <= x < |secs| ==> SameData(secs[x], o.cur.secs[x])
    requires forall x :: 0 <= x < |secs| ==> (o.cur.gen[x] <==> InOrdered(segs, order, 0, x))
    ensures var e := LooseFrom(o.segs, 0, o.cur);
            && Extents(pos, e) && LooseKeeps(o.segs, 0, o.cur, e)
            && (forall x :: x in e.placed <==> 0 <= x < |secs| && secs[x].stype != SHT_NULL)
  {
    hide LooseFrom;
    forall x | 0 <= x < |secs|
      ensures o.cur.gen[x] <==> InSegment(o.segs, x)
    {
      OrderCovers(segs, order, secs, x);
      SameMembership(segs, o.segs, x);
    }
    forall x | x in o.cur.placed ensures 0 <= x < |secs| && secs[x].stype != SHT_NULL {
      var a :| 0 <= a < |o.cur.placed| && o.cur.placed[a] == x;
    }
    LooseExtents(pos, o.segs, 0, o.cur);
  }

  /** Whenever layout succeeds, headers (up to pos), the file extents of all sections and the
      section header table are pairwise disjoint; each non-null section was placed exactly
      once over the two passes, and no section lost its type, flags, size or alignment. */
  lemma LayoutIsDisjoint(h: Head, segs: seq<Seg>, order: seq<nat>, secs: seq<Sec>, pos: nat)
    requires h.m > 0 && InputOk(segs, order, secs)
    requires LayoutAll(h, segs, order, secs, pos).ok
    ensures var r := LayoutAll(h, segs, order, secs, pos);
            && |r.cur.secs| == |secs|
            && (forall x :: 0 <= x < |secs| ==> SameData(secs[x], r.cur.secs[x]))
            && (forall x :: 0 <= x < |secs| && InFile(secs[x]) ==>
                  pos <= r.cur.secs[x].offset && EndOf(r.cur.secs[x]) <= r.shoff)
            && (forall x, y :: 0 <= x < |secs| && 0 <= y < |secs| && x != y && InFile(secs[x]) && InFile(secs[y]) ==>
                  Apart(r.cur.secs[x], r.cur.secs[y]))
            && Distinct(r.cur.placed)
            && (forall x :: x in r.cur.placed <==> 0 <= x < |secs| && secs[x].stype != SHT_NULL)
  {
    hide LayoutSegments, LooseFrom;
    var c0 := StartCursor(secs, pos);
    assert Good(pos, c0);
    LayoutShape(h, segs, order, 0, c0);
    SegmentsKeep(pos, h, segs, order, 0, c0);
    var o := LayoutSegments(h, segs, order, 0, c0);
    var e := LooseFrom(o.segs, 0, o.cur);
    LooseAfterSegments(pos, segs, order, secs, o);
    PlacedApart(pos, e);
    assert LayoutAll(h, segs, order, secs, pos) == Result(true, o.segs, e, TableAt(e.pos));
  }

  /** The section header table starts behind the headers. */
  lemma TableBehind(h: Head, segs: seq<Seg>, order: seq<nat>, secs: seq<Sec>, pos: nat)
    requires h.m > 0 && InputOk(segs, order, secs)
    ensures LayoutAll(h, segs, order, secs, pos).ok ==> pos <= LayoutAll(h, segs, order, secs, pos).shoff
  {
    hide LayoutSegments, LooseFrom;
    var c0 := StartCursor(secs, pos);
    LayoutShape(h, segs, order, 0, c0);
    SegmentsKeep(pos, h, segs, order, 0, c0);
    var o := LayoutSegments(h, segs, order, 0, c0);
    if o.ok {
      LooseAfterSegments(pos, segs, order, secs, o);
    }
  }

  lemma PlacedApart(base: nat, cur: Cursor)
    requires Extents(base, cur)
    ensures Distinct(cur.placed)
    ensures forall x :: x in cur.placed ==> x < |cur.secs| && base <= cur.secs[x].offset && EndOf(cur.secs[x]) <= cur.pos
    ensures forall x, y :: x in cur.placed && y in cur.placed && x != y ==> Apart(cur.secs[x], cur.secs[y])
  {
    forall x, y | x in cur.placed && y in cur.placed && x != y
      ensures x < |cur.secs| && y < |cur.secs| && Apart(cur.secs[x], cur.secs[y])
    {
      var a :| 0 <= a < |cur.placed| && cur.placed[a] == x;
      var b :| 0 <= b < |cur.placed| && cur.placed[b] == y;
      if a < b {
        assert EndOf(cur.secs[cur.placed[a]]) <= cur.secs[cur.placed[b]].offset;
      } else {
        assert EndOf(cur.secs[cur.placed[b]]) <= cur.secs[cur.placed[a]].offset;
      }
    }
    forall x | x in cur.placed
      ensures x < |cur.secs| && base <= cur.secs[x].offset && EndOf(cur.secs[x]) <= cur.pos
    {
      var a :| 0 <= a < |cur.placed| && cur.placed[a] == x;
    }
  }
}
