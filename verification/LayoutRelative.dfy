/** Segments whose layout does not depend on where they start: everything inside an aligned segment
    stands as it would if the file were mapped to the segment's virtual address. */
module LayoutRelative {
  import opened Arith
  import opened Bytes
  import opened ElfTypes
  import opened Options
  import opened Layout
  import opened LayoutSafety
  import opened LayoutSteps
  import opened LayoutExact
  import opened LayoutAlignment
  import opened LayoutContainment
  import opened LayoutMemory
  import SegmentOrder

  /** The segment as if its file offset were its virtual address: a function of the input alone. */
  function AtAddress(seg: Seg, secs: seq<Sec>): (f: Fresh)
    requires IndicesOk(seg, |secs|)
    ensures f.Ok() && f.Count() == |seg.secs|
  {
    Fresh(seg, seg.vaddr, seg.vaddr, 0, secs)
  }

  /** The alignment of every section without an address divides the segment's. */
  predicate Divides(seg: Seg, secs: seq<Sec>)
    requires IndicesOk(seg, |secs|)
  {
    forall k :: 0 <= k < |seg.secs| && secs[seg.secs[k]].addralign > 1 && !secs[seg.secs[k]].addrSet ==>
      AlignOf(seg) % secs[seg.secs[k]].addralign == 0
  }

  /** Two starts of the same segment that agree modulo its alignment. */
  predicate Alike(f: Fresh, g: Fresh) {
    && f.Ok() && f.seg == g.seg && f.secs == g.secs && f.size == g.size
    && f.start == f.pos && g.start == g.pos && f.start % AlignOf(f.seg) == g.start % AlignOf(f.seg)
  }

  // ---------------------------------------------------------------- gaps

  lemma SameModulo(a: nat, b: nat, n: nat, small: nat, d: nat)
    requires n > 0 && small > 0 && n % small == 0 && a % n == b % n
    ensures (a + d) % small == (b + d) % small
  {
    var t := SameRemainder(a, b, n);
    var k := n / small;
    assert n == k * small;
    assert t * (k * small) == (t * k) * small;
    Shift(b + d, t * k, small);
  }

  lemma Shift(x: nat, c: int, n: nat)
    requires n > 0 && x + c * n >= 0
    ensures (x + c * n) % n == x % n
  {
    var q, r := x / n, x % n;
    assert x == q * n + r;
    assert (q + c) * n == q * n + c * n;
    ModShift(q + c, n, r);
  }

  lemma SameGap(seg: Seg, s: Sec, a: nat, b: nat, d: nat)
    requires s.addralign > 1 && !s.addrSet ==> AlignOf(seg) % s.addralign == 0
    requires a % AlignOf(seg) == b % AlignOf(seg)
    ensures FreshGap(seg, a, s, a + d) == FreshGap(seg, b, s, b + d)
  {
    hide W64;
    if !s.addrSet && s.addralign > 1 {
      SameModulo(a, b, AlignOf(seg), s.addralign, d);
    }
    assert (a + d) - a == (b + d) - b;
  }

  // ---------------------------------------------------------------- everything inside

  /** After j sections both are equally far from their starts. */
  predicate AlikeAt(f: Fresh, g: Fresh, j: nat)
    requires f.Ok() && g.Ok() && f.seg == g.seg && j <= f.Count()
  {
    f.Pos(j) - f.start == g.Pos(j) - g.start && f.File(j) == g.File(j) && f.Mem(j) == g.Mem(j)
  }

  lemma {:induction false} AlikeInside(f: Fresh, g: Fresh, j: nat)
    requires Alike(f, g) && Divides(f.seg, f.secs) && j <= f.Count()
    ensures AlikeAt(f, g, j)
    ensures j < f.Count() ==> f.Gap(j) == g.Gap(j) && f.Place(j) - f.start == g.Place(j) - g.start
    decreases j
  {
    hide Fresh.Pos, Fresh.Gap, Fresh.Place, Fresh.File, Fresh.Mem, Fresh.Skipped, CountsInMemory, FreshGap, AlignOf;
    if j == 0 {
      AtZero(f);
      AtZero(g);
    } else {
      AlikeInside(f, g, j - 1);
      Next(f, j - 1);
      Next(g, j - 1);
    }
    if j < f.Count() {
      Next(f, j);
      Next(g, j);
      SameGap(f.seg, f.Sec(j), f.start, g.start, f.Pos(j) - f.start);
    }
  }

  /** So whether the segment encloses its sections is the same for both. */
  lemma SameFlush(f: Fresh, g: Fresh)
    requires Alike(f, g) && Divides(f.seg, f.secs)
    ensures Flush(f) <==> Flush(g)
  {
    hide Fresh.Gap, Fresh.Place, Fresh.Pos, AlikeAt;
    forall j | 0 <= j < f.Count() ensures f.Gap(j) == g.Gap(j) && f.Sec(j) == g.Sec(j) {
      AlikeInside(f, g, j);
    }
  }

  // ---------------------------------------------------------------- raised alignments

  /** calc_segment_alignment sees to the condition: powers of two divide larger ones. */
  lemma RaisedDivides(segs: seq<Seg>, secs: seq<Sec>, i: nat)
    requires i < |segs| && (forall k :: 0 <= k < |segs| ==> IndicesOk(segs[k], |secs|)) && AlignmentsOk(segs, secs)
    ensures IndicesOk(RaiseAll(segs, secs, |segs|)[i], |secs|) && Divides(RaiseAll(segs, secs, |segs|)[i], secs)
  {
    hide RaisedAlign, IsPow2, RaiseAll, AlignOf;
    RaisedOk(segs, secs, i);
    var g := RaiseAll(segs, secs, |segs|)[i];
    assert IndicesOk(segs[i], |secs|);
    forall k | 0 <= k < |g.secs| && secs[g.secs[k]].addralign > 1 ensures AlignOf(g) % secs[g.secs[k]].addralign == 0 {
      assert AlignmentOk(secs[g.secs[k]].addralign);
      PowersDivide(secs[g.secs[k]].addralign, AlignOf(g)) by { AlignAbove(g); }
    }
  }

  lemma AlignAbove(g: Seg)
    ensures g.align <= AlignOf(g)
  {}

  lemma PowersDivide(small: nat, large: nat)
    requires 0 < small <= large && IsPow2(small) && IsPow2(large)
    ensures large % small == 0
  {
    hide Pow2;
    var m :| Pow2(m) == small;
    var n :| Pow2(n) == large;
    var k := Pow2Quotient(m, n);
    assert small * k == k * small;
    ModShift(k, small, 0);
  }

  // ---------------------------------------------------------------- the whole layout

  /** The segment of step q is first to place its sections and does not start with the null section:
      then it is aligned. */
  predicate AlignedStep(segs: seq<Seg>, order: seq<nat>, secs: seq<Sec>, q: nat)
    requires q < |order| && (forall i :: 0 <= i < |order| ==> order[i] < |segs|) && IndicesOk(segs[order[q]], |secs|)
  {
    HasReal(segs[order[q]], secs) && !StartsWithNull(segs[order[q]], secs) && FirstToPlace(segs, order, secs, q)
  }

  /** Layout as save runs it, on segments with raised alignments. */
  ghost predicate RaisedLaid(h: Head, segs: seq<Seg>, order: seq<nat>, secs: seq<Sec>, pos: nat) {
    && InputOk(segs, order, secs) && AlignmentsOk(segs, secs) && Nesting(segs, order)
    && Laid(h, RaiseAll(segs, secs, |segs|), order, secs, pos)
    && LayoutAll(h, RaiseAll(segs, secs, |segs|), order, secs, pos).shoff < h.m <= M64
  }

  lemma RaisedParts(h: Head, segs: seq<Seg>, order: seq<nat>, secs: seq<Sec>, pos: nat, q: nat)
    requires RaisedLaid(h, segs, order, secs, pos) && q < |order|
    ensures var all := RaiseAll(segs, secs, |segs|);
            && |all| == |segs| && InputOk(all, order, secs) && Nesting(all, order)
            && all[order[q]] == segs[order[q]].(align := all[order[q]].align)
            && (HasReal(all[order[q]], secs) <==> HasReal(segs[order[q]], secs))
            && (FirstToPlace(all, order, secs, q) <==> FirstToPlace(segs, order, secs, q))
            && Divides(all[order[q]], secs) && all[order[q]].align <= 0x8000_0000_0000_0000
  {
    hide RaiseAll, LayoutAll, AlignmentsOk, IsPow2, Earlier, SegmentOrder.Increasing, SegmentOrder.IsSubsequenceOf, SegmentOrder.Elements, Divides;
    RaisedInput(segs, order, secs);
    RaisedOk(segs, secs, order[q]);
    RaisedDivides(segs, secs, order[q]);
  }

  /** An aligned segment, in whatever position it gets its turn, starts congruent to its address. */
  lemma StartsAlike(h: Head, segs: seq<Seg>, order: seq<nat>, secs: seq<Sec>, pos: nat, q: nat)
    requires RaisedLaid(h, segs, order, secs, pos) && q < |order| && AlignedStep(segs, order, secs, q)
    ensures var all := RaiseAll(segs, secs, |segs|);
            && |all| == |segs| && InputOk(all, order, secs)
            && Alike(FreshAt(h, all, order, secs, pos, q), AtAddress(all[order[q]], secs))
            && Divides(all[order[q]], secs)
  {
    hide RaiseAll, LayoutAll, AlignmentsOk, Nesting, FirstToPlace, Laid, Turn, AlignedPos, HasReal, Divides, AlignOf;
    RaisedParts(h, segs, order, secs, pos, q);
    var g := RaiseAll(segs, secs, |segs|)[order[q]];
    FreshStartCongruent(g, Turn(h, RaiseAll(segs, secs, |segs|), order, secs, pos, q));
  }

  /** What layout makes of an aligned segment, relative to its start, from the segments and sections
      as given. */
  ghost predicate Relative(f: Fresh, g: Seg, secs: seq<Sec>)
    requires f.Ok()
  {
    && g.filesz == f.File(f.Count())
    && (forall a :: 0 <= a < f.Count() && f.Sec(a).stype != SHT_NULL ==>
          f.seg.secs[a] < |secs| && secs[f.seg.secs[a]].offset - g.offset == f.Place(a) - f.start)
  }

  /** Every section of an aligned segment stands at the same distance from the segment's offset as it
      would from its address, the sizes are those computed there, and the segment encloses its
      file-backed sections if and only if no address-less NOBITS section in front of one gets a gap
      there: nothing depends on the position at which the segment gets its turn. */
  lemma AlignedSegment(h: Head, segs: seq<Seg>, order: seq<nat>, secs: seq<Sec>, pos: nat, q: nat)
    requires RaisedLaid(h, segs, order, secs, pos) && q < |order| && AlignedStep(segs, order, secs, q)
    ensures var all := RaiseAll(segs, secs, |segs|); var r := LayoutAll(h, all, order, secs, pos);
            && |all| == |segs| == |r.segs| && IndicesOk(all[order[q]], |secs|)
            && Relative(AtAddress(all[order[q]], secs), r.segs[order[q]], r.cur.secs)
            && (Inside(r.cur.secs, r.segs[order[q]]) <==> Flush(AtAddress(all[order[q]], secs)))
  {
    hide RaiseAll, LayoutAll, AlignmentsOk, Nesting, FirstToPlace, Laid, HasReal, Divides, Placeable, FreshAt, Flush, Inside, Alike, ByFresh,
         Relative, AlignedStep;
    RaisedParts(h, segs, order, secs, pos, q);
    StartsAlike(h, segs, order, secs, pos, q);
    StepParts(segs, order, secs, q);
    var all := RaiseAll(segs, secs, |segs|);
    var r, f, g := LayoutAll(h, all, order, secs, pos), FreshAt(h, all, order, secs, pos, q), AtAddress(all[order[q]], secs);
    LaidInput(h, all, order, secs, pos);
    RealPlaceable(all[order[q]], secs);
    NestingSorted(all, order);
    FreshInLayout(h, all, order, secs, pos, q);
    FreshSaneAt(h, all, order, secs, pos, q);
    EnclosedExactly(h, all, order, secs, pos, q);
    SameFlush(f, g);
    FreshSizes(f, h.m, r.segs[order[q]], r.cur.secs, r.shoff);
    SettledFrom(f, h.m, r.segs[order[q]], r.cur.secs, r.shoff);
    RelativeFrom(f, g, h.m, r.segs[order[q]], r.cur.secs);
  }

  lemma StepParts(segs: seq<Seg>, order: seq<nat>, secs: seq<Sec>, q: nat)
    requires q < |order| && (forall i :: 0 <= i < |order| ==> order[i] < |segs|) && IndicesOk(segs[order[q]], |secs|)
    requires AlignedStep(segs, order, secs, q)
    ensures HasReal(segs[order[q]], secs) && !StartsWithNull(segs[order[q]], secs) && FirstToPlace(segs, order, secs, q)
  {}

  lemma RelativeFrom(f: Fresh, g: Fresh, m: nat, seg: Seg, secs: seq<Sec>)
    requires Sane(f) && Alike(f, g) && g.Ok() && Divides(f.seg, f.secs) && m > 0 && SettledAt(f, m, f.Count(), secs)
    requires seg.offset == f.start && seg.filesz == f.File(f.Count())
    ensures Relative(g, seg, secs)
  {
    hide SettledAt, Fresh.Pos, Fresh.File, Fresh.Mem, Fresh.Place, Fresh.Gap, Divides;
    AlikeInside(f, g, f.Count());
    forall a | 0 <= a < g.Count() && g.Sec(a).stype != SHT_NULL
      ensures g.seg.secs[a] < |secs| && secs[g.seg.secs[a]].offset - seg.offset == g.Place(a) - g.start
    {
      AlikeInside(f, g, a);
      PlaceOfSection(f, m, secs, a);
    }
  }

  /** The exact memory size of an aligned segment, from the input; and so its memory size. */
  lemma AlignedMemory(h: Head, segs: seq<Seg>, order: seq<nat>, secs: seq<Sec>, pos: nat, q: nat)
    requires RaisedLaid(h, segs, order, secs, pos) && q < |order| && AlignedStep(segs, order, secs, q)
    ensures var all := RaiseAll(segs, secs, |segs|); var r := LayoutAll(h, all, order, secs, pos);
            && |all| == |segs| == |r.segs| && IndicesOk(all[order[q]], |secs|) && HasReal(all[order[q]], secs)
            && var exact := AtAddress(all[order[q]], secs).Mem(|all[order[q]].secs|);
               && ExactMemory(h, all, order, secs, pos, q) == exact
               && (exact < h.m ==> r.segs[order[q]].memsz == Max(segs[order[q]].memsz, exact))
  {
    hide RaiseAll, LayoutAll, AlignmentsOk, Nesting, FirstToPlace, Laid, HasReal, Divides, FreshAt, SharedAt, Alike, AlignedStep,
         Fresh.Mem, Fresh.Pos, Fresh.File, FallsShort, FileIsMemory, NobitsFollow;
    RaisedParts(h, segs, order, secs, pos, q);
    StartsAlike(h, segs, order, secs, pos, q);
    StepParts(segs, order, secs, q);
    var all := RaiseAll(segs, secs, |segs|);
    LaidInput(h, all, order, secs, pos);
    LengthsKept(h, all, order, secs, pos);
    AlikeInside(FreshAt(h, all, order, secs, pos, q), AtAddress(all[order[q]], secs), |all[order[q]].secs|);
    if ExactMemory(h, all, order, secs, pos, q) < h.m {
      FileSizeWithinMemory(h, all, order, secs, pos, q);
    }
  }
}
