/** Congruence of file offsets and virtual addresses (System V gABI, chapter 5,
    "Program Header", p_align). */
module LayoutAlignment {
  import opened Arith
  import opened Bytes
  import opened ElfTypes
  import opened Options
  import opened Layout
  import opened LayoutSafety
  import opened LayoutSteps

  /** The alignment the writer works with: 0 and 1 both mean none. */
  function AlignOf(seg: Seg): (a: nat)
    ensures a > 0
  {
    if seg.align > 0 then seg.align else 1
  }

  /** The two 64-bit differences of the source, case by case. */
  lemma ErrorUp(align: nat, u: nat, v: nat)
    requires 0 < align <= 0x8000_0000_0000_0000 && v <= u < align
    ensures W64(align + W64(u - v)) == align + (u - v)
  {}

  lemma ErrorDown(align: nat, u: nat, v: nat)
    requires 0 < align <= 0x8000_0000_0000_0000 && u < v < align
    ensures W64(align + W64(u - v)) == align + u - v
  {
    assert W64(u - v) == M64 + u - v;
  }

  /** r is what x leaves modulo n. */
  predicate Leaves(x: nat, n: nat, r: nat) { n > 0 && x % n == r }

  lemma StepUp(align: nat, pos: nat, v: nat, u: nat)
    requires Leaves(pos, align, v) && v <= u < align
    ensures Leaves(align + (u - v), align, u - v) && Leaves(pos + (u - v), align, u)
  {
    var q := pos / align;
    assert pos == q * align + v;
    ModShift(1, align, u - v);
    ModShift(q, align, u);
  }

  lemma StepDown(align: nat, pos: nat, v: nat, u: nat)
    requires Leaves(pos, align, v) && u < v < align
    ensures Leaves(align + u - v, align, align + u - v) && Leaves(pos + (align + u - v), align, u)
  {
    var q := pos / align;
    assert pos == q * align + v;
    ModShift(0, align, align + u - v);
    assert pos + (align + u - v) == (q + 1) * align + u by { assert (q + 1) * align == q * align + align; }
    ModShift(q + 1, align, u);
  }

  /** From remainders u of the address and v of the position to a start with remainder u. */
  lemma StepTo(align: nat, pos: nat, v: nat, u: nat) returns (step: nat)
    requires 0 < align <= 0x8000_0000_0000_0000 && Leaves(pos, align, v) && u < align && v < align
    ensures step < align && Leaves(W64(align + W64(u - v)), align, step) && Leaves(pos + step, align, u)
  {
    hide W64, Leaves;
    if u >= v {
      ErrorUp(align, u, v);
      StepUp(align, pos, v, u);
      step := u - v;
    } else {
      ErrorDown(align, u, v);
      StepDown(align, pos, v, u);
      step := align + u - v;
    }
  }

  /** AlignedPos in terms of the two remainders. */
  lemma AlignedPosIs(seg: Seg, pos: nat, v: nat, u: nat, step: nat)
    requires Leaves(pos, seg.align, v) && Leaves(seg.vaddr, seg.align, u) && Leaves(W64(seg.align + W64(u - v)), seg.align, step)
    ensures AlignedPos(seg, pos) == pos + step
  {
    hide W64;
  }

  lemma Unaligned(seg: Seg, pos: nat)
    requires seg.align == 0
    ensures AlignedPos(seg, pos) == pos && pos % 1 == seg.vaddr % 1
  {
    hide W64;
  }

  lemma Remainder(x: nat, n: nat) returns (r: nat)
    requires n > 0
    ensures r < n && Leaves(x, n, r)
  {
    r := x % n;
  }

  lemma BothLeave(x: nat, y: nat, n: nat, r: nat)
    requires Leaves(x, n, r) && Leaves(y, n, r)
    ensures n > 0 && x % n == y % n
  {}

  /** The start of a freshly aligned segment is congruent to its virtual address and moves the
      cursor by less than the alignment. An alignment above 2^63 would wrap the sum. */
  lemma FreshStartCongruent(seg: Seg, pos: nat)
    requires seg.align <= 0x8000_0000_0000_0000
    ensures AlignedPos(seg, pos) % AlignOf(seg) == seg.vaddr % AlignOf(seg)
    ensures pos <= AlignedPos(seg, pos) < pos + AlignOf(seg)
  {
    hide W64, AlignedPos, Leaves;
    if seg.align == 0 {
      Unaligned(seg, pos);
    } else {
      var v := Remainder(pos, seg.align);
      var u := Remainder(seg.vaddr, seg.align);
      var step := StepTo(seg.align, pos, v, u);
      AlignedPosIs(seg, pos, v, u, step);
      BothLeave(pos + step, seg.vaddr, seg.align, u);
    }
  }

  // ---------------------------------------------------------------- distance from the segment start

  /** Section y has a preset address and bytes in the file, and waits to be placed. */
  predicate Waiting(y: nat, secs: seq<Sec>, gen: seq<bool>)
    requires |secs| == |gen|
  {
    0 < y < |secs| && !gen[y] && InFile(secs[y]) && secs[y].size != 0 && secs[y].addrSet
  }

  predicate Distance(y: nat, seg: Seg, start: nat, addr: nat, secs: seq<Sec>) {
    y < |secs| && secs[y].offset == start + W64(addr - seg.vaddr) && secs[y].addr == addr
  }

  lemma PlaceDistance(h: Head, seg: Seg, start: nat, x: nat, r: Run)
    requires h.m > 0 && |r.cur.secs| == |r.cur.gen| && start <= r.cur.pos < M64 && r.ok
    requires x < |r.cur.secs| && Waiting(x, r.cur.secs, r.cur.gen)
    ensures var e := Place(h, seg, start, x, r);
            e.ok ==> Distance(x, seg, start, r.cur.secs[x].addr, e.cur.secs)
  {
    assert W64(r.cur.pos - start) == r.cur.pos - start;
  }

  lemma {:induction false} PlaceFromDistance(base: nat, h: Head, seg: Seg, start: nat, j: nat, r: Run, y: nat)
    requires h.m > 0 && j <= |seg.secs| && Good(base, r.cur) && IndicesOk(seg, |r.cur.secs|) && r.ok
    requires start <= r.cur.pos && PlaceFrom(h, seg, start, j, r).cur.pos < M64
    requires y in seg.secs[j..] && Waiting(y, r.cur.secs, r.cur.gen)
    ensures var e := PlaceFrom(h, seg, start, j, r);
            e.ok ==> Distance(y, seg, start, r.cur.secs[y].addr, e.cur.secs)
    decreases |seg.secs| - j
  {
    hide Extents, Place;
    var x := seg.secs[j];
    var mid := Place(h, seg, start, x, r);
    PlaceKeeps(base, h, seg, start, x, r);
    PlaceFromKeeps(base, h, seg, start, j + 1, mid);
    if mid.ok {
      if x == y {
        PlaceDistance(h, seg, start, x, r);
      } else {
        assert seg.secs[j..] == [x] + seg.secs[j + 1..];
        PlaceFromDistance(base, h, seg, start, j + 1, mid, y);
      }
    }
  }

  // ---------------------------------------------------------------- powers of two

  function Pow2(n: nat): (p: nat)
    ensures p > 0
  {
    if n == 0 then 1 else 2 * Pow2(n - 1)
  }

  lemma {:induction false} Pow2Divides(m: nat, n: nat)
    requires m <= n
    ensures Pow2(n) == Pow2(m) * Pow2(n - m)
    decreases n
  {
    if m < n {
      Pow2Divides(m, n - 1);
      assert Pow2(m) * (2 * Pow2(n - 1 - m)) == 2 * (Pow2(m) * Pow2(n - 1 - m));
    } else {
      assert Pow2(0) == 1;
    }
  }

  lemma {:induction false} Pow2Mono(m: nat, n: nat)
    requires m <= n
    ensures Pow2(m) <= Pow2(n)
    decreases n
  {
    if m < n {
      Pow2Mono(m, n - 1);
    }
  }

  /** For power-of-two alignments: a section whose address is a multiple of its alignment gets
      an offset that is a multiple of it too, when the segment's alignment is at least as large
      (calc_segment_alignment sees to that) and the address is not below the segment's. */
  lemma AlignedAddressAlignedOffset(seg: Seg, s: Sec, m: nat, n: nat, start: nat)
    requires s.addralign == Pow2(m) && AlignOf(seg) == Pow2(n) && s.addralign <= AlignOf(seg)
    requires start % AlignOf(seg) == seg.vaddr % AlignOf(seg)
    requires s.addr >= seg.vaddr && s.addr < M64 && s.offset == start + W64(s.addr - seg.vaddr)
    requires s.addr % s.addralign == 0
    ensures s.offset % s.addralign == 0
  {
    hide AlignOf, Pow2;
    assert W64(s.addr - seg.vaddr) == s.addr - seg.vaddr;
    var k := Pow2Quotient(m, n);
    var t := SameRemainder(start, seg.vaddr, AlignOf(seg));
    assert s.offset == s.addr + t * AlignOf(seg);
    MultipleOffset(s.addralign, k, t, s.addr);
  }

  lemma Pow2Quotient(m: nat, n: nat) returns (k: nat)
    requires Pow2(m) <= Pow2(n)
    ensures Pow2(n) == Pow2(m) * k
  {
    if m > n {
      Pow2Mono(n + 1, m);
    }
    Pow2Divides(m, n);
    k := Pow2(n - m);
  }

  lemma MultipleOffset(small: nat, k: nat, t: int, addr: nat)
    requires small > 0 && addr % small == 0
    ensures (addr + t * (small * k)) % small == 0
  {
    var c := addr / small;
    assert addr == c * small;
    assert t * (small * k) == (t * k) * small;
    assert (t * k + c) * small == (t * k) * small + c * small;
    ModShift(t * k + c, small, 0);
  }

  ghost predicate IsPow2(x: nat) { exists n :: Pow2(n) == x }

  // ---------------------------------------------------------------- alignment of segments

  /** calc_segment_alignment: no segment is aligned less than any of its sections. */
  function RaisedAlign(align: nat, list: seq<nat>, secs: seq<Sec>): (a: nat)
    requires forall k :: 0 <= k < |list| ==> list[k] < |secs|
    ensures a >= align
    ensures forall k :: 0 <= k < |list| ==> secs[list[k]].addralign <= a
    ensures a == align || exists k :: 0 <= k < |list| && a == secs[list[k]].addralign
  {
    if list == [] then align else
      var n := |list| - 1;
      var a := RaisedAlign(align, list[..n], secs);
      assert forall k :: 0 <= k < n ==> list[..n][k] == list[k];
      if secs[list[n]].addralign > a then secs[list[n]].addralign else a
  }

  lemma RaiseStep(align: nat, list: seq<nat>, i: nat, secs: seq<Sec>)
    requires i < |list| && forall k :: 0 <= k < |list| ==> list[k] < |secs|
    ensures var a := RaisedAlign(align, list[..i], secs);
            RaisedAlign(align, list[..i + 1], secs) == if secs[list[i]].addralign > a then secs[list[i]].addralign else a
  {
    assert list[..i + 1][..i] == list[..i];
  }

  lemma RaiseNothing(align: nat, secs: seq<Sec>)
    ensures RaisedAlign(align, [], secs) == align
  {}

  /** The segments after calc_segment_alignment reached segment n. */
  function RaiseAll(segs: seq<Seg>, secs: seq<Sec>, n: nat): (r: seq<Seg>)
    requires n <= |segs| && forall k :: 0 <= k < |segs| ==> IndicesOk(segs[k], |secs|)
    ensures |r| == |segs|
  {
    seq(|segs|, i requires 0 <= i < |segs| =>
      assert IndicesOk(segs[i], |secs|);
      if i < n then segs[i].(align := RaisedAlign(segs[i].align, segs[i].secs, secs)) else segs[i])
  }

  // ---------------------------------------------------------------- the whole layout

  /** The segment of step q is aligned: it does not start with the null section and others, and
      its first section is not placed before. */
  predicate StartsFresh(segs: seq<Seg>, order: seq<nat>, secs: seq<Sec>, q: nat)
    requires q < |order| && (forall i :: 0 <= i < |order| ==> order[i] < |segs|) && IndicesOk(segs[order[q]], |secs|)
  {
    var seg := segs[order[q]];
    && seg.secs != [] && !(|seg.secs| > 1 && secs[seg.secs[0]].stype == SHT_NULL)
    && !Earlier(segs, order, q, seg.secs[0])
  }

  /** Section y of it has bytes in the file, a preset address, and is placed in step q. */
  predicate Preset(segs: seq<Seg>, order: seq<nat>, secs: seq<Sec>, q: nat, y: nat)
    requires q < |order| && (forall i :: 0 <= i < |order| ==> order[i] < |segs|)
  {
    && y in segs[order[q]].secs && 0 < y < |secs| && InFile(secs[y]) && secs[y].size != 0 && secs[y].addrSet
    && !Earlier(segs, order, q, y)
  }

  ghost predicate AlignmentOk(align: nat) { align <= 0x8000_0000_0000_0000 && (align == 0 || IsPow2(align)) }

  ghost predicate AlignmentsOk(segs: seq<Seg>, secs: seq<Sec>) {
    && (forall i :: 0 <= i < |segs| ==> AlignmentOk(segs[i].align))
    && (forall x :: 0 <= x < |secs| ==> AlignmentOk(secs[x].addralign))
  }

  lemma RaisedOk(segs: seq<Seg>, secs: seq<Sec>, i: nat)
    requires i < |segs| && (forall k :: 0 <= k < |segs| ==> IndicesOk(segs[k], |secs|)) && AlignmentsOk(segs, secs)
    ensures var g := RaiseAll(segs, secs, |segs|)[i];
            && g == segs[i].(align := g.align) && g.align >= segs[i].align && AlignmentOk(g.align) && IsPow2(AlignOf(g))
            && forall k :: 0 <= k < |g.secs| ==> secs[g.secs[k]].addralign <= g.align
  {
    hide RaisedAlign, IsPow2;
    var g := RaiseAll(segs, secs, |segs|)[i];
    assert IndicesOk(segs[i], |secs|);
    assert g.align == RaisedAlign(segs[i].align, segs[i].secs, secs);
    OneIsPow2();
  }

  lemma OneIsPow2()
    ensures IsPow2(1)
  {
    assert Pow2(0) == 1;
  }

  /** Alignment over the whole layout, as save computes it: the alignment of every segment is
      raised first. With power-of-two alignments up to 2^63, a segment that is aligned in its
      step has a file offset congruent to its virtual address modulo its alignment; every nonempty
      file-backed section with a preset address placed in that step keeps its distance,
      offset - segment offset = address - virtual address; and if its address, not below the
      segment's, is a multiple of its own alignment, so is its file offset. */
  lemma LayoutAligns(h: Head, segs: seq<Seg>, order: seq<nat>, secs: seq<Sec>, pos: nat, q: nat)
    requires InputOk(segs, order, secs) && q < |order| && AlignmentsOk(segs, secs)
    requires Laid(h, RaiseAll(segs, secs, |segs|), order, secs, pos)
    requires LayoutAll(h, RaiseAll(segs, secs, |segs|), order, secs, pos).shoff < M64
    requires StartsFresh(segs, order, secs, q)
    ensures var r, g := LayoutAll(h, RaiseAll(segs, secs, |segs|), order, secs, pos), RaiseAll(segs, secs, |segs|)[order[q]];
            && |r.segs| == |segs| && |r.cur.secs| == |secs|
            && r.segs[order[q]].align == g.align && g.align >= segs[order[q]].align
            && r.segs[order[q]].offset % AlignOf(g) == segs[order[q]].vaddr % AlignOf(g)
            && (forall y: nat :: Preset(segs, order, secs, q, y) ==>
                  Distance(y, segs[order[q]], r.segs[order[q]].offset, secs[y].addr, r.cur.secs))
            && (forall y: nat :: Preset(segs, order, secs, q, y) && AddressAligned(segs[order[q]], secs[y]) ==>
                  r.cur.secs[y].offset % secs[y].addralign == 0)
  {
    hide LayoutAll, Laid, StepView, IsPow2, AlignOf, RaisedAlign, RaiseAll, Earlier, Distance, SegmentRun, Start, CursorBefore, Pow2,
         StartsFresh, AlignmentsOk;
    var all, i := RaiseAll(segs, secs, |segs|), order[q];
    LaidInput(h, all, order, secs, pos);
    RaisedOk(segs, secs, i);
    RaisedInput(segs, order, secs);
    RaisedFresh(segs, order, secs, q);
    StepOfLayout(h, all, order, secs, pos, q);
    var cq, r := CursorBefore(h, all, order, secs, pos, q), LayoutAll(h, all, order, secs, pos);
    StepStarts(h, all, order, secs, pos, q, cq, r);
    forall y: nat | Preset(segs, order, secs, q, y)
      ensures Distance(y, segs[i], r.segs[i].offset, secs[y].addr, r.cur.secs)
      ensures AddressAligned(segs[i], secs[y]) ==> r.cur.secs[y].offset % secs[y].addralign == 0
    {
      RaisedPreset(segs, order, secs, q, y);
      StartAtCursor(all[i], cq);
      StepDistance(h, all, order, secs, pos, q, cq, r, y);
      SameDistance(y, all[i], segs[i], r.segs[i].offset, secs[y].addr, r.cur.secs);
      if AddressAligned(segs[i], secs[y]) {
        SectionRaised(segs, secs, i, y);
        PresetAligned(segs[i], all[i], secs[y], r.cur.secs[y], r.segs[i].offset, y, r.cur.secs);
      }
    }
  }

  lemma SameDistance(y: nat, g: Seg, seg: Seg, start: nat, addr: nat, secs: seq<Sec>)
    requires Distance(y, g, start, addr, secs) && g.vaddr == seg.vaddr
    ensures y < |secs| && Distance(y, seg, start, addr, secs)
  {}

  lemma SectionRaised(segs: seq<Seg>, secs: seq<Sec>, i: nat, y: nat)
    requires i < |segs| && (forall k :: 0 <= k < |segs| ==> IndicesOk(segs[k], |secs|)) && AlignmentsOk(segs, secs)
    requires y in segs[i].secs && y < |secs|
    ensures secs[y].addralign <= RaiseAll(segs, secs, |segs|)[i].align && AlignmentOk(secs[y].addralign)
  {
    hide RaisedAlign, IsPow2;
    RaisedOk(segs, secs, i);
    var k :| 0 <= k < |segs[i].secs| && segs[i].secs[k] == y;
  }

  lemma RaisedFresh(segs: seq<Seg>, order: seq<nat>, secs: seq<Sec>, q: nat)
    requires InputOk(segs, order, secs) && q < |order| && StartsFresh(segs, order, secs, q)
    requires InputOk(RaiseAll(segs, secs, |segs|), order, secs)
    ensures StartsFresh(RaiseAll(segs, secs, |segs|), order, secs, q)
  {
    hide RaisedAlign;
    RaisedInput(segs, order, secs);
  }

  lemma RaisedPreset(segs: seq<Seg>, order: seq<nat>, secs: seq<Sec>, q: nat, y: nat)
    requires InputOk(segs, order, secs) && q < |order| && Preset(segs, order, secs, q, y)
    requires InputOk(RaiseAll(segs, secs, |segs|), order, secs)
    ensures Preset(RaiseAll(segs, secs, |segs|), order, secs, q, y) && y in segs[order[q]].secs && y < |secs|
  {
    hide RaisedAlign;
    RaisedInput(segs, order, secs);
  }

  /** A multiple of the section's own alignment, at or above the segment's address. */
  predicate AddressAligned(seg: Seg, s: Sec) {
    s.addralign > 0 && seg.vaddr <= s.addr < M64 && s.addr % s.addralign == 0
  }

  lemma PresetAligned(seg: Seg, g: Seg, before: Sec, after: Sec, start: nat, y: nat, secs: seq<Sec>)
    requires g == seg.(align := g.align) && AlignmentOk(before.addralign) && IsPow2(AlignOf(g)) && before.addralign <= g.align
    requires AddressAligned(seg, before) && y < |secs| && secs[y] == after && Distance(y, seg, start, before.addr, secs)
    requires start % AlignOf(g) == g.vaddr % AlignOf(g) && after.addralign == before.addralign
    ensures after.offset % before.addralign == 0
  {
    hide Pow2;
    var m :| Pow2(m) == before.addralign;
    var n :| Pow2(n) == AlignOf(g);
    AlignedAddressAlignedOffset(g, after, m, n, start);
  }

  /** Raising alignments changes neither lists nor addresses. */
  lemma RaisedInput(segs: seq<Seg>, order: seq<nat>, secs: seq<Sec>)
    requires InputOk(segs, order, secs)
    ensures var all := RaiseAll(segs, secs, |segs|);
            && InputOk(all, order, secs) && |all| == |segs|
            && (forall i :: 0 <= i < |segs| ==>
                  all[i].secs == segs[i].secs && all[i].vaddr == segs[i].vaddr && all[i].ptype == segs[i].ptype)
    ensures forall q: nat, x: nat :: q <= |order| ==> (Earlier(RaiseAll(segs, secs, |segs|), order, q, x) <==> Earlier(segs, order, q, x))
  {
    hide RaisedAlign;
    var all := RaiseAll(segs, secs, |segs|);
    forall i | 0 <= i < |segs|
      ensures IndicesOk(all[i], |secs|) && all[i].secs == segs[i].secs && all[i].vaddr == segs[i].vaddr && all[i].ptype == segs[i].ptype
    {
      assert IndicesOk(segs[i], |secs|);
    }
    forall q: nat, x: nat | q <= |order| ensures Earlier(all, order, q, x) <==> Earlier(segs, order, q, x) {
      SameBetween(all, segs, order, q, x);
      SameBetween(segs, all, order, q, x);
    }
  }

  lemma SameBetween(a: seq<Seg>, b: seq<Seg>, order: seq<nat>, q: nat, x: nat)
    requires |a| == |b| && q <= |order| && (forall i :: 0 <= i < |order| ==> order[i] < |a|)
    requires forall i :: 0 <= i < |a| ==> a[i].secs == b[i].secs
    ensures Earlier(a, order, q, x) ==> Earlier(b, order, q, x)
  {
    if Earlier(a, order, q, x) {
      var p :| 0 <= p < q && x in a[order[p]].secs;
      assert x in b[order[p]].secs;
    }
  }

  /** Step q seen from the result: the segment starts congruent to its address. */
  lemma StepStarts(h: Head, segs: seq<Seg>, order: seq<nat>, secs: seq<Sec>, pos: nat, q: nat, cq: Cursor, r: Result)
    requires h.m > 0 && q < |order| && InputOk(segs, order, secs) && |cq.secs| == |cq.gen| == |secs|
    requires StepView(h, segs, order, secs, pos, q, cq, r) && segs[order[q]].align <= 0x8000_0000_0000_0000
    requires StartsFresh(segs, order, secs, q)
    ensures var g := segs[order[q]];
            && FreshStart(g, cq) && |r.segs| == |segs| && |r.cur.secs| == |secs| && r.segs[order[q]].align == g.align
            && r.segs[order[q]].offset == Start(h, g, cq).0 && r.segs[order[q]].offset % AlignOf(g) == g.vaddr % AlignOf(g)
  {
    hide SegmentRun, Extents, GenMatches, AlignedPos, Earlier, AlignOf;
    var g := segs[order[q]];
    assert SameData(secs[g.secs[0]], cq.secs[g.secs[0]]);
    FreshStartCongruent(g, cq.pos);
  }

  /** And its sections with preset addresses keep their distance. */
  lemma StepDistance(h: Head, segs: seq<Seg>, order: seq<nat>, secs: seq<Sec>, pos: nat, q: nat, cq: Cursor, r: Result, y: nat)
    requires h.m > 0 && q < |order| && InputOk(segs, order, secs) && |cq.secs| == |cq.gen| == |secs|
    requires StepView(h, segs, order, secs, pos, q, cq, r) && r.shoff < M64
    requires Start(h, segs[order[q]], cq).0 <= Start(h, segs[order[q]], cq).2 && Preset(segs, order, secs, q, y)
    ensures Distance(y, segs[order[q]], Start(h, segs[order[q]], cq).0, secs[y].addr, r.cur.secs)
    ensures r.cur.secs[y].addralign == secs[y].addralign
  {
    hide AlignedPos, Earlier, Extents, GenMatches, Place, PlaceFrom;
    var g := segs[order[q]];
    var (start, size, p) := Start(h, g, cq);
    var run := Run(true, cq.(pos := p), size, size);
    StartMoves(pos, h, g, cq);
    assert g.secs[0..] == g.secs;
    PlaceFromDistance(pos, h, g, start, 0, run, y);
    SegmentKeeps(pos, h, g, cq);
    var k :| 0 <= k < |g.secs| && g.secs[k] == y;
    assert SameData(cq.secs[y], SegmentRun(h, g, cq).cur.secs[y]);
  }

  lemma StartAtCursor(g: Seg, cq: Cursor)
    requires |cq.secs| == |cq.gen| && IndicesOk(g, |cq.secs|) && FreshStart(g, cq)
    ensures forall h: Head :: Start(h, g, cq).0 == Start(h, g, cq).2
  {}
}
