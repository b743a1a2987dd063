/** What layout makes of one segment, read off its input and its result alone: the file position, the
    file size and the memory size before and after every section of its list. */
module LayoutRows {
  import opened Arith
  import opened Bytes
  import opened ElfTypes
  import opened Options
  import opened Layout
  import opened LayoutSafety
  import opened LayoutSteps
  import opened LayoutExact
  import opened LayoutLoose
  import SegmentOrder

  /** Sections with SHF_ALLOC (0x2) occupy memory, except that a section of type SHT_NOBITS (8) with
      SHF_TLS (0x400) does so in a PT_TLS segment (7) only. */
  predicate Occupies(seg: Seg, s: Sec) {
    s.flags / 2 % 2 == 1 && !(s.flags / 0x400 % 2 == 1 && s.stype == 8 && seg.ptype != 7)
  }

  /** A preset address binds a section that has bytes in the file. */
  predicate Bound(s: Sec) { s.addrSet && s.stype != 0 && s.stype != 8 && s.size != 0 }

  /** Section s goes to position p, from position e on: without an address to its alignment, with one
      to the distance of that address from the segment's. */
  predicate Goes(seg: Seg, start: nat, s: Sec, e: nat, p: nat) {
    if !s.addrSet then First(p, e, s.addralign)
    else if Bound(s) then e <= p < e + M64 && (p - start) % M64 == (s.addr - seg.vaddr) % M64
    else p == e
  }

  /** Position, file size and memory size. */
  datatype Place = Place(pos: nat, file: int, mem: int)

  /** A section that this segment places. */
  predicate Row(seg: Seg, start: nat, m: nat, x: nat, s: Sec, after: Sec, a: Place, b: Place)
    requires m > 0
  {
    if s.stype == 0 then b == a else
      var p := b.pos - BytesOf(s);
      && a.pos <= p && Goes(seg, start, s, a.pos, p)
      && after == s.(offset := if x == 0 then s.offset else p, addrSet := true,
                     addr := if s.addrSet then s.addr else (seg.vaddr + p - start) % M64 % m)
      && b.file == a.file + (if s.stype == 8 then 0 else s.size + (p - a.pos))
      && b.mem == a.mem + (if Occupies(seg, s) then s.size + (p - a.pos) else 0)
  }

  /** A section placed already. */
  predicate PlacedRow(seg: Seg, start: nat, s: Sec, a: Place, b: Place) {
    if s.stype == 0 then b == a else
      && b.pos == a.pos
      && b.file == (if s.stype == 8 then a.file else s.offset + s.size - start)
      && b.mem == a.mem + (if Occupies(seg, s) then s.offset + s.size - start - a.file else 0)
  }

  predicate NullLeads(seg: Seg, secs: seq<Sec>)
    requires IndicesOk(seg, |secs|)
  {
    |seg.secs| > 1 && secs[seg.secs[0]].stype == 0
  }

  /** The segment header that goes with a start and the last row. */
  predicate Totals(seg: Seg, g: Seg, m: nat, start: nat, last: Place)
    requires m > 0
  {
    g == seg.(offset := start, filesz := last.file % M64 % m,
              memsz := if seg.memsz < last.mem % M64 then last.mem % M64 % m else seg.memsz)
  }

  lemma OccupiesIs(seg: Seg, s: Sec)
    ensures CountsInMemory(seg, s) <==> Occupies(seg, s)
  {}

  // ---------------------------------------------------------------- gaps

  /** The preset address lies behind the cursor: such a section cannot be placed. */
  predicate Behind(seg: Seg, start: nat, s: Sec, pos: nat) {
    Bound(s) && (s.addr - seg.vaddr) % M64 < (pos - start) % M64
  }

  lemma NoGapIff(seg: Seg, start: nat, s: Sec, pos: nat)
    requires s.stype != 0
    ensures Gap(seg, start, s, false, pos, 0).None? <==> Behind(seg, start, s, pos)
  {}

  lemma Congruent(a: int, b: int)
    ensures (a - a % M64 + b % M64) % M64 == b % M64
  {
    assert a - a % M64 == a / M64 * M64;
  }

  lemma GapGoes(seg: Seg, start: nat, s: Sec, pos: nat)
    requires s.stype != 0 && !Behind(seg, start, s, pos)
    ensures Goes(seg, start, s, pos, pos + FreshGap(seg, start, s, pos))
  {
    if !s.addrSet {
      hide First;
      AlignedGap(s.addralign, pos);
    } else if Bound(s) {
      BoundGap(seg, start, s, pos);
    }
  }

  lemma BoundGap(seg: Seg, start: nat, s: Sec, pos: nat)
    requires Bound(s) && !Behind(seg, start, s, pos)
    ensures var p := pos + FreshGap(seg, start, s, pos);
            pos <= p < pos + M64 && (p - start) % M64 == (s.addr - seg.vaddr) % M64
  {
    Congruent(pos - start, s.addr - seg.vaddr);
  }

  lemma AlignedGap(align: nat, pos: nat)
    ensures var n := if align == 0 then 1 else align; First(pos + (n - pos % n) % n, pos, align)
  {
    if align > 1 {
      hide First;
      RoundsUp(pos, align);
      Wrapped(pos % align, align);
    }
  }

  lemma Wrapped(e: nat, n: nat)
    requires e < n
    ensures (n - e) % n == if e == 0 then 0 else n - e
  {
    if e > 0 {
      ModShift(0, n, n - e);
    }
  }

  // ---------------------------------------------------------------- when the run is refused

  predicate BehindAt(f: Fresh, a: nat)
    requires f.Ok() && a < f.Count()
  {
    Behind(f.seg, f.start, f.Sec(a), f.Pos(a))
  }

  lemma OneRefused(f: Fresh, h: Head, j: nat, r: Run)
    requires f.Ok() && j < f.Count() && h.m > 0 && FreshRun(f, h.m, j, r)
    ensures Layout.Place(h, f.seg, f.start, f.seg.secs[j], r).ok <==> !BehindAt(f, j)
  {
    hide Fresh.Pos, SettledAt;
    var x := f.seg.secs[j];
    if f.Sec(j).stype != 0 {
      GapIndependent(f.seg, f.start, f.Sec(j), f.Pos(j), r.filesz);
      NoGapIff(f.seg, f.start, f.Sec(j), f.Pos(j));
    }
  }

  /** The sections of a fresh segment are refused exactly when one lies behind. */
  lemma {:induction false} RefusedIff(f: Fresh, h: Head, j: nat, r: Run)
    requires f.Ok() && j <= f.Count() && h.m > 0 && FreshRun(f, h.m, j, r) && SegmentOrder.Increasing(f.seg.secs)
    ensures PlaceFrom(h, f.seg, f.start, j, r).ok <==> forall a :: j <= a < f.Count() ==> !BehindAt(f, a)
    decreases f.Count() - j
  {
    hide SegmentOrder.Increasing, FreshRun, Layout.Place, BehindAt;
    FreshLengths(f, h.m, j, r);
    if j < f.Count() {
      var mid := Layout.Place(h, f.seg, f.start, f.seg.secs[j], r);
      FreshStep(f, h, j, r);
      OneRefused(f, h, j, r);
      PlaceLengths(h, f.seg, f.start, f.seg.secs[j], r);
      if mid.ok {
        RefusedIff(f, h, j + 1, mid);
      } else {
        assert PlaceFrom(h, f.seg, f.start, j + 1, mid) == mid;
      }
    }
  }

  /** A segment none of whose sections is placed is laid out exactly when none lies behind. */
  lemma RunRefusedIff(h: Head, seg: Seg, secs: seq<Sec>, cur: Cursor)
    requires h.m > 0 && |cur.secs| == |cur.gen| == |secs| && IndicesOk(seg, |secs|) && Placeable(seg, secs)
    requires SegmentOrder.Increasing(seg.secs) && Unplaced(FreshFrom(seg, secs, cur.pos), 0, cur) && cur.pos < M64
    ensures SegmentRun(h, seg, cur).ok <==>
            forall a :: 0 <= a < |seg.secs| ==> !BehindAt(FreshFrom(seg, secs, cur.pos), a)
  {
    hide SegmentOrder.Increasing, AlignedPos, Layout.Place, PlaceFrom, BehindAt;
    var f := FreshFrom(seg, secs, cur.pos);
    assert cur.secs[seg.secs[0]].stype == f.Sec(0).stype;
    var r := Run(true, cur.(pos := f.pos), f.size, f.size);
    assert W64(f.size) == f.size;
    RefusedIff(f, h, 0, r);
  }

  // ---------------------------------------------------------------- the rows of a segment

  /** The rows of a segment that places its sections. */
  ghost predicate Rows(seg: Seg, start: nat, m: nat, secs: seq<Sec>, after: seq<Sec>, rows: seq<Place>)
    requires m > 0 && IndicesOk(seg, |secs|) && |after| == |secs|
  {
    && |rows| == |seg.secs| + 1
    && forall j, k :: 0 <= j < |seg.secs| && k == j + 1 ==>
         Row(seg, start, m, seg.secs[j], secs[seg.secs[j]], after[seg.secs[j]], rows[j], rows[k])
  }

  ghost predicate PlacedRows(seg: Seg, start: nat, after: seq<Sec>, rows: seq<Place>)
    requires IndicesOk(seg, |after|)
  {
    && |rows| == |seg.secs| + 1
    && forall j, k :: 0 <= j < |seg.secs| && k == j + 1 ==> PlacedRow(seg, start, after[seg.secs[j]], rows[j], rows[k])
  }

  lemma FreshRow(f: Fresh, m: nat, after: seq<Sec>, j: nat)
    requires f.Ok() && m > 0 && j < f.Count() && SettledAt(f, m, f.Count(), after) && !BehindAt(f, j)
    ensures Row(f.seg, f.start, m, f.seg.secs[j], f.Sec(j), after[f.seg.secs[j]],
                Place(f.Pos(j), f.File(j), f.Mem(j)), Place(f.Pos(j + 1), f.File(j + 1), f.Mem(j + 1)))
  {
    hide Fresh.Pos, Fresh.Gap, Fresh.Place, Fresh.File, Fresh.Mem, FreshGap, CountsInMemory, Occupies, Goes, Behind;
    Next(f, j);
    OccupiesIs(f.seg, f.Sec(j));
    if f.Sec(j).stype != 0 {
      GapGoes(f.seg, f.start, f.Sec(j), f.Pos(j));
    }
  }

  /** A segment that is first to place its sections. */
  lemma FreshSegment(h: Head, segs: seq<Seg>, order: seq<nat>, secs: seq<Sec>, pos: nat, q: nat) returns (rows: seq<Place>)
    requires Laid(h, segs, order, secs, pos) && q < |order| && LayoutAll(h, segs, order, secs, pos).shoff < M64
    requires Sorted(segs) && Placeable(segs[order[q]], secs) && FirstToPlace(segs, order, secs, q)
    ensures var r, seg, turn := LayoutAll(h, segs, order, secs, pos), segs[order[q]], Turn(h, segs, order, secs, pos, q);
            && |r.segs| == |segs| && |r.cur.secs| == |secs| && |rows| > 0
            && var g, leads := r.segs[order[q]], NullLeads(seg, secs);
               && Rows(seg, g.offset, h.m, secs, r.cur.secs, rows)
               && rows[0] == (if leads then Place(turn, turn, turn) else Place(AlignedPos(seg, turn), 0, 0))
               && Totals(seg, g, h.m, if leads then 0 else AlignedPos(seg, turn), rows[|seg.secs|])
  {
    hide LayoutAll, SegmentRun, Start, Laid, SegmentOrder.Increasing, AlignedPos, CursorBefore, Extents, GenMatches, InputOk, BehindAt, Row,
         Fresh.Pos, Fresh.File, Fresh.Mem, SettledAt;
    LaidInput(h, segs, order, secs, pos);
    FreshInLayout(h, segs, order, secs, pos, q);
    TypesKept(h, segs, order, secs, pos);
    NoneBehind(h, segs, order, secs, pos, q);
    var f, r := FreshAt(h, segs, order, secs, pos, q), LayoutAll(h, segs, order, secs, pos);
    FreshZero(f);
    rows := seq(f.Count() + 1, j requires 0 <= j <= f.Count() => Place(f.Pos(j), f.File(j), f.Mem(j)));
    forall j, k | 0 <= j < f.Count() && k == j + 1
      ensures Row(f.seg, f.start, h.m, f.seg.secs[j], secs[f.seg.secs[j]], r.cur.secs[f.seg.secs[j]], rows[j], rows[k])
    {
      FreshRow(f, h.m, r.cur.secs, j);
    }
  }

  lemma FreshZero(f: Fresh)
    requires f.Ok()
    ensures f.Pos(0) == f.pos && f.File(0) == f.size && f.Mem(0) == f.size
  {}

  lemma NoneBehind(h: Head, segs: seq<Seg>, order: seq<nat>, secs: seq<Sec>, pos: nat, q: nat)
    requires Laid(h, segs, order, secs, pos) && q < |order| && LayoutAll(h, segs, order, secs, pos).shoff < M64
    requires Sorted(segs) && Placeable(segs[order[q]], secs) && FirstToPlace(segs, order, secs, q)
    ensures forall a :: 0 <= a < |segs[order[q]].secs| ==> !BehindAt(FreshAt(h, segs, order, secs, pos, q), a)
  {
    hide LayoutAll, SegmentRun, Start, Laid, SegmentOrder.Increasing, AlignedPos, CursorBefore, Extents, GenMatches, InputOk, BehindAt;
    LaidInput(h, segs, order, secs, pos);
    StepOfLayout(h, segs, order, secs, pos, q);
    var cq, f := CursorBefore(h, segs, order, secs, pos, q), FreshAt(h, segs, order, secs, pos, q);
    FirstUnplaced(segs, order, secs, q, f, cq);
    RunRefusedIff(h, segs[order[q]], secs, cq);
  }

  lemma SharedRow(p: Shared, pos: nat, j: nat)
    requires p.Ok() && j < p.Count()
    ensures PlacedRow(p.seg, p.start, p.Sec(j), Place(pos, p.File(j), p.Mem(j)), Place(pos, p.File(j + 1), p.Mem(j + 1)))
  {
    OccupiesIs(p.seg, p.Sec(j));
  }

  /** A segment whose sections others placed: nothing moves, and it starts where its first section
      stands, or at the beginning of the file. */
  lemma SharedSegment(h: Head, segs: seq<Seg>, order: seq<nat>, secs: seq<Sec>, pos: nat, q: nat) returns (rows: seq<Place>)
    requires Laid(h, segs, order, secs, pos) && q < |order| && LayoutAll(h, segs, order, secs, pos).shoff < M64
    requires Placeable(segs[order[q]], secs) && AllPlaced(segs, order, secs, q)
    ensures var r, seg, turn := LayoutAll(h, segs, order, secs, pos), segs[order[q]], Turn(h, segs, order, secs, pos, q);
            && |r.segs| == |segs| && |r.cur.secs| == |secs| && |rows| > 0 && IndicesOk(seg, |secs|)
            && var g, leads := r.segs[order[q]], NullLeads(seg, secs);
               && PlacedRows(seg, g.offset, r.cur.secs, rows)
               && rows[0] == (if leads then Place(turn, turn, turn) else Place(turn, 0, 0))
               && Totals(seg, g, h.m, if leads then 0 else r.cur.secs[seg.secs[0]].offset, rows[|seg.secs|])
  {
    hide LayoutAll, Laid, CursorBefore, InputOk, PlacedRow, Shared.File, Shared.Mem, AllPlaced;
    LaidInput(h, segs, order, secs, pos);
    SharedInLayout(h, segs, order, secs, pos, q);
    var p, turn := SharedAt(h, segs, order, secs, pos, q), Turn(h, segs, order, secs, pos, q);
    SharedZero(p);
    rows := seq(p.Count() + 1, j requires 0 <= j <= p.Count() => Place(turn, p.File(j), p.Mem(j)));
    forall j, k | 0 <= j < p.Count() && k == j + 1 ensures PlacedRow(p.seg, p.start, p.Sec(j), rows[j], rows[k]) {
      SharedRow(p, turn, j);
    }
  }

  lemma SharedZero(p: Shared)
    requires p.Ok()
    ensures p.File(0) == p.size && p.Mem(0) == p.size
  {}
}
