/** Closed forms for what a step of the segment pass computes: positions, gaps and exact sizes of a
    segment laid out afresh, and sizes of one whose sections are placed already. They are functions
    of what layout was given and of the position at which the segment gets its turn. */
module LayoutExact {
  import opened Bytes
  import opened ElfTypes
  import opened Options
  import opened Layout
  import opened LayoutSafety
  import opened LayoutSteps
  import SegmentOrder

  /** The gap in front of a section not placed yet, 0 when its address lies behind the cursor. */
  function FreshGap(seg: Seg, start: nat, s: Sec, pos: nat): nat {
    match Gap(seg, start, s, false, pos, 0)
    case None => 0
    case Some(g) => g
  }

  lemma GapIndependent(seg: Seg, start: nat, s: Sec, pos: nat, filesz: nat)
    ensures Gap(seg, start, s, false, pos, filesz) == Gap(seg, start, s, false, pos, 0)
  {}

  /** A segment that has sections besides the null section. */
  predicate Placeable(seg: Seg, secs: seq<Sec>)
    requires IndicesOk(seg, |secs|)
  {
    seg.secs != [] && (|seg.secs| > 1 || secs[seg.secs[0]].stype != SHT_NULL)
  }

  predicate StartsWithNull(seg: Seg, secs: seq<Sec>)
    requires IndicesOk(seg, |secs|)
  {
    |seg.secs| > 1 && secs[seg.secs[0]].stype == SHT_NULL
  }

  // ---------------------------------------------------------------- laid out afresh

  /** A segment, where it starts, the position and the sizes its sections start from, and the
      sections as layout was given them. */
  datatype Fresh = Fresh(seg: Seg, start: nat, pos: nat, size: nat, secs: seq<Sec>) {
    predicate Ok() { IndicesOk(seg, |secs|) }

    function Count(): nat { |seg.secs| }

    function Sec(j: nat): Sec
      requires Ok() && j < Count()
    {
      secs[seg.secs[j]]
    }

    /** The position before section j of the list. */
    function Pos(j: nat): (p: nat)
      requires Ok() && j <= Count()
      ensures pos <= p
      decreases j, 0
    {
      if j == 0 then pos
      else if Sec(j - 1).stype == SHT_NULL then Pos(j - 1)
      else Place(j - 1) + FileSize(Sec(j - 1))
    }

    function Gap(j: nat): nat
      requires Ok() && j < Count()
      decreases j, 1
    {
      FreshGap(seg, start, Sec(j), Pos(j))
    }

    /** Where section j goes. */
    function Place(j: nat): (p: nat)
      requires Ok() && j < Count()
      ensures Pos(j) <= p
      decreases j, 2
    {
      Pos(j) + Gap(j)
    }

    /** The exact file size after j sections. */
    function File(j: nat): nat
      requires Ok() && j <= Count()
    {
      if j == 0 then size
      else if InFile(Sec(j - 1)) then File(j - 1) + Sec(j - 1).size + Gap(j - 1)
      else File(j - 1)
    }

    /** The exact memory size after j sections. */
    function Mem(j: nat): nat
      requires Ok() && j <= Count()
    {
      if j == 0 then size
      else if Sec(j - 1).stype != SHT_NULL && CountsInMemory(seg, Sec(j - 1)) then Mem(j - 1) + Sec(j - 1).size + Gap(j - 1)
      else Mem(j - 1)
    }

    /** Gaps in the file that the file size does not count: those in front of NOBITS sections. */
    function Skipped(j: nat): nat
      requires Ok() && j <= Count()
    {
      if j == 0 then 0
      else if Sec(j - 1).stype == SHT_NOBITS then Skipped(j - 1) + Gap(j - 1)
      else Skipped(j - 1)
    }
  }

  /** The segment at the position where it gets its turn: one that starts with the null section
      covers the file from its beginning, others are aligned. */
  function FreshFrom(seg: Seg, secs: seq<Sec>, pos: nat): Fresh
    requires IndicesOk(seg, |secs|)
  {
    if StartsWithNull(seg, secs) then Fresh(seg, 0, pos, pos, secs)
    else Fresh(seg, AlignedPos(seg, pos), AlignedPos(seg, pos), 0, secs)
  }

  /** The cursor holds the sections of list as layout was given them, not placed yet. */
  predicate Unplaced(f: Fresh, j: nat, cur: Cursor)
    requires f.Ok() && j <= f.Count()
  {
    && |cur.secs| == |cur.gen| == |f.secs|
    && (forall a :: j <= a < f.Count() ==> cur.secs[f.seg.secs[a]].stype == f.Sec(a).stype)
    && (forall a :: j <= a < f.Count() && f.Sec(a).stype != SHT_NULL ==>
          cur.secs[f.seg.secs[a]] == f.Sec(a) && !cur.gen[f.seg.secs[a]])
  }

  /** Sections a < j stand where f says. */
  predicate SettledAt(f: Fresh, m: nat, j: nat, secs: seq<Sec>)
    requires f.Ok() && j <= f.Count() && m > 0
  {
    && |secs| == |f.secs|
    && (forall a :: 0 <= a < j && f.Sec(a).stype == SHT_NULL ==> secs[f.seg.secs[a]].stype == SHT_NULL)
    && (forall a :: 0 <= a < j && f.Sec(a).stype != SHT_NULL ==>
          secs[f.seg.secs[a]] == Settled(m, f.seg, f.start, f.seg.secs[a], f.Sec(a), f.Place(a)))
  }

  predicate FreshRun(f: Fresh, m: nat, j: nat, r: Run)
    requires f.Ok() && j <= f.Count() && m > 0
  {
    && r.ok && Unplaced(f, j, r.cur) && SettledAt(f, m, j, r.cur.secs)
    && r.cur.pos == f.Pos(j) && r.filesz == W64(f.File(j)) && r.memsz == W64(f.Mem(j))
  }

  lemma WrapSum(a: int, b: int)
    ensures W64(W64(a) + b) == W64(a + b)
  {}

  lemma Differ(list: seq<nat>, a: nat, b: nat)
    requires SegmentOrder.Increasing(list) && a < |list| && b < |list| && a != b
    ensures list[a] != list[b]
  {}

  /** e is r after the fresh section x was placed behind a gap of g bytes. */
  predicate PlacedBehind(m: nat, seg: Seg, start: nat, x: nat, g: nat, r: Run, e: Run)
    requires m > 0 && x < |r.cur.secs| == |r.cur.gen|
  {
    var s := r.cur.secs[x];
    && e.ok && e.cur.pos == r.cur.pos + g + FileSize(s)
    && e.filesz == (if s.stype != SHT_NOBITS then W64(r.filesz + s.size + g) else r.filesz)
    && e.memsz == (if CountsInMemory(seg, s) then W64(r.memsz + s.size + g) else r.memsz)
    && e.cur.gen == r.cur.gen[x := true]
    && e.cur.secs == r.cur.secs[x := Settled(m, seg, start, x, s, r.cur.pos + g)]
  }

  lemma FreshPlace(h: Head, seg: Seg, start: nat, x: nat, r: Run)
    requires h.m > 0 && x < |r.cur.secs| == |r.cur.gen| && !r.cur.gen[x] && r.cur.secs[x].stype != SHT_NULL && r.ok
    requires Place(h, seg, start, x, r).ok
    ensures PlacedBehind(h.m, seg, start, x, FreshGap(seg, start, r.cur.secs[x], r.cur.pos), r, Place(h, seg, start, x, r))
  {
    GapIndependent(seg, start, r.cur.secs[x], r.cur.pos, r.filesz);
  }

  lemma FreshStep(f: Fresh, h: Head, j: nat, r: Run)
    requires f.Ok() && j < f.Count() && h.m > 0 && FreshRun(f, h.m, j, r) && SegmentOrder.Increasing(f.seg.secs)
    ensures Place(h, f.seg, f.start, f.seg.secs[j], r).ok ==> FreshRun(f, h.m, j + 1, Place(h, f.seg, f.start, f.seg.secs[j], r))
  {
    hide SegmentOrder.Increasing, Place, PlacedBehind, FreshGap;
    var x := f.seg.secs[j];
    if r.cur.secs[x].stype == SHT_NULL {
      NullStep(f, h, j, r);
    } else if Place(h, f.seg, f.start, x, r).ok {
      FreshPlace(h, f.seg, f.start, x, r);
      RealStep(f, h.m, j, r, Place(h, f.seg, f.start, x, r));
    }
  }

  lemma RealStep(f: Fresh, m: nat, j: nat, r: Run, e: Run)
    requires f.Ok() && j < f.Count() && m > 0 && FreshRun(f, m, j, r) && SegmentOrder.Increasing(f.seg.secs)
    requires f.Sec(j).stype != SHT_NULL && PlacedBehind(m, f.seg, f.start, f.seg.secs[j], f.Gap(j), r, e)
    ensures FreshRun(f, m, j + 1, e)
  {
    hide SegmentOrder.Increasing, Settled, Unplaced, SettledAt, Fresh.Pos, Fresh.Gap, Fresh.Place, Fresh.File, Fresh.Mem;
    RealSizes(f, m, j, r, e);
    RealSections(f, m, j, r, e);
  }

  lemma Next(f: Fresh, j: nat)
    requires f.Ok() && j < f.Count()
    ensures f.Place(j) == f.Pos(j) + f.Gap(j) && f.Gap(j) == FreshGap(f.seg, f.start, f.Sec(j), f.Pos(j))
    ensures f.Sec(j).stype == SHT_NULL ==> f.Pos(j + 1) == f.Pos(j) && f.File(j + 1) == f.File(j) && f.Mem(j + 1) == f.Mem(j)
    ensures f.Sec(j).stype != SHT_NULL ==>
              && f.Pos(j + 1) == f.Place(j) + FileSize(f.Sec(j))
              && f.File(j + 1) == (if f.Sec(j).stype != SHT_NOBITS then f.File(j) + f.Sec(j).size + f.Gap(j) else f.File(j))
              && f.Mem(j + 1) == (if CountsInMemory(f.seg, f.Sec(j)) then f.Mem(j) + f.Sec(j).size + f.Gap(j) else f.Mem(j))
    ensures f.Skipped(j + 1) == (if f.Sec(j).stype == SHT_NOBITS then f.Skipped(j) + f.Gap(j) else f.Skipped(j))
  {
    hide FreshGap, CountsInMemory;
  }

  lemma Waiting(f: Fresh, j: nat, cur: Cursor)
    requires f.Ok() && j < f.Count() && Unplaced(f, j, cur) && f.Sec(j).stype != SHT_NULL
    ensures f.seg.secs[j] < |cur.secs| == |cur.gen| && cur.secs[f.seg.secs[j]] == f.Sec(j) && !cur.gen[f.seg.secs[j]]
  {}

  lemma RealSizes(f: Fresh, m: nat, j: nat, r: Run, e: Run)
    requires f.Ok() && j < f.Count() && m > 0 && FreshRun(f, m, j, r)
    requires f.Sec(j).stype != SHT_NULL && PlacedBehind(m, f.seg, f.start, f.seg.secs[j], f.Gap(j), r, e)
    ensures e.cur.pos == f.Pos(j + 1) && e.filesz == W64(f.File(j + 1)) && e.memsz == W64(f.Mem(j + 1))
  {
    hide W64, Settled, CountsInMemory, SettledAt, Unplaced, Fresh.Pos, Fresh.Gap, Fresh.Place, Fresh.File, Fresh.Mem, FreshGap;
    Next(f, j);
    assert r.cur.secs[f.seg.secs[j]] == f.Sec(j) by { Waiting(f, j, r.cur); }
    WrapSum(f.File(j), f.Sec(j).size + f.Gap(j));
    WrapSum(f.Mem(j), f.Sec(j).size + f.Gap(j));
  }

  lemma RealSections(f: Fresh, m: nat, j: nat, r: Run, e: Run)
    requires f.Ok() && j < f.Count() && m > 0 && FreshRun(f, m, j, r) && SegmentOrder.Increasing(f.seg.secs)
    requires f.Sec(j).stype != SHT_NULL && PlacedBehind(m, f.seg, f.start, f.seg.secs[j], f.Gap(j), r, e)
    ensures Unplaced(f, j + 1, e.cur) && SettledAt(f, m, j + 1, e.cur.secs)
  {
    hide W64, CountsInMemory, SegmentOrder.Increasing, Settled, Fresh.Pos, Fresh.Gap, Fresh.Place, Fresh.File, Fresh.Mem, FreshGap, PlacedBehind;
    Waiting(f, j, r.cur);
    var t := Settled(m, f.seg, f.start, f.seg.secs[j], f.Sec(j), f.Place(j));
    assert e.cur.secs == r.cur.secs[f.seg.secs[j] := t] && e.cur.gen == r.cur.gen[f.seg.secs[j] := true] by {
      Next(f, j);
      BehindIs(m, f.seg, f.start, f.seg.secs[j], f.Gap(j), r, e);
    }
    OneSettled(f, m, j, r.cur, e.cur, t);
  }

  lemma BehindIs(m: nat, seg: Seg, start: nat, x: nat, g: nat, r: Run, e: Run)
    requires m > 0 && x < |r.cur.secs| == |r.cur.gen| && PlacedBehind(m, seg, start, x, g, r, e)
    ensures e.cur.secs == r.cur.secs[x := Settled(m, seg, start, x, r.cur.secs[x], r.cur.pos + g)]
    ensures e.cur.gen == r.cur.gen[x := true]
  {}

  lemma OneSettled(f: Fresh, m: nat, j: nat, a: Cursor, b: Cursor, t: Sec)
    requires f.Ok() && j < f.Count() && m > 0 && Unplaced(f, j, a) && SettledAt(f, m, j, a.secs)
    requires SegmentOrder.Increasing(f.seg.secs) && f.Sec(j).stype != SHT_NULL
    requires t == Settled(m, f.seg, f.start, f.seg.secs[j], f.Sec(j), f.Place(j))
    requires b.secs == a.secs[f.seg.secs[j] := t] && b.gen == a.gen[f.seg.secs[j] := true]
    ensures Unplaced(f, j + 1, b) && SettledAt(f, m, j + 1, b.secs)
  {
    hide SegmentOrder.Increasing, Settled, Fresh.Place;
    forall k | 0 <= k < f.Count() && k != j
      ensures b.secs[f.seg.secs[k]] == a.secs[f.seg.secs[k]] && b.gen[f.seg.secs[k]] == a.gen[f.seg.secs[k]]
    {
      Differ(f.seg.secs, k, j);
    }
  }

  lemma NullStep(f: Fresh, h: Head, j: nat, r: Run)
    requires f.Ok() && j < f.Count() && h.m > 0 && FreshRun(f, h.m, j, r) && SegmentOrder.Increasing(f.seg.secs)
    requires r.cur.secs[f.seg.secs[j]].stype == SHT_NULL
    ensures FreshRun(f, h.m, j + 1, Place(h, f.seg, f.start, f.seg.secs[j], r))
  {
    hide W64, CountsInMemory, SegmentOrder.Increasing, Settled, Fresh.Pos, Fresh.Gap, Fresh.Place, Fresh.File, Fresh.Mem, FreshGap;
    Next(f, j);
    forall a | 0 <= a < f.Count() && a != j ensures f.seg.secs[a] != f.seg.secs[j] {
      Differ(f.seg.secs, a, j);
    }
  }

  lemma {:induction false} FreshAll(f: Fresh, h: Head, j: nat, r: Run)
    requires f.Ok() && j <= f.Count() && h.m > 0 && FreshRun(f, h.m, j, r) && SegmentOrder.Increasing(f.seg.secs)
    ensures PlaceFrom(h, f.seg, f.start, j, r).ok ==> FreshRun(f, h.m, f.Count(), PlaceFrom(h, f.seg, f.start, j, r))
    decreases f.Count() - j
  {
    hide SegmentOrder.Increasing, FreshRun, Place;
    FreshLengths(f, h.m, j, r);
    if j < f.Count() {
      FreshStep(f, h, j, r);
      var mid := Place(h, f.seg, f.start, f.seg.secs[j], r);
      PlaceLengths(h, f.seg, f.start, f.seg.secs[j], r);
      if mid.ok {
        FreshAll(f, h, j + 1, mid);
      }
    }
  }

  lemma FreshLengths(f: Fresh, m: nat, j: nat, r: Run)
    requires f.Ok() && j <= f.Count() && m > 0 && FreshRun(f, m, j, r)
    ensures |r.cur.secs| == |r.cur.gen| == |f.secs| && r.ok
  {}

  lemma PlaceLengths(h: Head, seg: Seg, start: nat, x: nat, r: Run)
    requires h.m > 0 && x < |r.cur.secs| == |r.cur.gen|
    ensures var e := Place(h, seg, start, x, r); |e.cur.secs| == |e.cur.gen| == |r.cur.secs|
  {}

  /** A segment none of whose sections is placed: the step computes exactly the closed forms. */
  lemma RunIsFresh(h: Head, seg: Seg, secs: seq<Sec>, cur: Cursor)
    requires h.m > 0 && |cur.secs| == |cur.gen| == |secs| && IndicesOk(seg, |secs|) && Placeable(seg, secs)
    requires SegmentOrder.Increasing(seg.secs) && Unplaced(FreshFrom(seg, secs, cur.pos), 0, cur)
    requires SegmentRun(h, seg, cur).ok && cur.pos < M64
    ensures var f := FreshFrom(seg, secs, cur.pos);
            Start(h, seg, cur) == (f.start, f.size, f.pos) && FreshRun(f, h.m, f.Count(), SegmentRun(h, seg, cur))
  {
    hide SegmentOrder.Increasing, AlignedPos, Place, PlaceFrom;
    var f := FreshFrom(seg, secs, cur.pos);
    assert cur.secs[seg.secs[0]].stype == f.Sec(0).stype;
    var r := Run(true, cur.(pos := f.pos), f.size, f.size);
    assert W64(f.size) == f.size;
    FreshAll(f, h, 0, r);
  }

  // ---------------------------------------------------------------- sections placed already

  /** A segment over placed sections: secs are their final records. */
  datatype Shared = Shared(seg: Seg, start: nat, size: nat, secs: seq<Sec>) {
    predicate Ok() { IndicesOk(seg, |secs|) }

    function Count(): nat { |seg.secs| }

    function Sec(j: nat): Sec
      requires Ok() && j < Count()
    {
      secs[seg.secs[j]]
    }

    /** The exact file size after j sections. */
    function File(j: nat): int
      requires Ok() && j <= Count()
    {
      if j == 0 then size
      else if InFile(Sec(j - 1)) then EndOf(Sec(j - 1)) - start
      else File(j - 1)
    }

    /** The exact memory size after j sections. */
    function Mem(j: nat): int
      requires Ok() && j <= Count()
    {
      if j == 0 then size
      else if Sec(j - 1).stype != SHT_NULL && CountsInMemory(seg, Sec(j - 1)) then
        Mem(j - 1) + Sec(j - 1).size + Sec(j - 1).offset - start - File(j - 1)
      else Mem(j - 1)
    }
  }

  /** The segment at the position where it gets its turn. */
  function SharedFrom(seg: Seg, secs: seq<Sec>, pos: nat): Shared
    requires IndicesOk(seg, |secs|) && Placeable(seg, secs)
  {
    if StartsWithNull(seg, secs) then Shared(seg, 0, pos, secs) else Shared(seg, secs[seg.secs[0]].offset, 0, secs)
  }

  /** The records of the list's sections in the cursor are the final ones. */
  predicate AlreadyPlaced(p: Shared, cur: Cursor)
    requires p.Ok()
  {
    && |cur.secs| == |cur.gen| == |p.secs|
    && (forall a :: 0 <= a < p.Count() ==> cur.secs[p.seg.secs[a]].stype == p.Sec(a).stype)
    && (forall a :: 0 <= a < p.Count() && p.Sec(a).stype != SHT_NULL ==>
          cur.secs[p.seg.secs[a]] == p.Sec(a) && cur.gen[p.seg.secs[a]])
  }

  predicate SharedRun(p: Shared, cur: Cursor, j: nat, r: Run)
    requires p.Ok() && j <= p.Count()
  {
    && r.ok && AlreadyPlaced(p, r.cur) && r.cur.secs == cur.secs && r.cur.pos == cur.pos
    && r.filesz == W64(p.File(j)) && r.memsz == W64(p.Mem(j))
  }

  lemma SharedStep(p: Shared, cur: Cursor, h: Head, j: nat, r: Run)
    requires p.Ok() && j < p.Count() && h.m > 0 && SharedRun(p, cur, j, r)
    ensures SharedRun(p, cur, j + 1, Place(h, p.seg, p.start, p.seg.secs[j], r))
  {
    hide CountsInMemory, W64;
    var s := p.Sec(j);
    if s.stype != SHT_NULL {
      var gap := s.offset - p.start - r.filesz;
      Back(p.Mem(j), s.size + s.offset - p.start, p.File(j), r.memsz, r.filesz);
      assert W64(r.filesz + s.size + gap) == W64(s.offset + s.size - p.start);
    }
  }

  lemma Back(a: int, b: int, c: int, wa: int, wc: int)
    requires wa == W64(a) && wc == W64(c)
    ensures W64(wa + b - wc) == W64(a + b - c)
  {}

  lemma {:induction false} SharedAll(p: Shared, cur: Cursor, h: Head, j: nat, r: Run)
    requires p.Ok() && j <= p.Count() && h.m > 0 && SharedRun(p, cur, j, r)
    ensures SharedRun(p, cur, p.Count(), PlaceFrom(h, p.seg, p.start, j, r))
    decreases p.Count() - j
  {
    hide SharedRun, Place;
    SharedLengths(p, cur, j, r);
    if j < p.Count() {
      SharedStep(p, cur, h, j, r);
      var mid := Place(h, p.seg, p.start, p.seg.secs[j], r);
      SharedLengths(p, cur, j + 1, mid);
      SharedAll(p, cur, h, j + 1, mid);
    }
  }

  lemma SharedLengths(p: Shared, cur: Cursor, j: nat, r: Run)
    requires p.Ok() && j <= p.Count() && SharedRun(p, cur, j, r)
    ensures |r.cur.secs| == |r.cur.gen| == |p.secs| && r.ok
  {}

  /** A segment all of whose sections are placed: no section moves, and the sizes are exact. */
  lemma RunIsShared(h: Head, seg: Seg, secs: seq<Sec>, cur: Cursor)
    requires h.m > 0 && |cur.secs| == |cur.gen| == |secs| && IndicesOk(seg, |secs|) && Placeable(seg, secs)
    requires AlreadyPlaced(SharedFrom(seg, secs, cur.pos), cur) && cur.pos < M64
    ensures var p := SharedFrom(seg, secs, cur.pos);
            Start(h, seg, cur) == (p.start, p.size, cur.pos) && SharedRun(p, cur, p.Count(), SegmentRun(h, seg, cur))
  {
    hide AlignedPos, Place, PlaceFrom;
    var p := SharedFrom(seg, secs, cur.pos);
    assert cur.secs[seg.secs[0]].stype == p.Sec(0).stype;
    var r := Run(true, cur, p.size, p.size);
    assert W64(p.size) == p.size;
    assert cur.(pos := cur.pos) == cur;
    SharedAll(p, cur, h, 0, r);
  }

  // ---------------------------------------------------------------- in a whole layout

  /** The position at which the segment of step q gets its turn. */
  function Turn(h: Head, segs: seq<Seg>, order: seq<nat>, secs: seq<Sec>, pos: nat, q: nat): nat
    requires h.m > 0 && q < |order| && InputOk(segs, order, secs)
  {
    CursorBefore(h, segs, order, secs, pos, q).pos
  }

  function FreshAt(h: Head, segs: seq<Seg>, order: seq<nat>, secs: seq<Sec>, pos: nat, q: nat): (f: Fresh)
    requires h.m > 0 && q < |order| && InputOk(segs, order, secs)
    ensures f.Ok() && f.seg == segs[order[q]] && f.secs == secs
  {
    FreshFrom(segs[order[q]], secs, Turn(h, segs, order, secs, pos, q))
  }

  /** The segment's header and sections as the closed forms say. */
  predicate ByFresh(f: Fresh, m: nat, seg: Seg, secs: seq<Sec>, end: nat)
    requires f.Ok() && m > 0
  {
    && SettledAt(f, m, f.Count(), secs) && f.Pos(f.Count()) <= end
    && seg == f.seg.(offset := f.start, filesz := W64(f.File(f.Count())) % m,
                     memsz := if f.seg.memsz < W64(f.Mem(f.Count())) then W64(f.Mem(f.Count())) % m else f.seg.memsz)
  }

  /** A segment that is first to place its sections. */
  lemma FreshInLayout(h: Head, segs: seq<Seg>, order: seq<nat>, secs: seq<Sec>, pos: nat, q: nat)
    requires Laid(h, segs, order, secs, pos) && q < |order| && LayoutAll(h, segs, order, secs, pos).shoff < M64
    requires Sorted(segs) && Placeable(segs[order[q]], secs) && FirstToPlace(segs, order, secs, q)
    ensures var f, r := FreshAt(h, segs, order, secs, pos, q), LayoutAll(h, segs, order, secs, pos);
            |r.segs| == |segs| && ByFresh(f, h.m, r.segs[order[q]], r.cur.secs, r.shoff)
  {
    hide LayoutAll, SegmentRun, Start, Laid, SegmentOrder.Increasing, AlignedPos, CursorBefore, Extents, GenMatches, InputOk;
    LaidInput(h, segs, order, secs, pos);
    StepOfLayout(h, segs, order, secs, pos, q);
    var cq, f := CursorBefore(h, segs, order, secs, pos, q), FreshAt(h, segs, order, secs, pos, q);
    FirstUnplaced(segs, order, secs, q, f, cq);
    RunIsFresh(h, segs[order[q]], secs, cq);
    SettledStays(f, h.m, SegmentRun(h, segs[order[q]], cq).cur.secs, LayoutAll(h, segs, order, secs, pos).cur.secs);
  }

  lemma FirstUnplaced(segs: seq<Seg>, order: seq<nat>, secs: seq<Sec>, q: nat, f: Fresh, cq: Cursor)
    requires q < |order| && (forall i :: 0 <= i < |order| ==> order[i] < |segs|) && |cq.secs| == |cq.gen| == |secs|
    requires f.Ok() && f.seg == segs[order[q]] && f.secs == secs && FirstToPlace(segs, order, secs, q)
    requires forall x :: 0 <= x < |secs| ==> SameData(secs[x], cq.secs[x]) && (!cq.gen[x] ==> cq.secs[x] == secs[x])
    requires forall x :: 0 <= x < |secs| ==> (cq.gen[x] <==> Earlier(segs, order, q, x))
    ensures Unplaced(f, 0, cq)
  {
    hide Earlier;
    forall a | 0 <= a < f.Count() && f.Sec(a).stype != SHT_NULL
      ensures cq.secs[f.seg.secs[a]] == f.Sec(a) && !cq.gen[f.seg.secs[a]]
    {
      assert f.seg.secs[a] in segs[order[q]].secs && Real(secs, f.seg.secs[a]);
    }
  }

  lemma SettledStays(f: Fresh, m: nat, a: seq<Sec>, b: seq<Sec>)
    requires f.Ok() && m > 0 && SettledAt(f, m, f.Count(), a) && |b| == |a|
    requires forall k :: 0 <= k < f.Count() ==> b[f.seg.secs[k]] == a[f.seg.secs[k]]
    ensures SettledAt(f, m, f.Count(), b)
  {
    hide Settled;
  }

  /** The segment of step q over final records, when others placed its sections. */
  function SharedAt(h: Head, segs: seq<Seg>, order: seq<nat>, secs: seq<Sec>, pos: nat, q: nat): (p: Shared)
    requires h.m > 0 && q < |order| && InputOk(segs, order, secs) && Placeable(segs[order[q]], secs)
    requires var r := LayoutAll(h, segs, order, secs, pos);
             |r.cur.secs| == |secs| && forall x :: 0 <= x < |secs| ==> r.cur.secs[x].stype == secs[x].stype
    ensures p.Ok() && p.seg == segs[order[q]] && p.secs == LayoutAll(h, segs, order, secs, pos).cur.secs
  {
    SharedFrom(segs[order[q]], LayoutAll(h, segs, order, secs, pos).cur.secs, Turn(h, segs, order, secs, pos, q))
  }

  predicate ByShared(p: Shared, m: nat, seg: Seg)
    requires p.Ok() && m > 0
  {
    seg == p.seg.(offset := p.start, filesz := W64(p.File(p.Count())) % m,
                  memsz := if p.seg.memsz < W64(p.Mem(p.Count())) then W64(p.Mem(p.Count())) % m else p.seg.memsz)
  }

  lemma TypesKept(h: Head, segs: seq<Seg>, order: seq<nat>, secs: seq<Sec>, pos: nat)
    requires Laid(h, segs, order, secs, pos)
    ensures var r := LayoutAll(h, segs, order, secs, pos);
            && |r.cur.secs| == |secs| && (forall x :: 0 <= x < |secs| ==> r.cur.secs[x].stype == secs[x].stype)
            && (forall x :: 0 <= x < |secs| ==> SameData(secs[x], r.cur.secs[x]))
  {
    hide LayoutAll;
    LayoutIsDisjoint(h, segs, order, secs, pos);
  }

  lemma SharedInLayout(h: Head, segs: seq<Seg>, order: seq<nat>, secs: seq<Sec>, pos: nat, q: nat)
    requires Laid(h, segs, order, secs, pos) && q < |order| && LayoutAll(h, segs, order, secs, pos).shoff < M64
    requires Placeable(segs[order[q]], secs) && AllPlaced(segs, order, secs, q)
    ensures var r := LayoutAll(h, segs, order, secs, pos);
            && |r.segs| == |segs| && |r.cur.secs| == |secs| && (forall x :: 0 <= x < |secs| ==> r.cur.secs[x].stype == secs[x].stype)
            && ByShared(SharedAt(h, segs, order, secs, pos, q), h.m, r.segs[order[q]])
            && (forall a :: 0 <= a < |segs[order[q]].secs| && Real(secs, segs[order[q]].secs[a]) ==>
                  EndOf(r.cur.secs[segs[order[q]].secs[a]]) <= Turn(h, segs, order, secs, pos, q))
            && Turn(h, segs, order, secs, pos, q) <= r.shoff
  {
    hide LayoutAll, SegmentRun, Start, Laid, CursorBefore, Extents, InputOk;
    LaidInput(h, segs, order, secs, pos);
    TypesKept(h, segs, order, secs, pos);
    StepOfLayout(h, segs, order, secs, pos, q);
    var cq, p, r := CursorBefore(h, segs, order, secs, pos, q), SharedAt(h, segs, order, secs, pos, q), LayoutAll(h, segs, order, secs, pos);
    AllAlreadyPlaced(segs, order, secs, q, p, cq);
    RunIsShared(h, segs[order[q]], r.cur.secs, cq);
    forall a | 0 <= a < |segs[order[q]].secs| && Real(secs, segs[order[q]].secs[a])
      ensures EndOf(r.cur.secs[segs[order[q]].secs[a]]) <= cq.pos
    {
      var x := segs[order[q]].secs[a];
      assert x in segs[order[q]].secs;
      PlacedBefore(pos, cq, x);
    }
  }

  lemma PlacedBefore(base: nat, cur: Cursor, x: nat)
    requires Good(base, cur) && Real(cur.secs, x) && cur.gen[x]
    ensures base <= cur.secs[x].offset && EndOf(cur.secs[x]) <= cur.pos
  {
    var a :| 0 <= a < |cur.placed| && cur.placed[a] == x;
  }

  lemma AllAlreadyPlaced(segs: seq<Seg>, order: seq<nat>, secs: seq<Sec>, q: nat, p: Shared, cq: Cursor)
    requires q < |order| && (forall i :: 0 <= i < |order| ==> order[i] < |segs|) && |cq.secs| == |cq.gen| == |secs| == |p.secs|
    requires p.Ok() && p.seg == segs[order[q]] && AllPlaced(segs, order, secs, q)
    requires forall x :: 0 <= x < |secs| ==> SameData(secs[x], cq.secs[x]) && SameData(secs[x], p.secs[x])
    requires forall x :: 0 <= x < |secs| ==> (cq.gen[x] <==> Earlier(segs, order, q, x))
    requires forall x :: 0 <= x < |secs| && cq.gen[x] ==> cq.secs[x] == p.secs[x]
    ensures AlreadyPlaced(p, cq)
  {
    hide Earlier;
    forall a | 0 <= a < p.Count() && p.Sec(a).stype != SHT_NULL
      ensures cq.secs[p.seg.secs[a]] == p.Sec(a) && cq.gen[p.seg.secs[a]]
    {
      assert p.seg.secs[a] in segs[order[q]].secs && Real(secs, p.seg.secs[a]);
    }
  }
}
