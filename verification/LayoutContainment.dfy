/** Segments enclose their sections: exactly when, for segments laid out afresh and for segments
    over sections placed already. */
module LayoutContainment {
  import opened Arith
  import opened Bytes
  import opened ElfTypes
  import opened Options
  import opened Layout
  import opened LayoutSafety
  import opened LayoutSteps
  import opened LayoutExact
  import LayoutAlignment
  import opened SegmentOrder

  /** Every file-backed section of the segment lies in [offset, offset + filesz). */
  predicate Inside(secs: seq<Sec>, seg: Seg) {
    forall k :: 0 <= k < |seg.secs| ==>
      seg.secs[k] < |secs| &&
      (InFile(secs[seg.secs[k]]) ==>
         seg.offset <= secs[seg.secs[k]].offset && EndOf(secs[seg.secs[k]]) <= seg.offset + seg.filesz)
  }

  /** The sections of the list stand in the file in list order. */
  predicate ListInOrder(secs: seq<Sec>, list: seq<nat>) {
    forall a, b :: 0 <= a < b < |list| && Real(secs, list[a]) && Real(secs, list[b]) ==>
      EndOf(secs[list[a]]) <= secs[list[b]].offset
  }

  // ---------------------------------------------------------------- arithmetic of a fresh segment

  /** A NOBITS section without an address is aligned in the file without counting there. */
  predicate Unaddressed(s: Sec) { s.stype == SHT_NOBITS && !s.addrSet }

  /** No such section in front of a file-backed one is moved by its alignment. */
  predicate Flush(f: Fresh)
    requires f.Ok()
  {
    forall a, b :: 0 <= a < b < f.Count() && Unaddressed(f.Sec(a)) && InFile(f.Sec(b)) ==> f.Gap(a) == 0
  }

  lemma {:induction false} Monotone(f: Fresh, a: nat, b: nat)
    requires f.Ok() && a <= b <= f.Count()
    ensures f.Pos(a) <= f.Pos(b) && f.File(a) <= f.File(b) && f.Skipped(a) <= f.Skipped(b) && f.Mem(a) <= f.Mem(b)
    decreases b
  {
    hide Fresh.Pos, Fresh.Gap, Fresh.Place, Fresh.File, Fresh.Mem, Fresh.Skipped, CountsInMemory, FreshGap;
    if a < b {
      Next(f, b - 1);
      Monotone(f, a, b - 1);
    }
  }

  /** What the file size does not count is what was skipped. */
  lemma {:induction false} Conserved(f: Fresh, j: nat)
    requires f.Ok() && j <= f.Count() && f.start + f.size == f.pos
    ensures f.File(j) + f.Skipped(j) + f.start == f.Pos(j)
  {
    hide Fresh.Pos, Fresh.Gap, Fresh.Place, Fresh.File, Fresh.Mem, Fresh.Skipped, CountsInMemory, FreshGap;
    if j == 0 {
      AtZero(f);
    } else {
      Next(f, j - 1);
      Conserved(f, j - 1);
    }
  }

  lemma AtZero(f: Fresh)
    requires f.Ok()
    ensures f.Pos(0) == f.pos && f.File(0) == f.size && f.Mem(0) == f.size && f.Skipped(0) == 0
  {}

  /** Only address-less NOBITS sections are skipped to. */
  lemma AddressedNobits(seg: Seg, start: nat, s: Sec, pos: nat)
    requires s.stype == SHT_NOBITS && s.addrSet
    ensures FreshGap(seg, start, s, pos) == 0
  {}

  lemma {:induction false} NothingSkipped(f: Fresh, j: nat)
    requires f.Ok() && j <= f.Count() && forall a :: 0 <= a < j && Unaddressed(f.Sec(a)) ==> f.Gap(a) == 0
    ensures f.Skipped(j) == 0
  {
    hide Fresh.Pos, Fresh.Gap, Fresh.Place, Fresh.File, Fresh.Mem, Fresh.Skipped, CountsInMemory, FreshGap;
    if j == 0 {
      AtZero(f);
    } else {
      Next(f, j - 1);
      NothingSkipped(f, j - 1);
      if f.Sec(j - 1).stype == SHT_NOBITS && f.Sec(j - 1).addrSet {
        AddressedNobits(f.seg, f.start, f.Sec(j - 1), f.Pos(j - 1));
      }
    }
  }

  /** The last file-backed section from index b on. */
  lemma {:induction false} LastFileBacked(f: Fresh, b: nat, n: nat) returns (l: nat)
    requires f.Ok() && b < n <= f.Count() && InFile(f.Sec(b))
    ensures b <= l < n && InFile(f.Sec(l)) && f.File(l + 1) == f.File(n)
    decreases n
  {
    hide Fresh.Pos, Fresh.Gap, Fresh.Place, Fresh.File, Fresh.Mem, Fresh.Skipped, CountsInMemory, FreshGap;
    if InFile(f.Sec(n - 1)) {
      l := n - 1;
    } else {
      Next(f, n - 1);
      l := LastFileBacked(f, b, n - 1);
    }
  }

  // ---------------------------------------------------------------- a segment laid out afresh

  /** Section 0 is the null section; the position and the sizes agree. */
  predicate Sane(f: Fresh) {
    f.Ok() && (f.secs != [] ==> f.secs[0].stype == SHT_NULL) && f.start + f.size == f.pos
  }

  lemma PlaceOfSection(f: Fresh, m: nat, secs: seq<Sec>, a: nat)
    requires Sane(f) && m > 0 && SettledAt(f, m, f.Count(), secs) && a < f.Count()
    ensures f.seg.secs[a] < |secs| == |f.secs|
    ensures InFile(secs[f.seg.secs[a]]) <==> InFile(f.Sec(a))
    ensures Real(secs, f.seg.secs[a]) <==> f.Sec(a).stype != SHT_NULL
    ensures Real(secs, f.seg.secs[a]) ==>
              secs[f.seg.secs[a]].offset == f.Place(a) && f.Pos(a) <= f.Place(a) && EndOf(secs[f.seg.secs[a]]) == f.Pos(a + 1)
  {
    hide FreshGap;
    if f.Sec(a).stype != SHT_NULL {
      assert f.seg.secs[a] != 0;
    }
  }

  lemma FreshOrder(f: Fresh, m: nat, secs: seq<Sec>)
    requires Sane(f) && m > 0 && SettledAt(f, m, f.Count(), secs)
    ensures ListInOrder(secs, f.seg.secs)
  {
    hide SettledAt, Fresh.Pos, Fresh.Place;
    forall a, b | 0 <= a < b < f.Count() && Real(secs, f.seg.secs[a]) && Real(secs, f.seg.secs[b])
      ensures EndOf(secs[f.seg.secs[a]]) <= secs[f.seg.secs[b]].offset
    {
      PlaceOfSection(f, m, secs, a);
      PlaceOfSection(f, m, secs, b);
      Monotone(f, a + 1, b);
    }
  }

  /** The sizes a fresh segment gets, as long as its end fits the class. */
  lemma FreshSizes(f: Fresh, m: nat, seg: Seg, secs: seq<Sec>, end: nat)
    requires Sane(f) && 0 < m <= M64 && ByFresh(f, m, seg, secs, end) && end < m
    ensures seg.filesz == f.File(f.Count()) && seg.offset == f.start && seg.secs == f.seg.secs
    ensures seg.offset + seg.filesz + f.Skipped(f.Count()) == f.Pos(f.Count()) <= end
  {
    hide SettledAt, Fresh.Pos, Fresh.File, Fresh.Mem, Fresh.Skipped;
    Conserved(f, f.Count());
    ModShift(0, m, f.File(f.Count()));
  }

  /** A segment laid out afresh encloses its file-backed sections exactly when no address-less
      NOBITS section in front of one of them gets a gap. */
  lemma FreshEncloses(f: Fresh, m: nat, seg: Seg, secs: seq<Sec>, end: nat)
    requires Sane(f) && 0 < m <= M64 && ByFresh(f, m, seg, secs, end) && end < m
    ensures Inside(secs, seg) <==> Flush(f)
  {
    hide SettledAt, Fresh.Pos, Fresh.Gap, Fresh.Place, Fresh.File, Fresh.Mem, Fresh.Skipped, ByFresh, Flush, Inside;
    FreshSizes(f, m, seg, secs, end);
    if Flush(f) {
      FlushEncloses(f, m, seg, secs, end);
    } else {
      NotFlush(f, m, seg, secs, end);
    }
  }

  lemma FlushEncloses(f: Fresh, m: nat, seg: Seg, secs: seq<Sec>, end: nat)
    requires Sane(f) && 0 < m <= M64 && ByFresh(f, m, seg, secs, end) && end < m && Flush(f)
    ensures Inside(secs, seg)
  {
    hide SettledAt, Fresh.Pos, Fresh.Gap, Fresh.Place, Fresh.File, Fresh.Mem, Fresh.Skipped;
    FreshSizes(f, m, seg, secs, end);
    forall b | 0 <= b < f.Count()
      ensures f.seg.secs[b] < |secs|
      ensures InFile(secs[f.seg.secs[b]]) ==>
                f.start <= secs[f.seg.secs[b]].offset && EndOf(secs[f.seg.secs[b]]) <= f.start + f.File(f.Count())
    {
      PlaceOfSection(f, m, secs, b);
      if InFile(secs[f.seg.secs[b]]) {
        NothingSkipped(f, b + 1);
        Conserved(f, b + 1);
        Monotone(f, b + 1, f.Count());
        Monotone(f, 0, b);
        AtZero(f);
      }
    }
  }

  lemma NotFlush(f: Fresh, m: nat, seg: Seg, secs: seq<Sec>, end: nat)
    requires Sane(f) && 0 < m <= M64 && ByFresh(f, m, seg, secs, end) && end < m && !Flush(f)
    ensures !Inside(secs, seg)
  {
    hide SettledAt, Fresh.Pos, Fresh.Gap, Fresh.Place, Fresh.File, Fresh.Mem, Fresh.Skipped, FreshGap;
    FreshSizes(f, m, seg, secs, end);
    var a, b :| 0 <= a < b < f.Count() && Unaddressed(f.Sec(a)) && InFile(f.Sec(b)) && f.Gap(a) != 0;
    var l := LastFileBacked(f, b, f.Count());
    Next(f, a);
    Monotone(f, a + 1, l + 1);
    Conserved(f, l + 1);
    PlaceOfSection(f, m, secs, l);
    assert EndOf(secs[seg.secs[l]]) > seg.offset + seg.filesz;
  }

  // ---------------------------------------------------------------- the condition on alignments

  /** What a caller can see without computing positions: alignment 0 or 1 never makes a gap. */
  predicate NobitsFlat(secs: seq<Sec>, list: seq<nat>) {
    forall a, b :: 0 <= a < b < |list| && list[a] < |secs| && list[b] < |secs| ==>
      (Unaddressed(secs[list[a]]) && InFile(secs[list[b]]) ==> secs[list[a]].addralign <= 1)
  }

  lemma FlatGap(seg: Seg, start: nat, s: Sec, pos: nat)
    requires Unaddressed(s)
    ensures FreshGap(seg, start, s, pos) == (if s.addralign <= 1 then 0 else (s.addralign - pos % s.addralign) % s.addralign)
  {
    if s.addralign <= 1 {
      assert pos % 1 == 0;
    }
  }

  lemma GapZeroIff(align: nat, pos: nat)
    requires align > 0
    ensures (align - pos % align) % align == 0 <==> pos % align == 0
  {
    if pos % align == 0 {
      ModShift(1, align, 0);
    } else {
      ModShift(0, align, align - pos % align);
    }
  }

  /** In positions: such a section must meet a position that is a multiple of its alignment. */
  lemma FlushIff(f: Fresh)
    requires f.Ok()
    ensures Flush(f) <==> forall a, b :: 0 <= a < b < f.Count() && Unaddressed(f.Sec(a)) && InFile(f.Sec(b)) ==>
                            f.Sec(a).addralign <= 1 || f.Pos(a) % f.Sec(a).addralign == 0
    ensures NobitsFlat(f.secs, f.seg.secs) ==> Flush(f)
  {
    hide Fresh.Pos, FreshGap;
    forall a | 0 <= a < f.Count() && Unaddressed(f.Sec(a))
      ensures f.Gap(a) == 0 <==> f.Sec(a).addralign <= 1 || f.Pos(a) % f.Sec(a).addralign == 0
    {
      FlatGap(f.seg, f.start, f.Sec(a), f.Pos(a));
      if f.Sec(a).addralign > 1 { GapZeroIff(f.Sec(a).addralign, f.Pos(a)); }
    }
  }

  /** A larger alignment breaks enclosure for some address of the segment, at every position: here
      for a section that comes first, with the segment aligned at least as the section. */
  lemma LargerAlignmentBreaks(h: Head, seg: Seg, secs: seq<Sec>, cur: Cursor, b: nat) returns (vaddr: nat)
    requires 0 < h.m <= M64 && |cur.secs| == |cur.gen| == |secs| && IndicesOk(seg, |secs|) && Increasing(seg.secs)
    requires (secs != [] ==> secs[0].stype == SHT_NULL)
    requires 0 < b < |seg.secs| && Unaddressed(secs[seg.secs[0]]) && InFile(secs[seg.secs[b]])
    requires 1 < secs[seg.secs[0]].addralign <= seg.align <= 0x8000_0000_0000_0000 && cur.pos + 1 < M64
    requires Unplaced(FreshFrom(seg, secs, cur.pos), 0, cur)
    ensures vaddr in {cur.pos, cur.pos + 1}
    ensures var g := seg.(vaddr := vaddr); var e := SegmentRun(h, g, cur);
            e.ok && e.cur.pos < h.m ==> !Inside(e.cur.secs, Finish(h, g, Start(h, g, cur).0, e))
  {
    hide Fresh.File, Fresh.Mem, Fresh.Skipped, SegmentRun, Increasing, Inside, AlignedPos, Start, Flush, Fresh.Pos, Fresh.Gap, Unplaced;
    vaddr := OffMultiple(secs[seg.secs[0]].addralign, cur.pos);
    var g := seg.(vaddr := vaddr);
    StartsAt(g, cur.pos);
    var f, e := FreshFrom(g, secs, cur.pos), SegmentRun(h, g, cur);
    NotFlushAtFirst(f, b);
    if e.ok && e.cur.pos < h.m {
      SameWait(seg, g, secs, cur);
      RunIsFresh(h, g, secs, cur);
      RunFinished(h, g, secs, cur);
      FreshEncloses(f, h.m, Finish(h, g, f.start, e), e.cur.secs, e.cur.pos);
    }
  }

  lemma OffMultiple(n: nat, pos: nat) returns (p: nat)
    requires n > 1
    ensures p in {pos, pos + 1} && p % n != 0
  {
    p := if pos % n != 0 then pos else pos + 1;
    if pos % n == 0 {
      var q := pos / n;
      assert pos == q * n;
      ModShift(q, n, 1);
    }
  }

  lemma NotFlushAtFirst(f: Fresh, b: nat)
    requires f.Ok() && 0 < b < f.Count() && Unaddressed(f.Sec(0)) && InFile(f.Sec(b))
    requires f.Sec(0).addralign > 1 && f.pos % f.Sec(0).addralign != 0
    ensures !Flush(f)
  {
    hide FreshGap;
    FlatGap(f.seg, f.start, f.Sec(0), f.Pos(0));
    GapZeroIff(f.Sec(0).addralign, f.Pos(0));
  }

  lemma SameWait(seg: Seg, g: Seg, secs: seq<Sec>, cur: Cursor)
    requires IndicesOk(seg, |secs|) && g == seg.(vaddr := g.vaddr) && Unplaced(FreshFrom(seg, secs, cur.pos), 0, cur)
    ensures Unplaced(FreshFrom(g, secs, cur.pos), 0, cur)
  {
    hide AlignedPos;
  }

  lemma RunFinished(h: Head, g: Seg, secs: seq<Sec>, cur: Cursor)
    requires h.m > 0 && |cur.secs| == |cur.gen| == |secs| && IndicesOk(g, |secs|)
    requires var f := FreshFrom(g, secs, cur.pos); FreshRun(f, h.m, f.Count(), SegmentRun(h, g, cur))
    ensures var f, e := FreshFrom(g, secs, cur.pos), SegmentRun(h, g, cur);
            ByFresh(f, h.m, Finish(h, g, f.start, e), e.cur.secs, e.cur.pos)
  {
    hide SegmentRun, AlignedPos, Fresh.Pos, Fresh.File, Fresh.Mem, SettledAt, Unplaced, W64;
  }

  lemma StartsAt(g: Seg, pos: nat)
    requires 2 <= g.align <= 0x8000_0000_0000_0000 && (g.vaddr == pos || g.vaddr == pos + 1)
    ensures AlignedPos(g, pos) == g.vaddr
  {
    LayoutAlignment.FreshStartCongruent(g, pos);
    var at := AlignedPos(g, pos);
    if at <= g.vaddr {
      var t := SameRemainder(g.vaddr, at, g.align);
      if t >= 1 { MulMono(1, t, g.align); }
      if t < 0 { MulMono(t, -1, g.align); }
    } else {
      var t := SameRemainder(at, g.vaddr, g.align);
      if t >= 1 { MulMono(1, t, g.align); }
      if t < 0 { MulMono(t, -1, g.align); }
    }
  }

  /** But a larger alignment need not break it: behind a file-backed section of the same alignment,
      whose size is a multiple of it, the section never gets a gap. */
  lemma AlignedNeighbour(f: Fresh, a: nat)
    requires f.Ok() && 0 < a < f.Count() && Unaddressed(f.Sec(a)) && f.Sec(a).addralign > 0
    requires InFile(f.Sec(a - 1)) && !f.Sec(a - 1).addrSet && f.Sec(a - 1).addralign == f.Sec(a).addralign
    requires f.Sec(a - 1).size % f.Sec(a).addralign == 0
    ensures f.Gap(a) == 0
  {
    hide Fresh.File, Fresh.Mem, Fresh.Skipped, Fresh.Pos, Fresh.Place, Fresh.Gap, FreshGap, ToMultiple;
    Next(f, a - 1);
    Next(f, a);
    UnaddressedGap(f.seg, f.start, f.Sec(a - 1), f.Pos(a - 1));
    UnaddressedGap(f.seg, f.start, f.Sec(a), f.Pos(a));
    GapsMeet(f.Sec(a).addralign, f.Pos(a - 1), f.Gap(a - 1), f.Sec(a - 1).size, f.Gap(a));
  }

  /** gap leads from pos to the next multiple of n. */
  predicate ToMultiple(n: nat, pos: nat, gap: nat)
    requires n > 0
  {
    gap == (n - pos % n) % n
  }

  lemma UnaddressedGap(seg: Seg, start: nat, s: Sec, pos: nat)
    requires !s.addrSet && s.addralign > 0
    ensures ToMultiple(s.addralign, pos, FreshGap(seg, start, s, pos))
  {}

  lemma GapsMeet(n: nat, pos: nat, gap: nat, size: nat, next: nat)
    requires n > 0 && size % n == 0 && ToMultiple(n, pos, gap) && ToMultiple(n, pos + gap + size, next)
    ensures next == 0
  {
    RoundedUp(pos, n);
    SumOfMultiples(pos + gap, size, n);
    GapZeroIff(n, pos + gap + size);
  }

  lemma RoundedUp(pos: nat, n: nat)
    requires n > 0
    ensures (pos + (n - pos % n) % n) % n == 0
  {
    var q := pos / n;
    assert pos == q * n + pos % n;
    if pos % n == 0 {
      ModShift(1, n, 0);
      ModShift(q, n, 0);
    } else {
      ModShift(0, n, n - pos % n);
      assert pos + (n - pos % n) == (q + 1) * n;
      ModShift(q + 1, n, 0);
    }
  }

  lemma SumOfMultiples(x: nat, y: nat, n: nat)
    requires n > 0 && x % n == 0 && y % n == 0
    ensures (x + y) % n == 0
  {
    var u, v := x / n, y / n;
    assert x == u * n && y == v * n;
    assert x + y == (u + v) * n;
    ModShift(u + v, n, 0);
  }

  // ---------------------------------------------------------------- sections placed already

  /** The exact file size reaches the end of every file-backed section passed, and stays before
      the position at which the segment gets its turn. */
  lemma {:induction false} SharedReaches(p: Shared, turn: nat, j: nat)
    requires p.Ok() && j <= p.Count() && ListInOrder(p.secs, p.seg.secs) && p.start + p.size <= turn
    requires forall a :: 0 <= a < p.Count() && p.Sec(a).stype != SHT_NULL ==> p.start <= p.Sec(a).offset && EndOf(p.Sec(a)) <= turn
    ensures 0 <= p.File(j) && p.start + p.File(j) <= turn
    ensures forall b :: 0 <= b < j && InFile(p.Sec(b)) ==> EndOf(p.Sec(b)) <= p.start + p.File(j)
  {
    if j > 0 {
      SharedReaches(p, turn, j - 1);
      if InFile(p.Sec(j - 1)) {
        forall b | 0 <= b < j - 1 && InFile(p.Sec(b)) ensures EndOf(p.Sec(b)) <= EndOf(p.Sec(j - 1)) {
          assert Real(p.secs, p.seg.secs[b]) && Real(p.secs, p.seg.secs[j - 1]);
        }
      }
    }
  }

  lemma SharedStarts(seg: Seg, secs: seq<Sec>, turn: nat)
    requires IndicesOk(seg, |secs|) && Placeable(seg, secs) && ListInOrder(secs, seg.secs)
    requires forall a :: 0 <= a < |seg.secs| && Real(secs, seg.secs[a]) ==> EndOf(secs[seg.secs[a]]) <= turn
    ensures var p := SharedFrom(seg, secs, turn);
            && p.start + p.size <= turn
            && forall a :: 0 <= a < p.Count() && p.Sec(a).stype != SHT_NULL ==> p.start <= p.Sec(a).offset && EndOf(p.Sec(a)) <= turn
  {
    var p := SharedFrom(seg, secs, turn);
    forall a | 0 <= a < p.Count() && p.Sec(a).stype != SHT_NULL ensures p.start <= p.Sec(a).offset && EndOf(p.Sec(a)) <= turn {
      assert Real(secs, seg.secs[a]);
      if !StartsWithNull(seg, secs) && a > 0 {
        assert Real(secs, seg.secs[0]);
      }
    }
    if !StartsWithNull(seg, secs) {
      assert Real(secs, seg.secs[0]);
    }
  }

  /** A segment over sections placed already, in list order, always encloses them. */
  lemma SharedEncloses(seg: Seg, secs: seq<Sec>, turn: nat, m: nat, g: Seg)
    requires IndicesOk(seg, |secs|) && Placeable(seg, secs) && ListInOrder(secs, seg.secs) && turn < m <= M64
    requires forall a :: 0 <= a < |seg.secs| && Real(secs, seg.secs[a]) ==> EndOf(secs[seg.secs[a]]) <= turn
    requires ByShared(SharedFrom(seg, secs, turn), m, g)
    ensures Inside(secs, g) && g.offset + g.filesz <= turn
    ensures g.filesz == SharedFrom(seg, secs, turn).File(|seg.secs|)
  {
    var p := SharedFrom(seg, secs, turn);
    SharedStarts(seg, secs, turn);
    SharedReaches(p, turn, p.Count());
    ModShift(0, m, p.File(p.Count()));
    assert W64(p.File(p.Count())) == p.File(p.Count());
    hide Shared.File, Shared.Mem;
    forall k | 0 <= k < |g.secs| && InFile(secs[g.secs[k]])
      ensures g.offset <= secs[g.secs[k]].offset && EndOf(secs[g.secs[k]]) <= g.offset + g.filesz
    {
      assert p.Sec(k) == secs[g.secs[k]];
    }
  }

  // ---------------------------------------------------------------- the whole layout

  lemma FreshSane(seg: Seg, secs: seq<Sec>, pos: nat)
    requires IndicesOk(seg, |secs|) && (secs != [] ==> secs[0].stype == SHT_NULL)
    ensures Sane(FreshFrom(seg, secs, pos))
  {}

  lemma SublistInOrder(secs: seq<Sec>, t: seq<nat>, s: seq<nat>)
    requires Increasing(t) && Increasing(s) && Elements(s) <= Elements(t) && ListInOrder(secs, t)
    ensures ListInOrder(secs, s)
  {
    forall a, b | 0 <= a < b < |s| && Real(secs, s[a]) && Real(secs, s[b])
      ensures EndOf(secs[s[a]]) <= secs[s[b]].offset
    {
      assert s[a] in Elements(s) && s[b] in Elements(s);
      var c :| 0 <= c < |t| && t[c] == s[a];
      var d :| 0 <= d < |t| && t[d] == s[b];
      assert s[a] < s[b];
      assert c < d;
    }
  }

  /** The segment has a section besides null sections. */
  predicate HasReal(seg: Seg, secs: seq<Sec>) { exists k :: 0 <= k < |seg.secs| && Real(secs, seg.secs[k]) }

  lemma RealPlaceable(seg: Seg, secs: seq<Sec>)
    requires IndicesOk(seg, |secs|) && HasReal(seg, secs)
    ensures Placeable(seg, secs)
  {}

  lemma NoRealInOrder(secs0: seq<Sec>, secs: seq<Sec>, seg: Seg)
    requires |secs| == |secs0| && (forall x :: 0 <= x < |secs| ==> secs[x].stype == secs0[x].stype) && !HasReal(seg, secs0)
    ensures ListInOrder(secs, seg.secs)
  {
    forall k | 0 <= k < |seg.secs| ensures !Real(secs, seg.secs[k]) {}
  }

  /** After the layout the sections of every segment stand in list order. */
  lemma {:induction false} ListsInOrder(h: Head, segs: seq<Seg>, order: seq<nat>, secs: seq<Sec>, pos: nat, q: nat)
    requires Laid(h, segs, order, secs, pos) && q < |order| && LayoutAll(h, segs, order, secs, pos).shoff < M64 && Nesting(segs, order)
    ensures ListInOrder(LayoutAll(h, segs, order, secs, pos).cur.secs, segs[order[q]].secs)
    decreases q
  {
    hide LayoutAll, Laid, ListInOrder, HasReal, Earlier, ByFresh, FirstToPlace, AllPlaced, Placeable, Turn;
    LaidInput(h, segs, order, secs, pos);
    TypesKept(h, segs, order, secs, pos);
    var seg, r := segs[order[q]], LayoutAll(h, segs, order, secs, pos);
    if !HasReal(seg, secs) {
      NoRealInOrder(secs, r.cur.secs, seg);
    } else if FirstToPlace(segs, order, secs, q) {
      RealPlaceable(seg, secs);
      FreshInLayout(h, segs, order, secs, pos, q);
      var f := FreshAt(h, segs, order, secs, pos, q);
      SecondZero(segs, order, secs);
      FreshSane(seg, secs, Turn(h, segs, order, secs, pos, q));
      SettledFrom(f, h.m, r.segs[order[q]], r.cur.secs, r.shoff);
      FreshOrder(f, h.m, r.cur.secs);
    } else {
      var p := SomeShared(segs, order, secs, q);
      ListsInOrder(h, segs, order, secs, pos, p);
      assert Increasing(seg.secs) && Increasing(segs[order[p]].secs);
      SublistInOrder(r.cur.secs, segs[order[p]].secs, seg.secs);
    }
  }

  lemma SecondZero(segs: seq<Seg>, order: seq<nat>, secs: seq<Sec>)
    requires InputOk(segs, order, secs)
    ensures secs != [] ==> secs[0].stype == SHT_NULL
  {}

  lemma SettledFrom(f: Fresh, m: nat, seg: Seg, secs: seq<Sec>, end: nat)
    requires f.Ok() && m > 0 && ByFresh(f, m, seg, secs, end)
    ensures SettledAt(f, m, f.Count(), secs)
  {}

  lemma SomeShared(segs: seq<Seg>, order: seq<nat>, secs: seq<Sec>, q: nat) returns (p: nat)
    requires q < |order| && (forall i :: 0 <= i < |order| ==> order[i] < |segs|) && Nesting(segs, order)
    requires !FirstToPlace(segs, order, secs, q)
    ensures p < q && Elements(segs[order[q]].secs) <= Elements(segs[order[p]].secs)
  {
    hide Nesting;
    var x: nat :| x in segs[order[q]].secs && Real(secs, x) && Earlier(segs, order, q, x);
    p := SharedIsNested(segs, order, q, x);
  }

  /** When segments are pairwise disjoint, equal or nested, the segment of step q encloses its
      file-backed sections exactly when others placed them, or no address-less NOBITS section in
      front of one of them gets a gap. The position of its turn decides the gaps (FlushIff). */
  lemma EnclosedExactly(h: Head, segs: seq<Seg>, order: seq<nat>, secs: seq<Sec>, pos: nat, q: nat)
    requires Laid(h, segs, order, secs, pos) && q < |order| && Nesting(segs, order)
    requires LayoutAll(h, segs, order, secs, pos).shoff < h.m <= M64
    ensures var r := LayoutAll(h, segs, order, secs, pos);
            && |r.segs| == |segs|
            && (Inside(r.cur.secs, r.segs[order[q]]) <==>
                  (FirstToPlace(segs, order, secs, q) ==> Flush(FreshAt(h, segs, order, secs, pos, q))))
            && (HasReal(segs[order[q]], secs) ==> r.segs[order[q]].offset + r.segs[order[q]].filesz <= r.shoff)
  {
    hide LayoutAll, Laid, ListInOrder, HasReal, Earlier, ByFresh, ByShared, FirstToPlace, AllPlaced, Placeable, Turn, Nesting, Flush, Inside,
         FreshAt, SharedAt;
    LaidInput(h, segs, order, secs, pos);
    TypesKept(h, segs, order, secs, pos);
    SecondZero(segs, order, secs);
    var seg, r, turn := segs[order[q]], LayoutAll(h, segs, order, secs, pos), Turn(h, segs, order, secs, pos, q);
    if !HasReal(seg, secs) {
      NothingToEnclose(h, segs, order, secs, pos, q);
    } else if FirstToPlace(segs, order, secs, q) {
      RealPlaceable(seg, secs);
      NestingSorted(segs, order);
      FreshInLayout(h, segs, order, secs, pos, q);
      FreshSaneAt(h, segs, order, secs, pos, q);
      FreshEncloses(FreshAt(h, segs, order, secs, pos, q), h.m, r.segs[order[q]], r.cur.secs, r.shoff);
      FreshSizes(FreshAt(h, segs, order, secs, pos, q), h.m, r.segs[order[q]], r.cur.secs, r.shoff);
    } else {
      FreshOrShared(segs, order, secs, q);
      RealPlaceable(seg, secs);
      SharedInLayout(h, segs, order, secs, pos, q);
      ListsInOrder(h, segs, order, secs, pos, q);
      SharedAtIs(h, segs, order, secs, pos, q);
      RealsKept(secs, r.cur.secs, seg, turn);
      SharedEncloses(seg, r.cur.secs, turn, h.m, r.segs[order[q]]);
    }
  }

  lemma NestingSorted(segs: seq<Seg>, order: seq<nat>)
    requires (forall q :: 0 <= q < |order| ==> order[q] < |segs|) && Nesting(segs, order)
    ensures Sorted(segs)
  {}

  lemma FreshSaneAt(h: Head, segs: seq<Seg>, order: seq<nat>, secs: seq<Sec>, pos: nat, q: nat)
    requires h.m > 0 && q < |order| && InputOk(segs, order, secs)
    ensures Sane(FreshAt(h, segs, order, secs, pos, q))
  {
    hide Turn;
    FreshSane(segs[order[q]], secs, Turn(h, segs, order, secs, pos, q));
  }

  lemma SharedAtIs(h: Head, segs: seq<Seg>, order: seq<nat>, secs: seq<Sec>, pos: nat, q: nat)
    requires h.m > 0 && q < |order| && InputOk(segs, order, secs) && Placeable(segs[order[q]], secs)
    requires var r := LayoutAll(h, segs, order, secs, pos);
             |r.cur.secs| == |secs| && forall x :: 0 <= x < |secs| ==> r.cur.secs[x].stype == secs[x].stype
    ensures Placeable(segs[order[q]], LayoutAll(h, segs, order, secs, pos).cur.secs)
    ensures SharedAt(h, segs, order, secs, pos, q)
         == SharedFrom(segs[order[q]], LayoutAll(h, segs, order, secs, pos).cur.secs, Turn(h, segs, order, secs, pos, q))
  {
    hide LayoutAll, Turn;
  }

  lemma RealsKept(secs0: seq<Sec>, secs: seq<Sec>, seg: Seg, turn: nat)
    requires |secs| == |secs0| && IndicesOk(seg, |secs|) && forall x :: 0 <= x < |secs| ==> secs[x].stype == secs0[x].stype
    requires forall a :: 0 <= a < |seg.secs| && Real(secs0, seg.secs[a]) ==> EndOf(secs[seg.secs[a]]) <= turn
    ensures forall a :: 0 <= a < |seg.secs| && Real(secs, seg.secs[a]) ==> EndOf(secs[seg.secs[a]]) <= turn
  {}

  lemma NothingToEnclose(h: Head, segs: seq<Seg>, order: seq<nat>, secs: seq<Sec>, pos: nat, q: nat)
    requires Laid(h, segs, order, secs, pos) && q < |order| && !HasReal(segs[order[q]], secs)
    ensures InputOk(segs, order, secs) && h.m > 0
    ensures var r := LayoutAll(h, segs, order, secs, pos);
            |r.segs| == |segs| && Inside(r.cur.secs, r.segs[order[q]]) && Flush(FreshAt(h, segs, order, secs, pos, q))
  {
    hide LayoutAll, SegmentRun, Start, CursorBefore;
    LaidInput(h, segs, order, secs, pos);
    TypesKept(h, segs, order, secs, pos);
    StepOfLayout(h, segs, order, secs, pos, q);
    forall k | 0 <= k < |segs[order[q]].secs| ensures !Real(secs, segs[order[q]].secs[k]) {}
  }

  /** Sections and segments for which enclosure holds wherever they are put. */
  predicate Layable(segs: seq<Seg>, order: seq<nat>, secs: seq<Sec>) {
    && InputOk(segs, order, secs) && Distinct(order) && Nesting(segs, order)
    && (forall i :: 0 <= i < |segs| ==> NobitsFlat(secs, segs[i].secs))
  }

  /** In particular: if the section lists of any two segments are disjoint, equal or nested, and
      no address-less NOBITS section with an alignment above 1 stands before a file-backed one,
      then after a successful layout every file-backed section of every segment, nested and shared
      ones included, lies inside the segment's part of the file, which ends before the table. */
  lemma SegmentsEncloseSections(h: Head, segs: seq<Seg>, order: seq<nat>, secs: seq<Sec>, pos: nat)
    requires 0 < h.m <= M64 && Layable(segs, order, secs)
    requires LayoutAll(h, segs, order, secs, pos).ok && LayoutAll(h, segs, order, secs, pos).shoff < h.m
    ensures var r := LayoutAll(h, segs, order, secs, pos);
            && |r.segs| == |segs|
            && (forall i :: 0 <= i < |segs| ==> Inside(r.cur.secs, r.segs[i]))
            && (forall i :: 0 <= i < |segs| && HasReal(segs[i], secs) ==> r.segs[i].offset + r.segs[i].filesz <= r.shoff)
  {
    hide LayoutAll, Inside, Nesting, NobitsFlat, HasReal, Flush, FreshAt, FirstToPlace;
    var r := LayoutAll(h, segs, order, secs, pos);
    LengthsKept(h, segs, order, secs, pos);
    forall i | 0 <= i < |segs|
      ensures Inside(r.cur.secs, r.segs[i])
      ensures HasReal(segs[i], secs) ==> r.segs[i].offset + r.segs[i].filesz <= r.shoff
    {
      assert i in order;
      var q :| 0 <= q < |order| && order[q] == i;
      EnclosedExactly(h, segs, order, secs, pos, q);
      FlushIff(FreshAt(h, segs, order, secs, pos, q));
    }
  }

  lemma LengthsKept(h: Head, segs: seq<Seg>, order: seq<nat>, secs: seq<Sec>, pos: nat)
    requires h.m > 0 && InputOk(segs, order, secs)
    ensures |LayoutAll(h, segs, order, secs, pos).segs| == |segs|
  {
    LayoutShape(h, segs, order, 0, StartCursor(secs, pos));
  }

  // ---------------------------------------------------------------- an input on which it fails

  /** A 64-bit object with one segment: an address-less NOBITS section aligned to 16 in front of
      ten bytes of data, the segment's address being 8. */
  const ESCAPING: seq<Sec> := [Sec(SHT_NULL, 0, 0, 0, 0, false, 0),
                               Sec(SHT_NOBITS, 0, 4, 16, 0, false, 0),
                               Sec(1, 0, 10, 1, 0, false, 0)]

  const ESCAPED: Seg := Seg(1, 8, 1, 0, 0, 0, [1, 2])

  /** save gives it alignment 16 and puts it at 120; the NOBITS section goes to 128 without the gap
      counting as file size, so the data sticks out of the segment. */
  lemma UnaddressedNobitsFirst()
    ensures LayoutAlignment.RaisedAlign(1, [1, 2], ESCAPING) == 16
    ensures var r := LayoutAll(Head(M64, 64, 56), [ESCAPED.(align := 16)], [0], ESCAPING, 120);
            && r.ok && |r.segs| == 1 && |r.cur.secs| == 3 && !Inside(r.cur.secs, r.segs[0])
            && r.segs[0].offset == 120 && r.segs[0].filesz == 10 && EndOf(r.cur.secs[2]) == 138
  {
    assert [1, 2][..1] == [1] && [1][..0] == [];
    assert LayoutAlignment.RaisedAlign(1, [1], ESCAPING) == 16;
    var seg, h, c0 := ESCAPED.(align := 16), Head(M64, 64, 56), StartCursor(ESCAPING, 120);
    var r := SegmentRun(h, seg, c0);
    EscapingRun();
    var fin := Finish(h, seg, 120, r);
    assert [seg][0 := fin] == [fin];
    assert LayoutSegments(h, [fin], [0], 1, r.cur) == Outcome(true, [fin], r.cur);
    assert LayoutSegments(h, [seg], [0], 0, c0) == Outcome(true, [fin], r.cur);
    LooseKeepsTwo(fin, r.cur);
    assert !(EndOf(r.cur.secs[fin.secs[1]]) <= fin.offset + fin.filesz);
  }

  lemma EscapingRun()
    ensures var seg, h, c0 := ESCAPED.(align := 16), Head(M64, 64, 56), StartCursor(ESCAPING, 120);
            var r := SegmentRun(h, seg, c0);
            && r.ok && r.filesz == 10 && |r.cur.secs| == 3
            && r.cur.secs[2] == ESCAPING[2].(addr := 16, addrSet := true, offset := 128)
            && Start(h, seg, c0) == (120, 0, 120)
  {
    var seg, h, c0 := ESCAPED.(align := 16), Head(M64, 64, 56), StartCursor(ESCAPING, 120);
    assert AlignedPos(seg, 120) == 120;
    var r0 := Run(true, c0.(pos := 120), 0, 0);
    var r1 := Place(h, seg, 120, 1, r0);
    assert r1.ok && r1.filesz == 0 && r1.cur.pos == 128 && r1.cur.secs[2] == ESCAPING[2] && !r1.cur.gen[2];
    var r2 := Place(h, seg, 120, 2, r1);
    assert PlaceFrom(h, seg, 120, 2, r2) == r2;
    assert PlaceFrom(h, seg, 120, 1, r1) == r2;
  }

  lemma LooseKeepsTwo(seg: Seg, cur: Cursor)
    requires |cur.secs| == 3 && seg.secs == [1, 2]
    ensures LooseFrom([seg], 0, cur).secs[2] == cur.secs[2]
  {
    assert InSegment([seg], 1) && InSegment([seg], 2) by {
      assert 1 in [seg][0].secs && 2 in [seg][0].secs;
    }
    var c1 := if InSegment([seg], 0) then cur else LooseStep(0, cur);
    assert LooseFrom([seg], 3, c1) == c1;
    assert LooseFrom([seg], 2, c1) == c1;
    assert LooseFrom([seg], 1, c1) == c1;
  }
}
