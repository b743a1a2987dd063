/** Segments that place no section: the segment of the program header table, segments without sections
    and segments of null sections. Their records, as functions of what layout was given and of the
    position at which they get their turn. */
module LayoutTables {
  import opened Bytes
  import opened ElfTypes
  import opened Layout
  import opened LayoutSafety
  import opened LayoutSteps
  import opened LayoutExact
  import opened LayoutContainment
  import opened LayoutTurns

  /** The segment with these file offset and size; its memory size does not shrink. */
  function Covering(seg: Seg, m: nat, offset: nat, size: nat): Seg
    requires m > 0
  {
    seg.(offset := offset, filesz := size % m, memsz := if seg.memsz < size then size % m else seg.memsz)
  }

  /** Without sections nothing is placed. */
  lemma NoSections(h: Head, seg: Seg, start: nat, r: Run)
    requires h.m > 0 && seg.secs == [] && |r.cur.secs| == |r.cur.gen|
    ensures PlaceFrom(h, seg, start, 0, r) == r
  {}

  lemma EmptyRun(h: Head, seg: Seg, cur: Cursor)
    requires h.m > 0 && |cur.secs| == |cur.gen| && seg.secs == []
    ensures IndicesOk(seg, |cur.secs|)
    ensures var offset, size := if seg.ptype == PT_PHDR then h.phoff else cur.pos, if seg.ptype == PT_PHDR then h.phsize else 0;
            && Start(h, seg, cur).0 == offset
            && SegmentRun(h, seg, cur).filesz == SegmentRun(h, seg, cur).memsz == size && SegmentRun(h, seg, cur).cur == cur
  {
    var (start, size, pos) := Start(h, seg, cur);
    NoSections(h, seg, start, Run(true, cur.(pos := pos), size, size));
  }

  /** A segment without sections covers the program header table when it is of that type, and no
      byte at the position of its turn otherwise. */
  lemma EmptySegment(h: Head, segs: seq<Seg>, order: seq<nat>, secs: seq<Sec>, pos: nat, q: nat)
    requires Laid(h, segs, order, secs, pos) && q < |order| && segs[order[q]].secs == []
    ensures var r, seg := LayoutAll(h, segs, order, secs, pos), segs[order[q]];
            && |r.segs| == |segs|
            && r.segs[order[q]] == if seg.ptype == PT_PHDR then Covering(seg, h.m, h.phoff, h.phsize)
                                   else Covering(seg, h.m, Turn(h, segs, order, secs, pos, q), 0)
  {
    hide LayoutAll, Laid, SegmentRun, Start, CursorBefore, Extents, GenMatches, Earlier;
    LaidInput(h, segs, order, secs, pos);
    StepOfLayout(h, segs, order, secs, pos, q);
    EmptyRun(h, segs[order[q]], CursorBefore(h, segs, order, secs, pos, q));
  }

  lemma NullRun(h: Head, seg: Seg, cur: Cursor)
    requires h.m > 0 && |cur.secs| == |cur.gen| && IndicesOk(seg, |cur.secs|)
    requires |seg.secs| == 1 && cur.secs[seg.secs[0]].stype == SHT_NULL
    ensures Start(h, seg, cur).0 == if cur.gen[seg.secs[0]] then cur.secs[seg.secs[0]].offset else AlignedPos(seg, cur.pos)
    ensures SegmentRun(h, seg, cur).filesz == SegmentRun(h, seg, cur).memsz == 0
  {
    hide AlignedPos;
    var (start, size, pos) := Start(h, seg, cur);
    var r := Run(true, cur.(pos := pos), size, size);
    assert PlaceFrom(h, seg, start, 1, Place(h, seg, start, seg.secs[0], r)) == Place(h, seg, start, seg.secs[0], r);
  }

  /** A segment of the null section alone covers no byte: where it is aligned, or where that section
      stands when an earlier segment has it. One of several null sections is laid out as
      LayoutExact.FreshInLayout says: it covers the file up to the position of its turn. */
  lemma NullSegment(h: Head, segs: seq<Seg>, order: seq<nat>, secs: seq<Sec>, pos: nat, q: nat)
    requires Laid(h, segs, order, secs, pos) && q < |order| && IndicesOk(segs[order[q]], |secs|)
    requires |segs[order[q]].secs| == 1 && secs[segs[order[q]].secs[0]].stype == SHT_NULL
    ensures var r, seg, x, turn := LayoutAll(h, segs, order, secs, pos), segs[order[q]], segs[order[q]].secs[0], Turn(h, segs, order, secs, pos, q);
            && |r.segs| == |segs| && |r.cur.secs| == |secs|
            && r.segs[order[q]] == Covering(seg, h.m, if Earlier(segs, order, q, x) then r.cur.secs[x].offset else AlignedPos(seg, turn), 0)
  {
    hide LayoutAll, Laid, SegmentRun, Start, CursorBefore, Extents, GenMatches, Earlier, AlignedPos;
    LaidInput(h, segs, order, secs, pos);
    StepOfLayout(h, segs, order, secs, pos, q);
    var x, cq := segs[order[q]].secs[0], CursorBefore(h, segs, order, secs, pos, q);
    assert SameData(secs[x], cq.secs[x]);
    NullRun(h, segs[order[q]], cq);
  }
}
