/** The layout engine of the ELF writer (elfio.hpp, save): which file offset every section,
    segment and table gets. The functions here follow the loops step by step on values; the
    class in ElfObject.dfy runs the loops. File positions are exact naturals (the class shows that
    64-bit positions agree while the end of the file fits), sizes and addresses wrap. */
module Layout {
  import opened Bytes
  import opened ElfTypes
  import opened Options

  /** What layout reads and writes of a section header; addrSet tells a preset address. */
  datatype Sec = Sec(stype: nat, flags: nat, size: nat, addralign: nat, addr: nat, addrSet: bool, offset: nat)

  datatype Seg = Seg(ptype: nat, vaddr: nat, align: nat, filesz: nat, memsz: nat, offset: nat, secs: seq<nat>)

  /** m bounds the class's wide fields; the program header table is phsize bytes at phoff. */
  datatype Head = Head(m: nat, phoff: nat, phsize: nat)

  /** Sections, generated flags and current_file_pos. placed logs the order of placements. */
  datatype Cursor = Cursor(secs: seq<Sec>, gen: seq<bool>, pos: nat, placed: seq<nat>)

  predicate InFile(s: Sec) { s.stype != SHT_NOBITS && s.stype != SHT_NULL }

  /** Bytes a section takes in the file. */
  function FileSize(s: Sec): nat { if InFile(s) then s.size else 0 }

  // ---------------------------------------------------------------- one section of a segment

  datatype Run = Run(ok: bool, cur: Cursor, filesz: nat, memsz: nat)

  /** The gap before a section, or None when the preset address lies behind the cursor. */
  function Gap(seg: Seg, start: nat, s: Sec, generated: bool, pos: nat, filesz: nat): (g: Option<int>)
    ensures g.Some? && !generated ==> g.value >= 0
  {
    if !generated && s.addrSet && s.stype != SHT_NOBITS && s.stype != SHT_NULL && s.size != 0 then
      var reqOffset := W64(s.addr - seg.vaddr);
      var curOffset := W64(pos - start);
      if reqOffset < curOffset then None else Some(reqOffset - curOffset)
    else if !generated && !s.addrSet then
      var align := if s.addralign == 0 then 1 else s.addralign;
      Some((align - pos % align) % align)
    else if generated then Some(s.offset - start - filesz)
    else Some(0)
  }

  predicate CountsInMemory(seg: Seg, s: Sec) {
    Alloc(s.flags) && !(Tls(s.flags) && seg.ptype != PT_TLS && s.stype == SHT_NOBITS)
  }

  /** Section x at its place: a missing address follows the segment's. */
  function Settled(m: nat, seg: Seg, start: nat, x: nat, s: Sec, pos: nat): Sec
    requires m > 0
  {
    var s1 := if s.addrSet then s else s.(addr := W64(seg.vaddr + pos - start) % m, addrSet := true);
    if x != 0 then s1.(offset := pos) else s1
  }

  function Place(h: Head, seg: Seg, start: nat, x: nat, r: Run): Run
    requires h.m > 0 && x < |r.cur.secs| == |r.cur.gen|
  {
    var cur := r.cur;
    var s := cur.secs[x];
    if s.stype == SHT_NULL then r.(cur := cur.(gen := cur.gen[x := true])) else
      match Gap(seg, start, s, cur.gen[x], cur.pos, r.filesz)
      case None => r.(ok := false)
      case Some(gap) =>
        var memsz := if CountsInMemory(seg, s) then W64(r.memsz + s.size + gap) else r.memsz;
        var filesz := if s.stype != SHT_NOBITS then W64(r.filesz + s.size + gap) else r.filesz;
        if cur.gen[x] then Run(true, cur, filesz, memsz) else
          var pos := cur.pos + gap;
          Run(true, Cursor(cur.secs[x := Settled(h.m, seg, start, x, s, pos)], cur.gen[x := true], pos + FileSize(s), cur.placed + [x]),
              filesz, memsz)
  }

  /** Sections j, j+1, ... of the segment. */
  function PlaceFrom(h: Head, seg: Seg, start: nat, j: nat, r: Run): Run
    requires h.m > 0 && j <= |seg.secs| && |r.cur.secs| == |r.cur.gen|
    requires forall k :: 0 <= k < |seg.secs| ==> seg.secs[k] < |r.cur.secs|
    decreases |seg.secs| - j
  {
    if j == |seg.secs| || !r.ok then r else PlaceFrom(h, seg, start, j + 1, Place(h, seg, start, seg.secs[j], r))
  }

  // ---------------------------------------------------------------- one segment

  predicate IndicesOk(seg: Seg, n: nat) { forall k :: 0 <= k < |seg.secs| ==> seg.secs[k] < n }

  /** Neither the table segment nor one that starts with the null section, and its first
      section is not generated yet: such a segment is aligned. */
  predicate FreshStart(seg: Seg, cur: Cursor)
    requires |cur.secs| == |cur.gen| && IndicesOk(seg, |cur.secs|)
  {
    && seg.secs != []
    && !(|seg.secs| > 1 && cur.secs[seg.secs[0]].stype == SHT_NULL)
    && !cur.gen[seg.secs[0]]
  }

  /** The first position from pos on that is congruent to the virtual address, in 64-bit steps. */
  function AlignedPos(seg: Seg, pos: nat): nat {
    var align := if seg.align > 0 then seg.align else 1;
    var error := W64(seg.vaddr % align - pos % align);
    pos + W64(seg.align + error) % align
  }

  /** Where the segment starts, its initial sizes, and the cursor position afterwards. */
  function Start(h: Head, seg: Seg, cur: Cursor): (r: (nat, nat, nat))
    requires |cur.secs| == |cur.gen| && IndicesOk(seg, |cur.secs|)
  {
    if seg.ptype == PT_PHDR && seg.secs == [] then (h.phoff, h.phsize, cur.pos)
    else if |seg.secs| > 1 && cur.secs[seg.secs[0]].stype == SHT_NULL then (0, cur.pos, cur.pos)
    else if FreshStart(seg, cur) then
      var pos := AlignedPos(seg, cur.pos);
      (pos, 0, pos)
    else if seg.secs != [] then (cur.secs[seg.secs[0]].offset, 0, cur.pos)
    else (cur.pos, 0, cur.pos)
  }

  function SegmentRun(h: Head, seg: Seg, cur: Cursor): Run
    requires h.m > 0 && |cur.secs| == |cur.gen| && IndicesOk(seg, |cur.secs|)
  {
    var (start, size, pos) := Start(h, seg, cur);
    PlaceFrom(h, seg, start, 0, Run(true, cur.(pos := pos), size, size))
  }

  /** The segment header after its sections are placed; a memory size never shrinks. */
  function Finish(h: Head, seg: Seg, start: nat, r: Run): Seg
    requires h.m > 0
  {
    seg.(filesz := r.filesz % h.m,
         memsz := if seg.memsz < r.memsz then r.memsz % h.m else seg.memsz,
         offset := start)
  }

  // ---------------------------------------------------------------- all segments

  datatype Outcome = Outcome(ok: bool, segs: seq<Seg>, cur: Cursor)

  predicate WellIndexed(segs: seq<Seg>, order: seq<nat>, cur: Cursor) {
    && |cur.secs| == |cur.gen|
    && (forall k :: 0 <= k < |segs| ==> IndicesOk(segs[k], |cur.secs|))
    && (forall k :: 0 <= k < |order| ==> order[k] < |segs|)
  }

  lemma {:induction false} PlaceFromShape(h: Head, seg: Seg, start: nat, j: nat, r: Run)
    requires h.m > 0 && j <= |seg.secs| && |r.cur.secs| == |r.cur.gen| && IndicesOk(seg, |r.cur.secs|)
    ensures var e := PlaceFrom(h, seg, start, j, r);
            |e.cur.secs| == |e.cur.gen| == |r.cur.secs| && e.cur.pos >= r.cur.pos
    decreases |seg.secs| - j
  {
    if j < |seg.secs| && r.ok {
      PlaceFromShape(h, seg, start, j + 1, Place(h, seg, start, seg.secs[j], r));
    }
  }

  function LayoutSegments(h: Head, segs: seq<Seg>, order: seq<nat>, k: nat, cur: Cursor): Outcome
    requires h.m > 0 && k <= |order| && WellIndexed(segs, order, cur)
    decreases |order| - k
  {
    if k == |order| then Outcome(true, segs, cur) else
      var seg := segs[order[k]];
      var r := SegmentRun(h, seg, cur);
      var start := Start(h, seg, cur).0;
      PlaceFromShape(h, seg, start, 0, Run(true, cur.(pos := Start(h, seg, cur).2), Start(h, seg, cur).1, Start(h, seg, cur).1));
      if !r.ok then Outcome(false, segs, r.cur)
      else LayoutSegments(h, segs[order[k] := Finish(h, seg, start, r)], order, k + 1, r.cur)
  }

  // ---------------------------------------------------------------- loose sections and the table

  predicate InSegment(segs: seq<Seg>, x: nat) {
    exists k :: 0 <= k < |segs| && x in segs[k].secs
  }

  function RoundUp(pos: nat, align: nat): nat {
    if align > 1 && pos % align != 0 then pos + align - pos % align else pos
  }

  /** One loose section: where it goes and what the cursor becomes. */
  function LooseStep(x: nat, cur: Cursor): Cursor
    requires x < |cur.secs|
  {
    var s := cur.secs[x];
    var pos := RoundUp(cur.pos, s.addralign);
    cur.(secs := cur.secs[x := if x != 0 then s.(offset := pos) else s], pos := pos + FileSize(s),
         placed := if s.stype == SHT_NULL then cur.placed else cur.placed + [x])
  }

  function LooseFrom(segs: seq<Seg>, x: nat, cur: Cursor): (r: Cursor)
    requires x <= |cur.secs|
    ensures |r.secs| == |cur.secs|
    decreases |cur.secs| - x
  {
    if x == |cur.secs| then cur
    else LooseFrom(segs, x + 1, if InSegment(segs, x) then cur else LooseStep(x, cur))
  }

  /** The section header table goes at the next multiple of four. */
  function TableAt(pos: nat): nat { pos + (4 - pos % 4) % 4 }

  datatype Result = Result(ok: bool, segs: seq<Seg>, cur: Cursor, shoff: nat)

  function StartCursor(secs: seq<Sec>, pos: nat): Cursor {
    Cursor(secs, seq(|secs|, _ => false), pos, [])
  }

  lemma {:induction false} LayoutShape(h: Head, segs: seq<Seg>, order: seq<nat>, k: nat, cur: Cursor)
    requires h.m > 0 && k <= |order| && WellIndexed(segs, order, cur)
    ensures var o := LayoutSegments(h, segs, order, k, cur);
            && |o.segs| == |segs| && |o.cur.secs| == |o.cur.gen| == |cur.secs| && cur.pos <= o.cur.pos
            && forall i :: 0 <= i < |segs| ==> o.segs[i].secs == segs[i].secs
    decreases |order| - k
  {
    if k < |order| {
      var seg := segs[order[k]];
      var (start, size, pos) := Start(h, seg, cur);
      var r := SegmentRun(h, seg, cur);
      PlaceFromShape(h, seg, start, 0, Run(true, cur.(pos := pos), size, size));
      if r.ok {
        LayoutShape(h, segs[order[k] := Finish(h, seg, start, r)], order, k + 1, r.cur);
      }
    }
  }

  /** The whole layout: segments in the given order, loose sections, section header table.
      A refused layout stops where it is. */
  function LayoutAll(h: Head, segs: seq<Seg>, order: seq<nat>, secs: seq<Sec>, pos: nat): Result
    requires h.m > 0 && WellIndexed(segs, order, StartCursor(secs, pos))
  {
    var o := LayoutSegments(h, segs, order, 0, StartCursor(secs, pos));
    LayoutShape(h, segs, order, 0, StartCursor(secs, pos));
    if !o.ok then Result(false, o.segs, o.cur, o.cur.pos) else
      var cur := LooseFrom(o.segs, 0, o.cur);
      Result(true, o.segs, cur, TableAt(cur.pos))
  }
}
