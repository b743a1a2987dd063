/** The writer object itself (elfio.hpp): sections and segments are objects
    the layout loops update in place. 64-bit positions are computed with wrap-around, and each
    method shows that they are the exact positions of Layout.dfy while the end of the file fits. */
module ElfObject {
  import opened Arith
  import opened Bytes
  import opened Options
  import opened Pack
  import opened ElfTypes
  import opened Streams
  import opened ElfSection
  import opened ElfSegment
  import opened Layout
  import opened LayoutAlignment
  import LayoutSafety
  import LayoutSteps
  import LayoutRefusal
  import opened SaveLoad
  import FileFormat
  import LoadFormat
  import opened StringTable
  import SegmentOrder
  import SegmentReload

  // ---------------------------------------------------------------- views

  ghost function SecOf(s: Section): Sec
    reads s
  {
    Sec(s.header.stype, s.header.flags, s.header.size, s.header.addralign, s.header.addr, s.addressSet, s.header.offset)
  }

  ghost function SegOf(g: Segment): Seg
    reads g
  {
    Seg(g.ph.ptype, g.ph.vaddr, g.ph.align, g.ph.filesz, g.ph.memsz, g.ph.offset, g.sections)
  }

  ghost function Secs(ss: seq<Section>): (r: seq<Sec>)
    reads ss
    ensures |r| == |ss|
  {
    seq(|ss|, i requires 0 <= i < |ss| reads ss => SecOf(ss[i]))
  }

  ghost function Segs(gs: seq<Segment>): (r: seq<Seg>)
    reads gs
    ensures |r| == |gs|
  {
    seq(|gs|, i requires 0 <= i < |gs| reads gs => SegOf(gs[i]))
  }

  /** The sections are distinct objects that know their own index and class. */
  ghost predicate SectionsOk(c: Class, ss: seq<Section>)
    reads ss
  {
    && (forall i :: 0 <= i < |ss| ==> ss[i].cls == c && ss[i].index == i && ss[i].Valid())
    && (forall i, j :: 0 <= i < j < |ss| ==> ss[i] != ss[j])
  }

  /** So are the segments, and they list existing sections. */
  ghost predicate SegmentsOk(c: Class, gs: seq<Segment>, n: nat)
    reads gs
  {
    && (forall k :: 0 <= k < |gs| ==> gs[k].cls == c && gs[k].index == k && gs[k].Valid())
    && (forall k, l :: 0 <= k < l < |gs| ==> gs[k] != gs[l])
    && (forall k, j :: 0 <= k < |gs| && 0 <= j < |gs[k].sections| ==> gs[k].sections[j] < n)
  }

  /** What layout leaves alone in a section and in a segment. */
  datatype SectionRest = SectionRest(nameOffset: nat, link: nat, info: nat, entsize: nat, name: seq<byte>,
                                     data: array?<byte>, dataSize: nat)

  datatype SegmentRest = SegmentRest(flags: nat, paddr: nat)

  ghost function Rests(ss: seq<Section>): (r: seq<SectionRest>)
    reads ss
    ensures |r| == |ss|
  {
    seq(|ss|, i requires 0 <= i < |ss| reads ss =>
      SectionRest(ss[i].header.name, ss[i].header.link, ss[i].header.info, ss[i].header.entsize, ss[i].name, ss[i].data, ss[i].dataSize))
  }

  ghost function SegRests(gs: seq<Segment>): (r: seq<SegmentRest>)
    reads gs
    ensures |r| == |gs|
  {
    seq(|gs|, i requires 0 <= i < |gs| reads gs => SegmentRest(gs[i].ph.flags, gs[i].ph.paddr))
  }

  // ---------------------------------------------------------------- the object

  class Elf {
    var cls: Class
    var header: Ehdr
    var sections: seq<Section>
    var segments: seq<Segment>
    var currentFilePos: nat

    ghost predicate Valid()
      reads this, sections, segments
    {
      SectionsOk(cls, sections) && SegmentsOk(cls, segments, |sections|)
    }

    ghost function LayoutHead(): Head
      reads this
    {
      Head(cls.Limit(), header.phoff, header.phentsize * header.phnum)
    }

    // -------------------------------------------------------------- one section of a segment

    /** secAlign: the gap in front of a section, in 64-bit arithmetic. */
    method SectionAlign(seg: Segment, start: nat, sec: Section, generated: bool, filesize: nat) returns (ok: bool, secAlign: nat)
      requires currentFilePos < M64
      ensures ok <==> Gap(SegOf(seg), start, SecOf(sec), generated, currentFilePos, filesize).Some?
      ensures ok ==> secAlign == W64(Gap(SegOf(seg), start, SecOf(sec), generated, currentFilePos, filesize).value)
    {
      ok, secAlign := true, 0;
      if !generated && sec.addressSet && sec.header.stype != SHT_NOBITS && sec.header.stype != SHT_NULL && sec.header.size != 0 {
        var reqOffset := W64(sec.header.addr - seg.ph.vaddr);
        var curOffset := W64(currentFilePos - start);
        if reqOffset < curOffset {
          ok := false;
          return;
        }
        secAlign := reqOffset - curOffset;
      } else if !generated && !sec.addressSet {
        var align := sec.header.addralign;
        if align == 0 {
          align := 1;
        }
        var error := currentFilePos % align;
        secAlign := W64((align - error) % align);
      } else if generated {
        secAlign := W64(W64(sec.header.offset - start) - filesize);
      }
    }

    /** Moves the cursor over the gap and gives the section its address and offset there. */
    method SettleSection(seg: Segment, start: nat, x: nat, sec: Section, secAlign: nat)
      requires sec.Valid() && sec.cls == cls && sec.index == x && sec.header.stype != SHT_NULL
      requires currentFilePos + secAlign + FileSize(SecOf(sec)) < cls.Limit()
      modifies this`currentFilePos, sec`header, sec`addressSet
      ensures sec.Valid() && currentFilePos == old(currentFilePos) + secAlign + FileSize(old(SecOf(sec)))
      ensures SecOf(sec) == Settled(cls.Limit(), SegOf(seg), start, x, old(SecOf(sec)), old(currentFilePos) + secAlign)
      ensures sec.header == old(sec.header).(addr := sec.header.addr, offset := sec.header.offset)
    {
      hide Section.Valid, W64, Class.Limit;
      ghost var pos := currentFilePos + secAlign;
      InRange(pos, cls.Limit());
      InRange(pos + sec.header.size, cls.Limit());
      currentFilePos := W64(currentFilePos + secAlign);
      WrapTwice(seg.ph.vaddr + pos, start);
      if !sec.addressSet {
        sec.SetAddress(W64(W64(seg.ph.vaddr + currentFilePos) - start));
      }
      if sec.index != 0 {
        sec.SetOffset(currentFilePos);
      }
      if sec.header.stype != SHT_NOBITS && sec.header.stype != SHT_NULL {
        currentFilePos := W64(currentFilePos + sec.header.size);
      }
    }

    /** The same, seen on all sections: only this one changes. */
    method SettleAmong(seg: Segment, start: nat, x: nat, sec: Section, secAlign: nat)
      requires Valid() && x < |sections| && sec == sections[x] && sec.header.stype != SHT_NULL
      requires currentFilePos + secAlign + FileSize(SecOf(sec)) < cls.Limit()
      modifies this`currentFilePos, sec`header, sec`addressSet
      ensures Valid() && Rests(sections) == old(Rests(sections))
      ensures currentFilePos == old(currentFilePos) + secAlign + FileSize(old(SecOf(sec)))
      ensures Secs(sections)
           == old(Secs(sections))[x := Settled(cls.Limit(), SegOf(seg), start, x, old(SecOf(sec)), old(currentFilePos) + secAlign)]
    {
      hide Section.Valid, SegmentsOk, FileSize, Class.Limit, W64;
      ghost var secs, rests := Secs(sections), Rests(sections);
      SettleSection(seg, start, x, sec, secAlign);
      assert Secs(sections) == secs[x := SecOf(sec)];
      assert Rests(sections) == rests;
    }

    /** The segment's file and memory sizes with this section. */
    method AddSizes(seg: Segment, sec: Section, secAlign: nat, ghost gap: int, filesize: nat, memory: nat) returns (filesize': nat, memory': nat)
      requires secAlign == W64(gap) && sec.header.stype != SHT_NULL
      ensures memory' == if CountsInMemory(SegOf(seg), SecOf(sec)) then W64(memory + sec.header.size + gap) else memory
      ensures filesize' == if sec.header.stype != SHT_NOBITS then W64(filesize + sec.header.size + gap) else filesize
    {
      hide Alloc, Tls, W64;
      filesize', memory' := filesize, memory;
      if Alloc(sec.header.flags)
         && !(Tls(sec.header.flags) && seg.ph.ptype != PT_TLS && sec.header.stype == SHT_NOBITS) {
        memory' := W64(memory + W64(sec.header.size + secAlign));
      }
      if sec.header.stype != SHT_NOBITS && sec.header.stype != SHT_NULL {
        filesize' := W64(filesize + W64(sec.header.size + secAlign));
      }
      SumWraps(memory, sec.header.size, gap, secAlign);
      SumWraps(filesize, sec.header.size, gap, secAlign);
    }

    /** One round of the inner loop of layout_segments_and_their_sections. */
    method PlaceSection(seg: Segment, start: nat, x: nat, sec: Section, gen: seq<bool>, filesize: nat, memory: nat, ghost placed: seq<nat>)
      returns (ok: bool, gen': seq<bool>, filesize': nat, memory': nat, ghost placed': seq<nat>)
      requires Valid() && x < |sections| == |gen| && sec == sections[x] && currentFilePos < M64
      requires Place(LayoutHead(), SegOf(seg), start, x, Run(true, Cursor(Secs(sections), gen, currentFilePos, placed), filesize, memory)).cur.pos < cls.Limit()
      modifies this`currentFilePos, sec`header, sec`addressSet
      ensures Valid() && Rests(sections) == old(Rests(sections))
      ensures Run(ok, Cursor(Secs(sections), gen', currentFilePos, placed'), filesize', memory')
           == old(Place(LayoutHead(), SegOf(seg), start, x, Run(true, Cursor(Secs(sections), gen, currentFilePos, placed), filesize, memory)))
    {
      hide Gap, CountsInMemory, Section.Valid, W64, SegmentsOk, FileSize, Class.Limit, Rests, Settled, Place;
      ok, gen', filesize', memory', placed' := true, gen, filesize, memory, placed;
      ghost var r0 := Run(true, Cursor(Secs(sections), gen, currentFilePos, placed), filesize, memory);
      NotFreshlyPlaced(LayoutHead(), SegOf(seg), start, x, r0);
      ghost var secs := Secs(sections);
      ghost var s := SecOf(sec);
      ghost var gap := Gap(SegOf(seg), start, s, gen[x], currentFilePos, filesize);
      ghost var e := Place(LayoutHead(), SegOf(seg), start, x, Run(true, Cursor(secs, gen, currentFilePos, placed), filesize, memory));
      if sec.header.stype == SHT_NULL {
        gen' := gen[x := true];
        return;
      }
      var secAlign;
      ok, secAlign := SectionAlign(seg, start, sec, gen[x], filesize);
      if !ok {
        return;
      }
      filesize', memory' := AddSizes(seg, sec, secAlign, gap.value, filesize, memory);
      if gen[x] {
        return;
      }
      InRange(gap.value, M64);
      PlaceFresh(LayoutHead(), SegOf(seg), start, x, Run(true, Cursor(secs, gen, currentFilePos, placed), filesize, memory), gap.value);
      SettleAmong(seg, start, x, sec, secAlign);
      gen' := gen[x := true];
      placed' := placed + [x];
    }

    // -------------------------------------------------------------- one segment

    /** A new segment is aligned: its start becomes congruent to its address. */
    method AlignStart(seg: Segment)
      requires AlignedPos(SegOf(seg), currentFilePos) < M64
      modifies this`currentFilePos
      ensures currentFilePos == AlignedPos(SegOf(seg), old(currentFilePos))
    {
      hide W64, AlignedPos;
      var align := if seg.ph.align > 0 then seg.ph.align else 1;
      var curPageAlignment := currentFilePos % align;
      var reqPageAlignment := seg.ph.vaddr % align;
      var error := W64(reqPageAlignment - curPageAlignment);
      AlignedIs(SegOf(seg), currentFilePos, align, curPageAlignment, reqPageAlignment);
      Unwrapped(AlignedPos(SegOf(seg), currentFilePos));
      currentFilePos := W64(currentFilePos + W64(seg.ph.align + error) % align);
    }

    /** Where a segment starts and what its sizes start from. */
    method StartSegment(seg: Segment, gen: seq<bool>, ghost placed: seq<nat>) returns (start: nat, size: nat)
      requires Valid() && |sections| == |gen| && seg in segments
      requires header.phoff < cls.Limit()
      requires Start(LayoutHead(), SegOf(seg), Cursor(Secs(sections), gen, currentFilePos, placed)).2 < cls.Limit()
      modifies this`currentFilePos
      ensures Valid() && start < cls.Limit()
      ensures (start, size, currentFilePos) == Start(LayoutHead(), SegOf(seg), Cursor(Secs(sections), gen, old(currentFilePos), placed))
    {
      hide Section.Valid, Segment.Valid, Class.Limit, AlignedPos;
      start := currentFilePos;
      size := 0;
      if seg.ph.ptype == PT_PHDR && |seg.sections| == 0 {
        start := header.phoff;
        size := header.phentsize * header.phnum;
      } else if |seg.sections| > 1 && sections[seg.sections[0]].header.stype == SHT_NULL {
        start := 0;
        if |seg.sections| != 0 {
          size := currentFilePos;
        }
      } else if |seg.sections| != 0 && !gen[seg.sections[0]] {
        FreshStarts(LayoutHead(), SegOf(seg), Cursor(Secs(sections), gen, currentFilePos, placed));
        AlignStart(seg);
        start := currentFilePos;
      } else if |seg.sections| != 0 {
        sections[seg.sections[0]].WideFields();
        start := sections[seg.sections[0]].header.offset;
      }
    }

    /** The inner loop over the segment's sections. */
    method PlaceSections(seg: Segment, start: nat, gen: seq<bool>, size: nat, ghost placed: seq<nat>)
      returns (ok: bool, gen': seq<bool>, filesize: nat, memory: nat, ghost placed': seq<nat>)
      requires Valid() && |sections| == |gen| && seg in segments
      requires PlaceFrom(LayoutHead(), SegOf(seg), start, 0, Run(true, Cursor(Secs(sections), gen, currentFilePos, placed), size, size)).cur.pos < cls.Limit()
      modifies this`currentFilePos, sections
      ensures Valid() && |gen'| == |sections| && SegOf(seg) == old(SegOf(seg)) && Rests(sections) == old(Rests(sections))
      ensures Run(ok, Cursor(Secs(sections), gen', currentFilePos, placed'), filesize, memory)
           == PlaceFrom(LayoutHead(), SegOf(seg), start, 0, Run(true, old(Cursor(Secs(sections), gen, currentFilePos, placed)), size, size))
    {
      hide Place, PlaceFrom, Section.Valid, Segment.Valid, Class.Limit, Rests, Secs;
      ghost var h, g := LayoutHead(), SegOf(seg);
      ghost var r0 := Run(true, Cursor(Secs(sections), gen, currentFilePos, placed), size, size);
      ghost var rests := Rests(sections);
      ok, gen', filesize, memory, placed' := true, gen, size, size, placed;
      var j := 0;
      while j < |seg.sections|
        invariant Valid() && ok && 0 <= j <= |seg.sections| && |gen'| == |sections|
        invariant SegOf(seg) == g && LayoutHead() == h && Rests(sections) == rests
        invariant PlaceFrom(h, g, start, j, Run(true, Cursor(Secs(sections), gen', currentFilePos, placed'), filesize, memory))
               == PlaceFrom(h, g, start, 0, r0)
        decreases |seg.sections| - j
      {
        var index := seg.sections[j];
        ghost var r := Run(true, Cursor(Secs(sections), gen', currentFilePos, placed'), filesize, memory);
        PlaceFromShape(h, g, start, j, r);
        PlaceBound(h, g, start, j, r);
        NextPlaced(h, g, start, j, r);
        ok, gen', filesize, memory, placed' := PlaceSection(seg, start, index, sections[index], gen', filesize, memory, placed');
        j := j + 1;
        if !ok {
          return;
        }
      }
      NonePlaced(h, g, start, Run(true, Cursor(Secs(sections), gen', currentFilePos, placed'), filesize, memory));
    }

    /** The body of the outer loop: start, sections, sizes of one segment. */
    method LayoutSegment(seg: Segment, gen: seq<bool>, ghost placed: seq<nat>)
      returns (ok: bool, gen': seq<bool>, ghost placed': seq<nat>)
      requires Valid() && |sections| == |gen| && seg in segments && header.phoff < cls.Limit()
      requires SegmentRun(LayoutHead(), SegOf(seg), Cursor(Secs(sections), gen, currentFilePos, placed)).cur.pos < cls.Limit()
      modifies this`currentFilePos, sections, seg`ph, seg`offsetSet
      ensures Valid() && |gen'| == |sections| && Rests(sections) == old(Rests(sections))
      ensures seg.ph.flags == old(seg.ph.flags) && seg.ph.paddr == old(seg.ph.paddr)
      ensures var h, g, cur := LayoutHead(), old(SegOf(seg)), old(Cursor(Secs(sections), gen, currentFilePos, placed));
              var r := SegmentRun(h, g, cur);
              && ok == r.ok
              && Cursor(Secs(sections), gen', currentFilePos, placed') == r.cur
              && SegOf(seg) == if r.ok then Finish(h, g, Start(h, g, cur).0, r) else g
    {
      hide Start, PlaceFrom, Section.Valid, Segment.Valid, Class.Limit, SectionsOk, Rests;
      ghost var h, g, cur0 := LayoutHead(), SegOf(seg), Cursor(Secs(sections), gen, currentFilePos, placed);
      StartBound(h, g, cur0);
      var start, size := StartSegment(seg, gen, placed);
      var memory, filesize;
      ok, gen', filesize, memory, placed' := PlaceSections(seg, start, gen, size, placed);
      if !ok {
        return;
      }
      FinishSegment(seg, start, filesize, memory);
    }

    /** The header fields of a segment after its sections are placed. */
    method FinishSegment(seg: Segment, start: nat, filesize: nat, memory: nat)
      requires seg.Valid() && seg.cls == cls && start < cls.Limit()
      modifies seg`ph, seg`offsetSet
      ensures seg.Valid() && seg.ph.flags == old(seg.ph.flags) && seg.ph.paddr == old(seg.ph.paddr)
      ensures SegOf(seg) == Finish(LayoutHead(), old(SegOf(seg)), start, Run(true, Cursor([], [], 0, []), filesize, memory))
    {
      hide Segment.Valid, Section.Valid;
      InRange(start, cls.Limit());
      seg.SetFileSize(filesize);
      if seg.ph.memsz < memory {
        seg.SetMemorySize(memory);
      }
      seg.SetOffset(start);
    }

    // -------------------------------------------------------------- all segments

    /** get_ordered_segments over the object's segments. */
    method OrderSegments() returns (worklist: seq<Segment>)
      requires Valid()
      ensures |worklist| == |OrderOf(segments)|
      ensures forall k :: 0 <= k < |worklist| ==> worklist[k] == segments[OrderOf(segments)[k]]
    {
      hide SectionsOk, SegmentsOk, SegmentOrder.Ordered;
      var items: seq<SegmentOrder.Item> := [];
      var i := 0;
      while i < |segments|
        invariant 0 <= i <= |segments| && items == ItemsOf(segments)[..i]
      {
        items := items + [SegmentOrder.Item(i, segments[i].sections, segments[i].ph.offset, segments[i].offsetSet)];
        i := i + 1;
      }
      assert items == ItemsOf(segments);
      var res := SegmentOrder.GetOrderedSegments(items);
      worklist := [];
      i := 0;
      while i < |res|
        invariant 0 <= i <= |res| && |worklist| == i
        invariant forall k :: 0 <= k < i ==> worklist[k] == segments[OrderOf(segments)[k]]
      {
        assert OrderOf(segments)[i] == res[i].id;
        worklist := worklist + [segments[res[i].id]];
        i := i + 1;
      }
    }

    /** calc_segment_alignment: a segment is aligned at least as its sections. */
    method CalcSegmentAlignment()
      requires Valid()
      modifies segments
      ensures Valid() && Segs(segments) == RaiseAll(old(Segs(segments)), Secs(sections), |segments|)
      ensures ItemsOf(segments) == old(ItemsOf(segments)) && SegRests(segments) == old(SegRests(segments))
    {
      hide Section.Valid, RaiseAll, RaisedAlign, SectionsOk, SegmentsOk, Secs, Segs, ItemsOf, SegRests;
      ghost var rests := SegRests(segments);
      ghost var segs, secs, items := Segs(segments), Secs(sections), ItemsOf(segments);
      ListsOk(cls, segments, |secs|);
      RaiseNone(segs, secs);
      var s := 0;
      while s < |segments|
        invariant Valid() && 0 <= s <= |segments| && Secs(sections) == secs
        invariant forall k :: 0 <= k < |segs| ==> IndicesOk(segs[k], |secs|)
        invariant Segs(segments) == RaiseAll(segs, secs, s) && ItemsOf(segments) == items && SegRests(segments) == rests
      {
        RaiseNext(segs, secs, s);
        RaiseRound(s);
        s := s + 1;
      }
    }

    method RaiseRound(s: nat)
      requires Valid() && s < |segments|
      modifies segments[s]
      ensures Valid() && Secs(sections) == old(Secs(sections)) && ItemsOf(segments) == old(ItemsOf(segments))
      ensures SegRests(segments) == old(SegRests(segments))
      ensures IndicesOk(old(Segs(segments))[s], |sections|)
      ensures var g := old(Segs(segments))[s];
              Segs(segments) == old(Segs(segments))[s := g.(align := RaisedAlign(g.align, g.secs, Secs(sections)))]
    {
      hide Section.Valid, RaisedAlign, SectionsOk;
      ghost var before, items, rests := Segs(segments), ItemsOf(segments), SegRests(segments);
      ListsOk(cls, segments, |sections|);
      RaiseSegment(segments[s]);
      assert Segs(segments) == before[s := SegOf(segments[s])];
      assert ItemsOf(segments) == items;
      assert SegRests(segments) == rests;
    }

    lemma AlignsFit()
      requires Valid()
      ensures forall i :: 0 <= i < |sections| ==> sections[i].header.addralign < cls.Limit()
    {
      forall i | 0 <= i < |sections| ensures sections[i].header.addralign < cls.Limit() {
        sections[i].WideFields();
      }
    }

    method RaiseSegment(seg: Segment)
      requires Valid() && seg in segments
      modifies seg`ph
      ensures Valid() && SegOf(seg) == old(SegOf(seg)).(align := RaisedAlign(old(seg.ph.align), seg.sections, Secs(sections)))
      ensures seg.ph == old(seg.ph).(align := seg.ph.align)
    {
      hide Section.Valid, Segment.Valid, SectionsOk, Class.Limit, RaisedAlign;
      AlignsFit();
      ghost var align, secs := seg.ph.align, Secs(sections);
      RaiseNothing(align, secs);
      assert seg.sections[..0] == [];
      var i := 0;
      while i < |seg.sections|
        invariant seg.Valid() && 0 <= i <= |seg.sections|
        invariant seg.ph == old(seg.ph).(align := RaisedAlign(align, seg.sections[..i], secs))
      {
        var sect := sections[seg.sections[i]];
        assert SecOf(sect) == secs[seg.sections[i]];
        RaiseStep(align, seg.sections, i, secs);
        if sect.header.addralign > seg.ph.align {
          InRange(sect.header.addralign, cls.Limit());
          seg.SetAlign(sect.header.addralign);
        }
        i := i + 1;
      }
      assert seg.sections[..|seg.sections|] == seg.sections;
    }

    /** The state the layout works on. */
    ghost function CursorOf(gen: seq<bool>, placed: seq<nat>): Cursor
      reads this, sections
    {
      Cursor(Secs(sections), gen, currentFilePos, placed)
    }

    /** One round of the outer loop, seen on all segments. */
    method SegmentRound(k: nat, seg: Segment, ghost order: seq<nat>, gen: seq<bool>, ghost placed: seq<nat>)
      returns (ok: bool, gen': seq<bool>, ghost placed': seq<nat>)
      requires Valid() && |gen| == |sections| && header.phoff < cls.Limit()
      requires k < |order| && WellIndexed(Segs(segments), order, CursorOf(gen, placed)) && seg == segments[order[k]]
      requires SegmentRun(LayoutHead(), Segs(segments)[order[k]], CursorOf(gen, placed)).cur.pos < cls.Limit()
      modifies this`currentFilePos, sections, segments
      ensures Valid() && |gen'| == |sections| && Rests(sections) == old(Rests(sections))
      ensures WellIndexed(Segs(segments), order, CursorOf(gen', placed')) && SegRests(segments) == old(SegRests(segments))
      ensures var h, segs, cur := LayoutHead(), old(Segs(segments)), old(CursorOf(gen, placed));
              var r := SegmentRun(h, segs[order[k]], cur);
              && ok == r.ok && CursorOf(gen', placed') == r.cur
              && Segs(segments) == if r.ok then segs[order[k] := Finish(h, segs[order[k]], Start(h, segs[order[k]], cur).0, r)] else segs
    {
      hide Section.Valid, Segment.Valid, SegmentRun, Start, Finish, SectionsOk, Rests;
      ghost var before, segRests := Segs(segments), SegRests(segments);
      assert before[order[k]] == SegOf(seg);
      ok, gen', placed' := LayoutSegment(seg, gen, placed);
      assert Segs(segments) == before[order[k] := SegOf(seg)];
      assert SegRests(segments) == segRests;
      WellIndexedNow(cls, segments, order, CursorOf(gen', placed'));
    }

    lemma FirstCursor(gen: seq<bool>)
      requires |gen| == |sections| && forall x :: 0 <= x < |gen| ==> !gen[x]
      ensures StartCursor(Secs(sections), currentFilePos) == CursorOf(gen, [])
      ensures |CursorOf(gen, []).secs| == |CursorOf(gen, []).gen| == |sections|
    {
      hide Secs;
      assert gen == StartCursor(Secs(sections), currentFilePos).gen;
    }

    method LayoutSegmentsAndTheirSections() returns (ok: bool, ghost gen: seq<bool>, ghost placed: seq<nat>)
      requires Valid() && header.phoff < cls.Limit()
      requires LayoutSegments(LayoutHead(), Segs(segments), OrderOf(segments), 0, StartCursor(Secs(sections), currentFilePos)).cur.pos < cls.Limit()
      modifies this`currentFilePos, sections, segments
      ensures Valid() && Rests(sections) == old(Rests(sections)) && |gen| == |sections|
      ensures SegRests(segments) == old(SegRests(segments))
      ensures Outcome(ok, Segs(segments), CursorOf(gen, placed))
           == old(LayoutSegments(LayoutHead(), Segs(segments), OrderOf(segments), 0, StartCursor(Secs(sections), currentFilePos)))
    {
      hide Section.Valid, SegmentRun, Start, Finish, SectionsOk, SegmentsOk, WellIndexed, Secs, Segs, Rests, SegRests, LayoutSegments, OrderOf,
           Class.Limit, StartCursor, CursorOf;
      ghost var h, segs, order, rests, segRests := LayoutHead(), Segs(segments), OrderOf(segments), Rests(sections), SegRests(segments);
      ghost var c0 := StartCursor(Secs(sections), currentFilePos);
      FirstCursor(seq(|sections|, _ => false));
      WellIndexedNow(cls, segments, order, c0);
      var worklist := OrderSegments();
      var sectionGenerated := seq(|sections|, _ => false);
      gen, placed, ok := sectionGenerated, [], true;
      FirstCursor(gen);
      var i := 0;
      while i < |worklist|
        invariant Valid() && ok && 0 <= i <= |worklist| == |order| && gen == sectionGenerated && |gen| == |sections|
        invariant LayoutHead() == h && Rests(sections) == rests && SegRests(segments) == segRests
        invariant forall k :: 0 <= k < |order| ==> order[k] < |segments| && worklist[k] == segments[order[k]]
        invariant WellIndexed(Segs(segments), order, CursorOf(gen, placed)) && WellIndexed(segs, order, c0)
        invariant LayoutSegments(h, Segs(segments), order, i, CursorOf(gen, placed)) == LayoutSegments(h, segs, order, 0, c0)
      {
        StepBound(h, Segs(segments), order, i, CursorOf(gen, placed));
        NextRound(h, Segs(segments), order, i, CursorOf(gen, placed));
        ok, sectionGenerated, placed := SegmentRound(i, worklist[i], order, sectionGenerated, placed);
        gen := sectionGenerated;
        i := i + 1;
        if !ok {
          return;
        }
      }
      LastRound(h, Segs(segments), order, CursorOf(gen, placed));
    }

    // -------------------------------------------------------------- loose sections

    method IsSectionWithoutSegment(x: nat) returns (loose: bool)
      ensures loose <==> !InSegment(Segs(segments), x)
    {
      var found := false;
      ghost var at := 0;
      var j := 0;
      while !found && j < |segments|
        invariant 0 <= j <= |segments|
        invariant found ==> at < |segments| && x in segments[at].sections
        invariant !found ==> forall l :: 0 <= l < j ==> x !in segments[l].sections
        decreases |segments| - j, !found
      {
        var k := 0;
        while !found && k < |segments[j].sections|
          invariant 0 <= k <= |segments[j].sections|
          invariant found ==> x in segments[j].sections
          invariant !found ==> x !in segments[j].sections[..k]
        {
          found := segments[j].sections[k] == x;
          k := k + 1;
        }
        at := j;
        j := j + 1;
      }
      loose := !found;
      if found {
        assert x in Segs(segments)[at].secs;
      }
    }

    /** One loose section: aligned, given the position, and passed over. */
    method LayoutLoose(x: nat, sec: Section)
      requires sec.Valid() && sec.cls == cls && sec.index == x
      requires RoundUp(currentFilePos, sec.header.addralign) + FileSize(SecOf(sec)) < cls.Limit()
      modifies this`currentFilePos, sec`header, sec`addressSet
      ensures sec.Valid()
      ensures var s, pos := old(SecOf(sec)), RoundUp(old(currentFilePos), old(sec.header.addralign));
              && SecOf(sec) == (if x != 0 then s.(offset := pos) else s)
              && currentFilePos == pos + FileSize(s)
      ensures sec.header == old(sec.header).(offset := sec.header.offset)
    {
      hide Section.Valid, W64, Class.Limit;
      ghost var pos := RoundUp(currentFilePos, sec.header.addralign);
      InRange(pos, cls.Limit());
      InRange(pos + sec.header.size, cls.Limit());
      var sectionAlign := sec.header.addralign;
      if sectionAlign > 1 && currentFilePos % sectionAlign != 0 {
        currentFilePos := W64(currentFilePos + (sectionAlign - currentFilePos % sectionAlign));
      }
      assert currentFilePos == pos;
      if sec.index != 0 {
        sec.SetOffset(currentFilePos);
      }
      if sec.header.stype != SHT_NOBITS && sec.header.stype != SHT_NULL {
        currentFilePos := W64(currentFilePos + sec.header.size);
      }
    }

    /** One round of layout_sections_without_segments. */
    method LooseRound(i: nat, ghost gen: seq<bool>, ghost placed: seq<nat>) returns (ghost placed': seq<nat>)
      requires Valid() && i < |sections|
      requires LooseStep(i, CursorOf(gen, placed)).pos < cls.Limit() || InSegment(Segs(segments), i)
      modifies this`currentFilePos, sections[i]
      ensures Valid() && Rests(sections) == old(Rests(sections)) && Segs(segments) == old(Segs(segments))
      ensures var cur := old(CursorOf(gen, placed));
              CursorOf(gen, placed') == if InSegment(Segs(segments), i) then cur else LooseStep(i, cur)
    {
      hide Section.Valid, SegmentsOk, InSegment, RoundUp, FileSize;
      placed' := placed;
      ghost var cur, segs, rests := CursorOf(gen, placed), Segs(segments), Rests(sections);
      var loose := IsSectionWithoutSegment(i);
      if loose {
        LayoutLoose(i, sections[i]);
        placed' := if cur.secs[i].stype == SHT_NULL then placed' else placed' + [i];
        assert Secs(sections) == cur.secs[i := SecOf(sections[i])];
      }
      assert Segs(segments) == segs;
      assert Rests(sections) == rests;
    }

    method LayoutSectionsWithoutSegments(ghost gen: seq<bool>, ghost placed: seq<nat>) returns (ghost placed': seq<nat>)
      requires Valid()
      requires LooseFrom(Segs(segments), 0, CursorOf(gen, placed)).pos < cls.Limit()
      modifies this`currentFilePos, sections
      ensures Valid() && Rests(sections) == old(Rests(sections))
      ensures CursorOf(gen, placed') == LooseFrom(Segs(segments), 0, old(CursorOf(gen, placed)))
    {
      hide Section.Valid, SectionsOk, SegmentsOk, InSegment, RoundUp, FileSize, Rests, Segs, Class.Limit, LooseStep, LooseFrom;
      ghost var segs, c0, rests := Segs(segments), CursorOf(gen, placed), Rests(sections);
      placed' := placed;
      var i := 0;
      while i < |sections|
        invariant Valid() && 0 <= i <= |sections| && Segs(segments) == segs && Rests(sections) == rests
        invariant LooseFrom(segs, i, CursorOf(gen, placed')) == LooseFrom(segs, 0, c0)
      {
        LooseOne(segs, i, CursorOf(gen, placed'));
        placed' := LooseRound(i, gen, placed');
        i := i + 1;
      }
      LooseNone(segs, CursorOf(gen, placed'));
    }

    method LayoutSectionTable()
      requires Valid() && TableAt(currentFilePos) < cls.Limit()
      modifies this`currentFilePos, this`header
      ensures currentFilePos == TableAt(old(currentFilePos))
      ensures header == old(header).(shoff := TableAt(old(currentFilePos)))
    {
      var alignmentError := currentFilePos % 4;
      InRange(TableAt(currentFilePos), cls.Limit());
      currentFilePos := W64(currentFilePos + (4 - alignmentError) % 4);
      header := header.(shoff := currentFilePos % cls.Limit());
    }

    // -------------------------------------------------------------- saving

    ghost function DataArrays(): set<array?<byte>>
      reads this, sections
    {
      set s | s in sections :: s.data
    }

    /** The object as the file will hold it. */
    ghost function ToObject(): Object
      reads this, sections, segments, DataArrays()
    {
      Object(cls, header,
             seq(|sections|, i requires 0 <= i < |sections| reads this, sections, DataArrays() => SectOf(sections[i])),
             seq(|segments|, i requires 0 <= i < |segments| reads this, segments => segments[i].ph))
    }

    /** The layout save computes: number of segments, table place and first free position come
        from the header; segments are aligned and ordered first. */
    ghost function LayoutResult(): Result
      requires Valid()
      reads this, sections, segments
    {
      WellIndexedNow(cls, segments, OrderOf(segments), StartCursor(Secs(sections), 0));
      ResultOf(cls, Segs(segments), OrderOf(segments), Secs(sections), header)
    }

    /** The fields of the file header that saving sets. */
    ghost function SavedHeader(shoff: nat): Ehdr
      reads this
    {
      header.(phnum := |segments|, phoff := if |segments| > 0 then header.ehsize else 0, shnum := |sections|, shoff := shoff)
    }

    ghost predicate HeaderOk()
      reads this
    {
      EhdrFits(cls, header) && IdentOk(cls, header.ident) && |sections| < M16 && |segments| < M16
    }

    method SetHeader()
      requires HeaderOk()
      modifies this`header
      ensures HeaderOk() && header == old(SavedHeader(0))
    {
      hide EhdrFits;
      ghost var h := header;
      EhdrSmall(cls, h);
      LimitLarge(cls);
      EhdrKeepsFitting(cls, h, |segments|, if |segments| > 0 then h.ehsize else 0, |sections|, 0);
      header := header.(phnum := |segments| % M16);
      header := header.(phoff := if |segments| != 0 then header.ehsize else 0);
      header := header.(shnum := |sections| % M16);
      header := header.(shoff := 0);
    }

    /** The two layout passes and the section header table. */
    method RunPasses() returns (ok: bool)
      requires Valid() && header.phoff < cls.Limit()
      requires WellIndexed(Segs(segments), OrderOf(segments), StartCursor(Secs(sections), currentFilePos))
      requires LayoutAll(LayoutHead(), Segs(segments), OrderOf(segments), Secs(sections), currentFilePos).shoff < cls.Limit()
      modifies this`header, this`currentFilePos, sections, segments
      ensures Valid()
      ensures Rests(sections) == old(Rests(sections)) && SegRests(segments) == old(SegRests(segments))
      ensures var r := old(LayoutAll(LayoutHead(), Segs(segments), OrderOf(segments), Secs(sections), currentFilePos));
              && ok == r.ok && Segs(segments) == r.segs && Secs(sections) == r.cur.secs
              && header == if ok then old(header).(shoff := r.shoff) else old(header)
    {
      hide SectionsOk, SegmentsOk, Secs, Segs, Rests, SegRests, LayoutSegments, LooseFrom, OrderOf, WellIndexed, Class.Limit;
      ghost var h, c0 := LayoutHead(), StartCursor(Secs(sections), currentFilePos);
      ghost var segs, order := Segs(segments), OrderOf(segments);
      LayoutShape(h, segs, order, 0, c0);
      ghost var o := LayoutSegments(h, segs, order, 0, c0);
      LooseBound(o.segs, 0, o.cur);
      ghost var gen, placed;
      ok, gen, placed := LayoutSegmentsAndTheirSections();
      if ok {
        placed := LayoutSectionsWithoutSegments(gen, placed);
        LayoutSectionTable();
      }
    }

    /** What save does before the passes: header fields, first free position, alignment. */
    method Prepare()
      requires Valid() && HeaderOk()
      modifies this`header, this`currentFilePos, segments
      ensures Valid() && HeaderOk() && header == old(SavedHeader(0)) && header.phoff < cls.Limit()
      ensures currentFilePos == header.ehsize + header.phentsize * |segments|
      ensures Segs(segments) == RaiseAll(old(Segs(segments)), Secs(sections), |segments|)
      ensures OrderOf(segments) == old(OrderOf(segments)) && SegRests(segments) == old(SegRests(segments))
      ensures WellIndexed(Segs(segments), OrderOf(segments), StartCursor(Secs(sections), currentFilePos))
    {
      hide SectionsOk, SegmentsOk, Secs, Segs, SegRests, RaiseAll, EhdrFits, Class.Limit, WellIndexed, IdentOk, ItemsOf;
      EhdrSmall(cls, header);
      LimitLarge(cls);
      HeadersSmall(header.ehsize, header.phentsize, |segments|);
      SetHeader();
      currentFilePos := W64(header.ehsize + header.phentsize * header.phnum);
      CalcSegmentAlignment();
      WellIndexedNow(cls, segments, OrderOf(segments), StartCursor(Secs(sections), currentFilePos));
    }

    /** save up to the writes. */
    method LayOut() returns (ok: bool)
      requires Valid() && HeaderOk() && LayoutResult().shoff < cls.Limit()
      modifies this`header, this`currentFilePos, sections, segments
      ensures Valid() && HeaderOk()
      ensures Rests(sections) == old(Rests(sections)) && SegRests(segments) == old(SegRests(segments))
      ensures var r := old(LayoutResult());
              && ok == r.ok && Segs(segments) == r.segs && Secs(sections) == r.cur.secs
              && (ok ==> header == old(SavedHeader(LayoutResult().shoff)))
    {
      hide SectionsOk, SegmentsOk, Secs, Segs, Rests, SegRests, RaiseAll, LayoutAll, EhdrFits, Class.Limit, WellIndexed, OrderOf, IdentOk;
      ghost var r := LayoutResult();
      Prepare();
      assert LayoutAll(LayoutHead(), Segs(segments), OrderOf(segments), Secs(sections), currentFilePos) == r;
      EhdrKeepsFitting(cls, header, |segments|, header.phoff, |sections|, r.shoff);
      ok := RunPasses();
    }

    /** Whether save will be refused, before it is called. */
    lemma RefusedIff()
      requires Valid() && Loadable() && LayoutSteps.Nesting(Segs(segments), OrderOf(segments))
      ensures var all, order, secs, pos := RaiseAll(Segs(segments), Secs(sections), |segments|), OrderOf(segments), Secs(sections),
                                           header.ehsize + header.phentsize * |segments|;
              && LayoutSafety.InputOk(all, order, secs)
              && (LayoutRefusal.Bounded(all, order, secs, pos) ==>
                    (LayoutResult().ok <==> LayoutRefusal.AllFit(all, order, secs, pos)))
    {
      hide LayoutAll, Secs, Segs, RaiseAll, OrderOf, LayoutSteps.Nesting, LayoutRefusal.Bounded, LayoutRefusal.AllFit,
           SectionsOk, SegmentsOk;
      LoadableInput();
      var all, order, secs, pos := RaiseAll(Segs(segments), Secs(sections), |segments|), OrderOf(segments), Secs(sections),
                                   header.ehsize + header.phentsize * |segments|;
      RaisedInput(Segs(segments), order, secs);
      RaisedNesting(Segs(segments), order, secs);
      if LayoutRefusal.Bounded(all, order, secs, pos) {
        LayoutRefusal.RefusedExactly(HeadOf(cls, header, |segments|), all, order, secs, pos);
      }
    }

    lemma ObjectFits()
      requires Valid() && HeaderOk()
      ensures ToObject().FieldsFit()
    {}

    lemma ObjectData(i: nat)
      requires Valid() && i < |sections|
      ensures ToObject().DataOf(i) == sections[i].Bytes()
    {}

    /** save_sections: header and data of every section. */
    method SaveSections(stream: OutputFile)
      requires Valid() && HeaderOk()
      modifies sections, stream
      ensures Valid() && ToObject() == old(ToObject()) && ToObject().FieldsFit()
      ensures Rests(sections) == old(Rests(sections)) && Secs(sections) == old(Secs(sections))
      ensures stream.bytes == WriteAll(old(stream.bytes), ToObject().SectionWrites(|sections|))
    {
      hide SectionsOk, SegmentsOk, EhdrFits, IdentOk, Object.FieldsFit, Object.HeaderChunk, Object.DataChunk, Object.SectionWrites, Secs, Rests;
      ghost var o := ToObject();
      ObjectFits();
      ghost var f := stream.bytes;
      ghost var rests, secs := Rests(sections), Secs(sections);
      NoSectionWrites(o);
      var i := 0;
      while i < |sections|
        invariant Valid() && HeaderOk() && 0 <= i <= |sections| && ToObject() == o
        invariant Rests(sections) == rests && Secs(sections) == secs
        invariant stream.bytes == WriteAll(f, o.SectionWrites(i))
      {
        NextSectionWrites(o, i);
        WriteAllAppend(f, o.SectionWrites(i), [o.HeaderChunk(i), o.DataChunk(i)]);
        SaveSection(i, stream);
        i := i + 1;
      }
    }

    method SaveSection(i: nat, stream: OutputFile)
      requires Valid() && HeaderOk() && i < |sections| && ToObject().FieldsFit()
      modifies sections[i], stream
      ensures Valid() && ToObject() == old(ToObject())
      ensures Rests(sections) == old(Rests(sections)) && Secs(sections) == old(Secs(sections))
      ensures stream.bytes == WriteAll(old(stream.bytes), [ToObject().HeaderChunk(i), ToObject().DataChunk(i)])
    {
      hide Section.Valid, SegmentsOk, EhdrFits, IdentOk, Object.FieldsFit, WriteAll, ShdrImage;
      ghost var o, rests, secs := ToObject(), Rests(sections), Secs(sections);
      var sec := sections[i];
      ObjectData(i);
      sec.WideFields();
      sec.Save(Swapped(header.ident), stream, header.shoff + header.shentsize * sec.index, sec.header.offset);
      assert ToObject() == o by {
        assert forall k :: 0 <= k < |sections| ==> SectOf(sections[k]) == o.sects[k];
      }
      assert Rests(sections) == rests && Secs(sections) == secs;
    }

    /** save_segments: every program header. */
    method SaveSegments(stream: OutputFile)
      requires Valid() && HeaderOk()
      modifies segments, stream
      ensures Valid() && ToObject() == old(ToObject()) && ToObject().FieldsFit()
      ensures Segs(segments) == old(Segs(segments)) && SegRests(segments) == old(SegRests(segments))
      ensures stream.bytes == WriteAll(old(stream.bytes), ToObject().SegmentWrites(|segments|))
    {
      hide SectionsOk, SegmentsOk, EhdrFits, IdentOk, Object.FieldsFit, Object.PhdrChunk, Object.SegmentWrites, Segs, SegRests;
      ghost var o := ToObject();
      ObjectFits();
      ghost var f := stream.bytes;
      ghost var segs, rests := Segs(segments), SegRests(segments);
      NoSegmentWrites(o);
      var i := 0;
      while i < |segments|
        invariant Valid() && HeaderOk() && 0 <= i <= |segments| && ToObject() == o
        invariant Segs(segments) == segs && SegRests(segments) == rests
        invariant stream.bytes == WriteAll(f, o.SegmentWrites(i))
      {
        NextSegmentWrites(o, i);
        WriteAllStep(f, o.SegmentWrites(i), o.PhdrChunk(i));
        SaveSegment(i, stream);
        i := i + 1;
      }
    }

    method SaveSegment(i: nat, stream: OutputFile)
      requires Valid() && HeaderOk() && i < |segments| && ToObject().FieldsFit()
      modifies segments[i], stream
      ensures Valid() && ToObject() == old(ToObject())
      ensures Segs(segments) == old(Segs(segments)) && SegRests(segments) == old(SegRests(segments))
      ensures stream.bytes == WriteAt(old(stream.bytes), ToObject().PhdrChunk(i).pos, ToObject().PhdrChunk(i).bytes)
    {
      hide Segment.Valid, SectionsOk, EhdrFits, IdentOk, Object.FieldsFit, WriteAt, PhdrImage;
      ghost var o, segs, rests := ToObject(), Segs(segments), SegRests(segments);
      var seg := segments[i];
      seg.WideFields();
      seg.Save(Swapped(header.ident), stream, header.phoff + header.phentsize * seg.index, seg.ph.offset);
      assert ToObject() == o by {
        assert forall k :: 0 <= k < |segments| ==> segments[k].ph == o.phdrs[k];
      }
      assert Segs(segments) == segs && SegRests(segments) == rests;
    }

    /** Section 0 is the null section and tables have room for their records: true of every
        object this library creates, and of any file with standard record sizes. */
    ghost predicate Loadable()
      reads this, sections
    {
      && |sections| > 0 && sections[0].header.stype == SHT_NULL
      && header.ehsize >= EhdrSize(cls) && header.phentsize >= PhdrSize(cls) && header.shentsize >= ShdrSize(cls)
    }

    lemma LoadableInput()
      requires Valid() && Loadable()
      ensures LayoutSafety.InputOk(Segs(segments), OrderOf(segments), Secs(sections)) && LayoutSafety.Distinct(OrderOf(segments))
      ensures LayoutSteps.SupersetsFirst(Segs(segments), OrderOf(segments))
    {
      hide SegmentOrder.IsSubsequenceOf;
      SegmentOrder.OrderIsPermutation(ItemsOf(segments));
      ListsOk(cls, segments, |sections|);
    }

    lemma NamesViews()
      requires Valid()
      ensures NamesOk() <==> NamesHold(Secs(sections), Rests(sections), header.shstrndx)
    {
      hide GetString, CStr, Terminated, ShdrFits, Segment.Valid;
      if header.shstrndx < |sections| {
        var t := sections[header.shstrndx];
        assert Secs(sections)[header.shstrndx] == SecOf(t);
        forall i | 0 <= i < |sections|
          ensures Rests(sections)[i].nameOffset == sections[i].header.name && Rests(sections)[i].name == sections[i].name
          ensures Entries(sections)[i] == (sections[i].header.name, sections[i].name)
        {}
      }
    }

    /** Layout keeps type, flags, size and alignment of every section. */
    lemma ResultKeepsData()
      requires Valid() && Loadable() && LayoutResult().ok
      ensures |LayoutResult().cur.secs| == |sections|
      ensures AllSameData(Secs(sections), LayoutResult().cur.secs)
    {
      hide LayoutAll, Secs, Segs, RaiseAll, OrderOf;
      LoadableInput();
      RaisedInput(Segs(segments), OrderOf(segments), Secs(sections));
      LayoutSafety.LayoutIsDisjoint(HeadOf(cls, header, |segments|), RaiseAll(Segs(segments), Secs(sections), |segments|), OrderOf(segments),
                                    Secs(sections), header.ehsize + header.phentsize * |segments|);
    }

    /** With type, size, buffer, name and name offset kept, the names stay readable. */
    lemma NamesKept(secs: seq<Sec>, rests: seq<SectionRest>)
      requires Valid() && |rests| == |secs| == |sections| && AllSameData(secs, Secs(sections)) && Rests(sections) == rests
      requires NamesHold(secs, rests, header.shstrndx)
      ensures NamesOk()
    {
      hide GetString, CStr, Terminated, SectionsOk, SegmentsOk;
      NamesViews();
    }

    /** This is what save leaves of an object that had these segments, order, sections and header. */
    ghost predicate SavedFrom(segs: seq<Seg>, order: seq<nat>, secs: seq<Sec>, before: Ehdr)
      reads this, sections, segments
    {
      && WellIndexed(segs, order, StartCursor(secs, 0))
      && var r := ResultOf(cls, segs, order, secs, before);
         && r.ok && |segs| == |segments| && |secs| == |sections|
         && Segs(segments) == r.segs && Secs(sections) == r.cur.secs
         && header == before.(phnum := |segs|, phoff := if |segs| > 0 then before.ehsize else 0, shnum := |secs|, shoff := r.shoff)
    }

    /** After layout the object is what LayoutPlaces speaks about. */
    lemma ObjectPlaced(segs: seq<Seg>, order: seq<nat>, secs: seq<Sec>, before: Ehdr)
      requires Valid() && HeaderOk()
      requires SavedFrom(segs, order, secs, before) && LayoutSafety.InputOk(segs, order, secs)
      requires before.ehsize >= EhdrSize(cls) && before.phentsize >= PhdrSize(cls) && before.shentsize >= ShdrSize(cls)
      ensures ToObject().Placed()
      ensures FromLayout(ToObject(), ResultOf(cls, segs, order, secs, before).cur.secs, ResultOf(cls, segs, order, secs, before).shoff)
      ensures ToObject().HeadersEnd() == before.ehsize + before.phentsize * |segs|
    {
      hide LayoutAll, RaiseAll, EhdrFits, IdentOk;
      forall i | 0 <= i < |sections|
        ensures SectOf(sections[i]).data.Some? ==> |SectOf(sections[i]).data.value| == sections[i].header.size
        ensures Secs(sections)[i] == SecOf(sections[i])
      {}
      RaisedInput(segs, order, secs);
      LayoutPlaces(ToObject(), HeadOf(cls, before, |segs|), RaiseAll(segs, secs, |segs|), order, secs);
    }

    /** save_header, save_sections and save_segments. */
    method WriteObject(stream: OutputFile)
      requires Valid() && HeaderOk() && stream.bytes == []
      modifies sections, segments, stream
      ensures Valid() && ToObject() == old(ToObject()) && ToObject().FieldsFit()
      ensures Secs(sections) == old(Secs(sections)) && Segs(segments) == old(Segs(segments))
      ensures Rests(sections) == old(Rests(sections)) && SegRests(segments) == old(SegRests(segments))
      ensures stream.bytes == ToObject().Image()
    {
      hide SectionsOk, SegmentsOk, Secs, Segs, Rests, SegRests, EhdrFits, IdentOk, Object.FieldsFit, Object.Image, WriteAll,
           Object.SectionWrites, Object.SegmentWrites, Object.EhdrChunk, WriteAt;
      ObjectFits();
      ghost var o := ToObject();
      stream.Seekp(0);
      HeaderWrites(o);
      stream.Write(EhdrImage(cls, Swapped(header.ident), header));
      SaveSections(stream);
      SaveSegments(stream);
      AllWrites(o);
    }

    /** Lays the object out and, unless layout is refused, writes it. */
    method LayOutAndWrite(stream: OutputFile) returns (ok: bool)
      requires Valid() && HeaderOk() && LayoutResult().shoff < cls.Limit()
      requires stream.bytes == []
      modifies this`header, this`currentFilePos, sections, segments, stream
      ensures Valid() && HeaderOk()
      ensures Rests(sections) == old(Rests(sections)) && SegRests(segments) == old(SegRests(segments))
      ensures var r := old(LayoutResult());
              && ok == r.ok && Segs(segments) == r.segs && Secs(sections) == r.cur.secs
              && (ok ==> header == old(SavedHeader(LayoutResult().shoff)))
      ensures ok ==> ToObject().FieldsFit() && stream.bytes == ToObject().Image()
      ensures !ok ==> stream.bytes == []
    {
      hide SectionsOk, SegmentsOk, Secs, Segs, Rests, SegRests, Class.Limit, Object.FieldsFit, Object.Image, ToObject, LayoutResult, SavedHeader,
           HeaderOk;
      ok := LayOut();
      if ok {
        WriteObject(stream);
      }
    }

    /** The same, with what it gives for the file. */
    method SaveInPlaces(stream: OutputFile) returns (ok: bool)
      requires Valid() && HeaderOk() && LayoutResult().shoff < cls.Limit()
      requires stream.bytes == []
      modifies this`header, this`currentFilePos, sections, segments, stream
      ensures Valid() && HeaderOk()
      ensures Rests(sections) == old(Rests(sections)) && SegRests(segments) == old(SegRests(segments))
      ensures var r := old(LayoutResult());
              && ok == r.ok && Segs(segments) == r.segs && Secs(sections) == r.cur.secs
              && (ok ==> header == old(SavedHeader(LayoutResult().shoff)))
      ensures ok ==> ToObject().FieldsFit() && stream.bytes == ToObject().Image()
      ensures ok ==> SavedFrom(old(Segs(segments)), old(OrderOf(segments)), old(Secs(sections)), old(header))
      ensures ok && old(Loadable()) ==> ToObject().Placed()
      ensures !ok ==> stream.bytes == []
    {
      hide SectionsOk, SegmentsOk, Secs, Segs, Rests, SegRests, Class.Limit, Object.FieldsFit, Object.Image, ToObject, HeaderOk, Object.Placed,
           OrderOf, WellIndexed, ResultOf;
      ghost var segs, order, secs, head := Segs(segments), OrderOf(segments), Secs(sections), header;
      WellIndexedNow(cls, segments, order, StartCursor(secs, 0));
      ghost var loadable := Loadable();
      if loadable {
        LoadableInput();
      }
      ok := LayOutAndWrite(stream);
      if ok && loadable {
        ObjectPlaced(segs, order, secs, head);
      }
    }

    /** save. It succeeds exactly when layout does, leaves every section and segment with the
        layout's values and everything else in them as it was, and writes the object's image: every field
        of every header at its place, in the byte order the file names. */
    method Save(stream: OutputFile) returns (ok: bool)
      requires Valid() && HeaderOk() && LayoutResult().shoff < cls.Limit()
      requires stream.bytes == []
      modifies this`header, this`currentFilePos, sections, segments, stream
      ensures Valid() && HeaderOk()
      ensures Rests(sections) == old(Rests(sections)) && SegRests(segments) == old(SegRests(segments))
      ensures var r := old(LayoutResult());
              && ok == r.ok && Segs(segments) == r.segs && Secs(sections) == r.cur.secs
              && (ok ==> header == old(SavedHeader(LayoutResult().shoff)))
      ensures ok ==> ToObject().FieldsFit() && stream.bytes == ToObject().Image()
      ensures ok ==> SavedFrom(old(Segs(segments)), old(OrderOf(segments)), old(Secs(sections)), old(header))
      ensures ok && old(Loadable()) ==> ToObject().Placed() && FileFormat.FileHolds(stream.bytes, ToObject())
      ensures ok && old(Loadable() && NamesOk()) ==> NamesOk()
      ensures !ok ==> stream.bytes == []
    {
      hide SectionsOk, SegmentsOk, Secs, Segs, Rests, SegRests, EhdrFits, IdentOk, Class.Limit, Object.FieldsFit, ToObject, Object.Placed,
           NamesOk, GetString, CStr, Terminated, LayoutResult, DataArrays, AllSameData, SectOf, SavedFrom, OrderOf, SavedHeader,
           FileFormat.FileHolds, Object.Image;
      ghost var secs, rests, k := Secs(sections), Rests(sections), header.shstrndx;
      ghost var named := Loadable() && NamesOk();
      if named {
        NamesViews();
        if LayoutResult().ok {
          ResultKeepsData();
        }
      }
      ghost var table: array?<byte> := null;
      if named {
        RestAt(sections, k);
        table := sections[k].data;
      }
      ghost var bytes := if table != null then table[..] else [];
      SavedIndex(LayoutResult().shoff);
      ghost var loadable := Loadable();
      ok := SaveInPlaces(stream);
      if ok && loadable {
        FileFormat.AllFieldsStand(ToObject());
      }
      if ok && named {
        assert table[..] == bytes;
        NamesKept(secs, rests);
      }
    }

    lemma SavedIndex(shoff: nat)
      ensures SavedHeader(shoff).shstrndx == header.shstrndx
    {}

    // -------------------------------------------------------------- creating sections

    /** Every section's name offset leads to its name in the section name string table. */
    ghost predicate NamesOk()
      requires Valid()
      reads this, sections, segments, DataArrays()
    {
      && SHN_UNDEF != header.shstrndx < |sections|
      && var t := sections[header.shstrndx];
         && FileBacked(t.header) && t.data != null && Terminated(t.Contents())
         && NamesIn(t.Contents(), Entries(sections))
    }

    method CreateSection() returns (s: Section)
      requires Valid()
      modifies this`sections
      ensures Valid() && fresh(s) && sections == old(sections) + [s]
      ensures s.header == ZERO_SHDR && s.name == [] && s.data == null && s.dataSize == 0 && !s.addressSet
    {
      hide ShdrFits;
      s := new Section(cls);
      s.index := |sections|;
      sections := sections + [s];
    }

    /** Appends the name of s to the section name string table and records its offset. */
    method EnterName(s: Section)
      requires Valid() && s in sections && header.shstrndx < |sections| && s != sections[header.shstrndx]
      requires sections[header.shstrndx].Full() && sections[header.shstrndx].header.stype != SHT_NOBITS
      requires Room(sections[header.shstrndx].dataSize, |s.name|)
      modifies sections[header.shstrndx].Repr(), s`header
      ensures Valid()
      ensures var t := sections[header.shstrndx];
              var (tab, pos) := AddString(old(t.Contents()), s.name);
              && t.Contents() == tab && t.data != null
              && t.header == old(t.header).(size := |tab|) && t.name == old(t.name)
              && s.header == old(s.header).(name := pos)
      ensures forall i :: 0 <= i < |sections| && sections[i] != s && sections[i] != sections[header.shstrndx] ==>
                sections[i].header == old(sections[i].header) && sections[i].name == old(sections[i].name)
    {
      hide ShdrFits, Segment.Valid, SegmentsOk, CStr, AddString;
      var t := sections[header.shstrndx];
      ghost var before := t.Contents();
      var pos := StringTable.Add(t, s.name);
      AddTerminatesSize(before, s.name);
      s.SetNameOffset(pos);
    }

    /** Sections::add: a new section, its name entered in the section name string table. */
    method AddSection(name: seq<byte>) returns (s: Section)
      requires Valid() && NamesOk() && Room(sections[header.shstrndx].dataSize, |name|)
      modifies this`sections, sections[header.shstrndx].Repr()
      ensures Valid() && NamesOk() && fresh(s) && sections == old(sections) + [s] && s.name == name
      ensures var (tab, pos) := AddString(old(sections[header.shstrndx].Contents()), name);
              && sections[header.shstrndx].Contents() == tab && s.header == ZERO_SHDR.(name := pos) && s.data == null && !s.addressSet
              && sections[header.shstrndx].header == old(sections[header.shstrndx].header).(size := |tab|)
      ensures forall i :: 0 <= i < |old(sections)| && i != header.shstrndx ==>
                sections[i].header == old(sections[i].header) && sections[i].name == old(sections[i].name)
    {
      hide ShdrFits, Segment.Valid, SegmentsOk, CStr, GetString, AddString, Terminated, NamesIn;
      ghost var before, entries := sections[header.shstrndx].Contents(), Entries(sections);
      s := CreateSection();
      s.name := name;
      EnterName(s);
      NamesGrow(before, entries, name);
      assert Entries(sections) == entries + [(s.header.name, name)];
    }

    /** Segments::add: a new segment without sections. */
    method AddSegment() returns (g: Segment)
      requires Valid()
      modifies this`segments
      ensures Valid() && fresh(g) && segments == old(segments) + [g]
      ensures g.ph == Phdr(0, 0, 0, 0, 0, 0, 0, 0) && g.sections == [] && !g.offsetSet
    {
      hide PhdrFits, Section.Valid;
      g := new Segment(cls);
      g.index := |segments|;
      segments := segments + [g];
    }

    /** segment::add_section_index for one of the object's sections. */
    method AddToSegment(g: Segment, s: Section)
      requires Valid() && g in segments && s in sections
      modifies g`sections, g`ph
      ensures Valid() && g.sections == old(g.sections) + [s.index]
      ensures g.ph == old(g.ph).(align := if s.header.addralign > old(g.ph.align) then s.header.addralign else old(g.ph.align))
    {
      hide Segment.Valid, Section.Valid, Class.Limit;
      s.WideFields();
      var n := g.AddSectionIndex(s.index, s.header.addralign);
    }

    /** create: an empty object of the given class and byte order with its null section and its
        section name string table. */
    constructor Create(c: Class, encoding: byte)
      ensures Valid() && HeaderOk() && Loadable() && NamesOk()
      ensures cls == c && segments == [] && |sections| == 2 && header == NewHeader(c, encoding)
      ensures fresh(sections[0]) && fresh(sections[1].Repr())
      ensures sections[0].header == ZERO_SHDR && sections[0].name == [] && NamesItself(sections[1])
    {
      cls := c;
      header := NewHeader(c, encoding);
      sections := [];
      segments := [];
      currentFilePos := 0;
      new;
      hide EhdrFits, IdentOk, SectionsOk, SegmentsOk, ShdrFits, NamesOk, NewHeader;
      NewHeaderFits(c, encoding);
      NewHeaderIs(c, encoding);
      NoSections();
      CreateMandatorySections();
    }

    lemma NoSections()
      requires sections == [] && segments == []
      ensures Valid()
    {}

    /** The null section, and the name table that holds its own name. */
    method CreateMandatorySections()
      requires Valid() && sections == [] && segments == [] && header.shstrndx == 1
      modifies this`sections
      ensures Valid() && NamesOk() && |sections| == 2 && sections[0].header.stype == SHT_NULL
      ensures fresh(sections[0]) && fresh(sections[1].Repr())
      ensures sections[0].header == ZERO_SHDR && sections[0].name == [] && NamesItself(sections[1])
    {
      hide ShdrFits, CStr, GetString, AddString, Terminated, NamesIn, Section.Valid, NamesItself;
      var sec0 := CreateSection();
      var shstrtab := CreateSection();
      assert sections[1] == shstrtab;
      FillNameTable(shstrtab);
      assert Entries(sections) == [(0, []), (1, SHSTRTAB)];
    }

    method FillNameTable(t: Section)
      requires t.Valid() && t.header == ZERO_SHDR && t.data == null && t.dataSize == 0
      modifies t
      ensures t.Valid() && t.index == old(t.index) && t.name == SHSTRTAB && t.header.name == 1
      ensures t.header.stype == SHT_STRTAB && t.data != null && fresh(t.data)
      ensures Terminated(t.Contents()) && NamesIn(t.Contents(), [(0, []), (1, SHSTRTAB)]) && NamesItself(t)
    {
      hide ShdrFits, CStr, GetString, AddString, Terminated, NamesIn;
      t.name := SHSTRTAB;
      var pos := StringTable.Add(t, SHSTRTAB);
      FirstName();
      AddTerminatesSize([], SHSTRTAB);
      t.SetNameOffset(pos);
      t.SetType(SHT_STRTAB);
      t.SetAddrAlign(1);
    }

    // -------------------------------------------------------------- loading

    /** Section i is what loading record i of the table yields. */
    ghost predicate LoadedAs(s: Section, i: nat, l: Loaded)
      reads this`cls, s, s.data
    {
      && s.cls == cls && s.index == i && s.addressSet && s.Valid() && s.header == l.header
      && match l.data
         case None => s.data == null
         case Some(bytes) => s.data != null && s.data.Length == s.header.size + 1 && |bytes| <= s.header.size && s.data[..|bytes|] == bytes
    }

    /** One new section from one record of the table. */
    method ReadSection(stream: InputFile, swap: bool, i: nat) returns (sec: Section)
      modifies stream
      ensures fresh(sec) && (sec.data != null ==> fresh(sec.data))
      ensures sec.name == []
      ensures var (l, s) := LoadSection(cls, swap, old(stream.state), header.shoff + i * header.shentsize);
              LoadedAs(sec, i, l) && stream.state == s
    {
      hide LoadSection, ShdrFits;
      sec := new Section(cls);
      sec.Load(swap, stream, header.shoff + i * header.shentsize);
      sec.index := i;
      // marks that layout must not assign an address
      sec.addressSet := true;
    }

    lemma NextSection(swap: bool, i: nat, s: In)
      requires i < header.shnum
      ensures var (l, s1) := LoadSection(cls, swap, s, header.shoff + i * header.shentsize);
              var (rest, end) := LoadSections(cls, swap, header, i + 1, s1);
              LoadSections(cls, swap, header, i, s) == ([l] + rest, end)
    {
      hide LoadSection;
    }

    /** load_sections, first loop: one new section per record of the table. */
    method ReadSections(stream: InputFile, swap: bool)
      requires sections == []
      modifies this`sections, stream
      ensures |sections| == header.shnum
      ensures forall i :: 0 <= i < |sections| ==> fresh(sections[i])
      ensures forall i, j :: 0 <= i < j < |sections| ==> sections[i] != sections[j]
      ensures stream.state == LoadSections(cls, swap, header, 0, old(stream.state)).1
      ensures forall i :: 0 <= i < |sections| ==>
                sections[i].name == [] && LoadedAs(sections[i], i, LoadSections(cls, swap, header, 0, old(stream.state)).0[i])
    {
      hide LoadSection, LoadSections, Section.Valid;
      ghost var ls, end := LoadSections(cls, swap, header, 0, stream.state).0, LoadSections(cls, swap, header, 0, stream.state).1;
      assert ls[0..] == ls;
      var i := 0;
      while i < header.shnum
        invariant 0 <= i <= header.shnum && |sections| == i
        invariant LoadSections(cls, swap, header, i, stream.state) == (ls[i..], end)
        invariant forall k :: 0 <= k < i ==> fresh(sections[k]) && (sections[k].data != null ==> fresh(sections[k].data))
        invariant forall k, l :: 0 <= k < l < i ==> sections[k] != sections[l]
        invariant forall k :: 0 <= k < i ==> sections[k].name == [] && LoadedAs(sections[k], k, ls[k])
      {
        NextSection(swap, i, stream.state);
        ghost var l := LoadSection(cls, swap, stream.state, header.shoff + i * header.shentsize).0;
        var sec := ReadSection(stream, swap, i);
        assert ls[i..][0] == ls[i] && ls[i..][1..] == ls[i + 1..];
        assert ([l] + ls[i + 1..])[1..] == ls[i + 1..];
        sections := sections + [sec];
        i := i + 1;
      }
      assert LoadSections(cls, swap, header, i, stream.state) == ([], stream.state) by { NoMoreSections(swap, stream.state); }
    }

    lemma NoMoreSections(swap: bool, s: In)
      ensures LoadSections(cls, swap, header, header.shnum, s) == ([], s)
    {}

    /** The section name table was read in full. */
    ghost predicate NameTableRead(ls: seq<Loaded>)
      reads this`header
    {
      header.shstrndx < |ls| && ls[header.shstrndx].data.Some?
      ==> |ls[header.shstrndx].data.value| == ls[header.shstrndx].header.size
    }

    lemma NoNames(ls: seq<Loaded>)
      requires header.shstrndx == SHN_UNDEF || header.shstrndx >= |ls|
      ensures forall i :: 0 <= i < |ls| ==> LoadedName(header, ls, i) == None
    {}

    lemma NameAt(ls: seq<Loaded>, i: nat)
      requires i < |ls| && SHN_UNDEF != header.shstrndx < |ls|
      ensures var t := ls[header.shstrndx];
              LoadedName(header, ls, i)
              == if ls[i].header.name < t.header.size && t.data.Some? then GetString(t.data.value, ls[i].header.name) else None
    {
      hide GetString;
    }

    /** load_sections, second loop: names from the section e_shstrndx points to. */
    method ReadNames(ghost ls: seq<Loaded>)
      requires |ls| == |sections|
      requires forall i :: 0 <= i < |sections| ==> sections[i].name == [] && LoadedAs(sections[i], i, ls[i])
      requires forall i, j :: 0 <= i < j < |sections| ==> sections[i] != sections[j]
      modifies sections
      ensures forall i :: 0 <= i < |sections| ==> LoadedAs(sections[i], i, ls[i])
      ensures NameTableRead(ls) ==> forall i :: 0 <= i < |sections| ==> sections[i].name == LoadedName(header, ls, i).GetOr([])
    {
      hide GetString, CStr, ShdrFits, LoadedName;
      if header.shstrndx == SHN_UNDEF || header.shstrndx >= |sections| {
        NoNames(ls);
        return;
      }
      var t := sections[header.shstrndx];
      var i := 0;
      while i < |sections|
        invariant 0 <= i <= |sections|
        invariant forall k :: 0 <= k < |sections| ==> LoadedAs(sections[k], k, ls[k])
        invariant NameTableRead(ls) ==> forall k :: 0 <= k < i ==> sections[k].name == LoadedName(header, ls, k).GetOr([])
        invariant forall k :: i <= k < |sections| ==> sections[k].name == []
      {
        var offset := sections[i].header.name;
        assert LoadedAs(sections[i], i, ls[i]) && LoadedAs(t, header.shstrndx, ls[header.shstrndx]);
        NameAt(ls, i);
        if offset < t.header.size && t.data != null {
          var p := GetString(t.data[..t.header.size], offset);
          if p.Some? {
            sections[i].name := p.value;
          }
        }
        i := i + 1;
      }
    }

    // -------------------------------------------------------------- loading segments

    /** Segment i is what loading record i yields, with the sections that lie in it. */
    ghost predicate SegmentLoadedAs(g: Segment, i: nat, l: LoadedSegment, hs: seq<Shdr>)
      reads this`cls, g
    {
      && g.cls == cls && g.index == i && g.offsetSet && g.Valid()
      && LoadedSegment(g.ph, g.data) == l && g.sections == Members(hs, l.header)
    }

    /** The inner loop of load_segments: adds the sections that belong to the segment; its
        alignment stays what the file says. */
    method AddMembers(seg: Segment)
      requires seg.Valid() && seg.sections == []
      requires forall i :: 0 <= i < |sections| ==> sections[i].index == i
      modifies seg`sections, seg`ph
      ensures seg.Valid() && seg.ph == old(seg.ph) && seg.sections == Members(Headers(sections), seg.ph)
    {
      hide Segment.Valid;
      LimitLarge(seg.cls);
      var segBaseOffset := seg.ph.offset;
      var segEndOffset := W64(segBaseOffset + seg.ph.filesz);
      var segVBaseAddr := seg.ph.vaddr;
      var segVEndAddr := W64(segVBaseAddr + seg.ph.memsz);
      ghost var p, hs := seg.ph, Headers(sections);
      var j := 0;
      while j < |sections|
        invariant 0 <= j <= |sections| && seg.Valid() && seg.ph == p && seg.sections == Members(hs[..j], p)
      {
        var psec := sections[j];
        assert hs[..j + 1][..j] == hs[..j] && hs[j] == psec.header;
        var inside :=
          if Alloc(psec.header.flags) then IsSectInSeg(psec.header.addr, psec.header.size, segVBaseAddr, segVEndAddr)
          else IsSectInSeg(psec.header.offset, psec.header.size, segBaseOffset, segEndOffset);
        if inside {
          var n := seg.AddSectionIndex(psec.index, 0);
        }
        j := j + 1;
      }
      assert hs[..j] == hs;
    }

    method ReadSegment(stream: InputFile, swap: bool, i: nat) returns (seg: Segment)
      requires forall k :: 0 <= k < |sections| ==> sections[k].index == k
      modifies stream
      ensures fresh(seg)
      ensures var (l, s) := LoadSegment(cls, swap, old(stream.state), header.phoff + i * header.phentsize);
              SegmentLoadedAs(seg, i, l, Headers(sections)) && stream.state == s
    {
      hide LoadSegment, PhdrFits;
      seg := new Segment(cls);
      seg.Load(swap, stream, header.phoff + i * header.phentsize);
      seg.index := i;
      AddMembers(seg);
    }

    lemma NextSegment(swap: bool, i: nat, s: In)
      requires i < header.phnum
      ensures var (l, s1) := LoadSegment(cls, swap, s, header.phoff + i * header.phentsize);
              var (rest, end) := LoadSegments(cls, swap, header, i + 1, s1);
              LoadSegments(cls, swap, header, i, s) == ([l] + rest, end)
    {
      hide LoadSegment;
    }

    /** load_segments: one new segment per program header, with its sections. */
    method ReadSegments(stream: InputFile, swap: bool)
      requires segments == []
      requires forall k :: 0 <= k < |sections| ==> sections[k].index == k
      modifies this`segments, stream
      ensures |segments| == header.phnum
      ensures forall i :: 0 <= i < |segments| ==> fresh(segments[i])
      ensures forall i, j :: 0 <= i < j < |segments| ==> segments[i] != segments[j]
      ensures forall i :: 0 <= i < |segments| ==>
                SegmentLoadedAs(segments[i], i, LoadSegments(cls, swap, header, 0, old(stream.state)).0[i], Headers(sections))
    {
      hide LoadSegment, LoadSegments, Members, Segment.Valid;
      ghost var ls, end := LoadSegments(cls, swap, header, 0, stream.state).0, LoadSegments(cls, swap, header, 0, stream.state).1;
      ghost var hs := Headers(sections);
      assert ls[0..] == ls;
      var i := 0;
      while i < header.phnum
        invariant 0 <= i <= header.phnum && |segments| == i && Headers(sections) == hs
        invariant LoadSegments(cls, swap, header, i, stream.state) == (ls[i..], end)
        invariant forall k :: 0 <= k < i ==> fresh(segments[k])
        invariant forall k, l :: 0 <= k < l < i ==> segments[k] != segments[l]
        invariant forall k :: 0 <= k < i ==> SegmentLoadedAs(segments[k], k, ls[k], hs)
      {
        NextSegment(swap, i, stream.state);
        ghost var l := LoadSegment(cls, swap, stream.state, header.phoff + i * header.phentsize).0;
        var seg := ReadSegment(stream, swap, i);
        assert ls[i..][0] == ls[i] && ls[i..][1..] == ls[i + 1..];
        assert ([l] + ls[i + 1..])[1..] == ls[i + 1..];
        segments := segments + [seg];
        i := i + 1;
      }
    }

    // -------------------------------------------------------------- load

    /** The part of load before the tables: the file header decides class and byte order. */
    method ReadHeader(stream: InputFile) returns (ok: bool, swap: bool)
      modifies this, stream
      ensures ok <==> LoadHeader(old(stream.state)).Some?
      ensures ok ==> (cls, swap, header, stream.state) == LoadHeader(old(stream.state)).value
      ensures sections == [] && segments == []
    {
      hide ReadEhdr;
      sections, segments, ok, swap := [], [], false, false;
      var ident := stream.Read(EI_NIDENT);
      if |ident| != EI_NIDENT || ident[..4] != [0x7f, 0x45, 0x4c, 0x46] {
        return;
      }
      if ident[EI_CLASS] != ELFCLASS64 && ident[EI_CLASS] != ELFCLASS32 {
        return;
      }
      swap := Swapped(ident);
      cls := if ident[EI_CLASS] == ELFCLASS64 then Elf64 else Elf32;
      stream.Seekg(0);
      var bytes := stream.Read(EhdrSize(cls));
      if |bytes| != EhdrSize(cls) {
        return;
      }
      header := ReadEhdr(cls, swap, bytes);
      ok := true;
    }

    /** The object is what load makes of a stream. */
    ghost predicate LoadedFrom(stream: In)
      reads this, sections, segments, DataArrays()
    {
      LoadHeader(stream).Some? &&
      var (c, swap, e, s) := LoadHeader(stream).value;
      var (ls, s1) := LoadSections(c, swap, e, 0, s);
      var gs := LoadSegments(c, swap, e, 0, s1).0;
      && cls == c && header == e && |sections| == e.shnum && |segments| == e.phnum
      && (forall i :: 0 <= i < |sections| ==> LoadedAs(sections[i], i, ls[i]))
      && (NameTableRead(ls) ==> forall i :: 0 <= i < |sections| ==> sections[i].name == LoadedName(e, ls, i).GetOr([]))
      && (forall i :: 0 <= i < |segments| ==> SegmentLoadedAs(segments[i], i, gs[i], Headers(sections)))
    }

    /** load: file header, sections, section names, segments. */
    method Load(stream: InputFile) returns (ok: bool)
      modifies this, stream
      ensures ok <==> LoadHeader(old(stream.state)).Some?
      ensures ok ==> LoadedFrom(old(stream.state))
      ensures ok ==> forall i :: 0 <= i < |sections| ==> fresh(sections[i])
      ensures ok ==> forall i :: 0 <= i < |segments| ==> fresh(segments[i])
      ensures ok ==> Valid()
      ensures ok && old(stream.state.pos) == 0 ==> HeaderOk()
      ensures old(stream.state.pos) == 0 && !old(stream.state.fail) ==> (ok <==> !LoadFormat.Refused(old(stream.state.bytes)))
    {
      hide LoadSections, LoadSegments, LoadHeader, LoadedName, Members, Segment.Valid, Section.Valid, EhdrFits, IdentOk, LoadedFrom, NameTableRead,
           LoadFormat.Refused, FileFormat.EhdrAt;
      ghost var s := stream.state;
      if s == In(s.bytes, 0, false) {
        LoadFormat.HeaderLoads(s.bytes);
      }
      var swap;
      ok, swap := ReadHeader(stream);
      if !ok {
        return;
      }
      ghost var s0 := stream.state;
      ghost var ls := LoadSections(cls, swap, header, 0, s0).0;
      ReadSections(stream, swap);
      ReadNames(ls);
      ghost var gs := LoadSegments(cls, swap, header, 0, stream.state).0;
      ReadSegments(stream, swap);
      LoadedValid(ls, gs);
      LoadedIs(s, swap, s0, ls, gs);
      if s.pos == 0 {
        LoadedHeaderOk(s);
        EhdrSmall(cls, header);
      }
    }

    /** Whatever file it was loaded from: the headers are what stands in the file at their places. */
    lemma LoadedFields(f: seq<byte>)
      requires LoadedFrom(In(f, 0, false)) && !LoadFormat.Refused(f)
      ensures FileFormat.EhdrAt(f, cls, header, f[5] == 1)
      ensures var (c, swap, e, s) := LoadHeader(In(f, 0, false)).value;
              var (ls, s1) := LoadSections(c, swap, e, 0, s);
              LoadFormat.Complete(f, cls, header, ls, LoadSegments(c, swap, e, 0, s1).0) ==>
                && (forall i :: 0 <= i < |sections| ==>
                      FileFormat.ShdrAt(f, FileFormat.Slot(header.shoff, header.shentsize, i), cls, sections[i].header, f[5] == 1))
                && (forall i :: 0 <= i < |segments| ==>
                      FileFormat.PhdrAt(f, FileFormat.Slot(header.phoff, header.phentsize, i), cls, segments[i].ph, f[5] == 1))
    {
      hide LoadHeader, LoadSections, LoadSegments, FileFormat.EhdrAt, FileFormat.ShdrAt, FileFormat.PhdrAt, Members, LoadFormat.Complete,
           Section.Valid, Segment.Valid, NameTableRead, LoadedName, LoadFormat.Part;
      LoadFormat.FileLoads(f);
    }

    lemma LoadedIs(s: In, swap: bool, s0: In, ls: seq<Loaded>, gs: seq<LoadedSegment>)
      requires LoadHeader(s) == Some((cls, swap, header, s0))
      requires ls == LoadSections(cls, swap, header, 0, s0).0
      requires gs == LoadSegments(cls, swap, header, 0, LoadSections(cls, swap, header, 0, s0).1).0
      requires |sections| == header.shnum && |segments| == header.phnum
      requires forall i :: 0 <= i < |sections| ==> LoadedAs(sections[i], i, ls[i])
      requires NameTableRead(ls) ==> forall i :: 0 <= i < |sections| ==> sections[i].name == LoadedName(header, ls, i).GetOr([])
      requires forall i :: 0 <= i < |segments| ==> SegmentLoadedAs(segments[i], i, gs[i], Headers(sections))
      ensures LoadedFrom(s)
    {
      hide LoadSections, LoadSegments, LoadHeader, LoadedName, Members, LoadedAs, SegmentLoadedAs, NameTableRead;
    }

    lemma LoadedValid(ls: seq<Loaded>, gs: seq<LoadedSegment>)
      requires |ls| == |sections| && |gs| == |segments|
      requires forall i :: 0 <= i < |sections| ==> LoadedAs(sections[i], i, ls[i])
      requires forall i, j :: 0 <= i < j < |sections| ==> sections[i] != sections[j]
      requires forall i :: 0 <= i < |segments| ==> SegmentLoadedAs(segments[i], i, gs[i], Headers(sections))
      requires forall i, j :: 0 <= i < j < |segments| ==> segments[i] != segments[j]
      ensures Valid()
    {
      hide Section.Valid, Segment.Valid, Members;
      forall k, j | 0 <= k < |segments| && 0 <= j < |segments[k].sections| ensures segments[k].sections[j] < |sections| {
        MembersExact(Headers(sections), segments[k].ph);
        assert segments[k].sections[j] in Members(Headers(sections), segments[k].ph);
      }
    }

    /** What a round trip through a file asks about names. */
    lemma NamesRecorded()
      requires Valid() && NamesOk()
      ensures forall i :: 0 <= i < |sections| ==> NameRecorded(ToObject(), i)
    {
      var t := sections[header.shstrndx];
      assert SectOf(t).data == Some(t.Contents());
      forall i | 0 <= i < |sections| ensures NameRecorded(ToObject(), i) {
        assert Entries(sections)[i] == (sections[i].header.name, sections[i].name);
      }
    }

    /** The file Save wrote: load reads back the file header and, for every section, its header,
        its exact data bytes (zeros where a section had no buffer) and its name. */
    lemma SavedFileLoads()
      requires Valid() && HeaderOk() && NamesOk()
      requires ToObject().FieldsFit() && ToObject().Placed() && Seekable(ToObject())
      ensures var o := ToObject();
              var h := LoadHeader(In(o.Image(), 0, false));
              && h.Some? && h.value.2 == header
              && var (c, swap, e, s) := h.value;
                 var loaded := LoadSections(c, swap, e, 0, s).0;
                 && |loaded| == |sections|
                 && forall i :: 0 <= i < |sections| ==>
                      && loaded[i].header == sections[i].header
                      && loaded[i].data == o.Stored(i)
                      && LoadedName(e, loaded, i) == Some(CStr(sections[i].name))
    {
      hide Object.FieldsFit, Object.Placed, Object.Image, Object.Stored, LoadHeader, LoadSections, LoadedName, NameRecorded, EhdrFits, IdentOk;
      NamesRecorded();
      SaveLoadRoundTrip(ToObject());
    }

    /** A saved object's segments: every program header can be read back with the bytes it covers,
        and load finds the sections that ByOffset and ByAddress describe in every segment again. */
    lemma SavedSegments(segs: seq<Seg>, order: seq<nat>, secs: seq<Sec>, before: Ehdr)
      requires Valid() && HeaderOk() && SavedFrom(segs, order, secs, before) && header.shoff < cls.Limit() && |sections| > 0
      requires LayoutSafety.InputOk(segs, order, secs) && LayoutSafety.Distinct(order) && LayoutSteps.Nesting(segs, order)
      requires before.ehsize >= EhdrSize(cls) && before.phentsize >= PhdrSize(cls) && before.shentsize >= ShdrSize(cls)
      requires ToObject().FieldsFit() && Seekable(ToObject())
      ensures ToObject().Placed() && forall i :: 0 <= i < |segments| ==> Readable(ToObject(), i)
      ensures var all, h, o := RaiseAll(segs, secs, |segs|), HeadOf(cls, before, |segs|), ToObject();
              && LayoutSteps.Laid(h, all, order, secs, o.HeadersEnd())
              && |LayoutAll(h, all, order, secs, o.HeadersEnd()).cur.secs| == |secs|
              && (forall q: nat, x: nat :: q < |order| && SegmentReload.ByOffset(h, all, order, secs, o.HeadersEnd(), q, x) ==>
                    order[q] < |segments| && x in SegmentReload.Found(o, order[q]))
              && (forall q: nat, x: nat :: q < |order| && SegmentReload.ByAddress(h, all, order, secs, o.HeadersEnd(), q, x) ==>
                    order[q] < |segments| && x in SegmentReload.Found(o, order[q]))
    {
      hide LayoutAll, RaiseAll, EhdrFits, IdentOk, Object.FieldsFit, Object.Placed, Object.Image, SegmentReload.ByOffset, SegmentReload.ByAddress,
           SegmentReload.Found, Readable, SavedFrom, ToObject, LoadHeader, LoadSections, LoadSegments, AllSegmentsLoaded, SegmentReload.SegmentsFrom;
      var all, h, o := RaiseAll(segs, secs, |segs|), HeadOf(cls, before, |segs|), ToObject();
      RaisedInput(segs, order, secs);
      RaisedNesting(segs, order, secs);
      ObjectPlaced(segs, order, secs, before);
      ObjectViews(segs, order, secs, before);
      SegmentReload.SectionsFoundAgain(o, h, all, order, secs);
    }

    /** A PT_PHDR segment without sections covers exactly the program header table of the saved file. */
    lemma SavedTable(segs: seq<Seg>, order: seq<nat>, secs: seq<Sec>, before: Ehdr, q: nat)
      requires Valid() && HeaderOk() && SavedFrom(segs, order, secs, before) && |sections| > 0
      requires LayoutSafety.InputOk(segs, order, secs) && LayoutSafety.Distinct(order)
      requires before.ehsize >= EhdrSize(cls) && before.phentsize >= PhdrSize(cls) && before.shentsize >= ShdrSize(cls)
      requires q < |order| && order[q] < |segs| && segs[order[q]].ptype == PT_PHDR && segs[order[q]].secs == []
      requires ToObject().FieldsFit()
      ensures order[q] < |segments| && FileFormat.CoversTable(ToObject(), order[q])
    {
      hide LayoutAll, RaiseAll, EhdrFits, IdentOk, Object.FieldsFit, Object.Placed, SavedFrom, ToObject, SegmentReload.SegmentsFrom,
           FileFormat.CoversTable;
      var all, h, o := RaiseAll(segs, secs, |segs|), HeadOf(cls, before, |segs|), ToObject();
      RaisedInput(segs, order, secs);
      ObjectPlaced(segs, order, secs, before);
      ObjectViews(segs, order, secs, before);
      TableFields(segs, order, secs, before);
      FileFormat.TableSegment(o, h, all, order, secs, q);
    }

    lemma TableFields(segs: seq<Seg>, order: seq<nat>, secs: seq<Sec>, before: Ehdr)
      requires HeaderOk() && SavedFrom(segs, order, secs, before) && |segs| > 0
      ensures var h, o := HeadOf(cls, before, |segs|), ToObject();
              h.phoff == o.ehdr.phoff && h.phsize == o.ehdr.phentsize * |segs| < h.m
    {
      hide EhdrFits, IdentOk, ResultOf, Valid, WellIndexed, Class.Limit;
      EhdrSmall(cls, header);
      LimitLarge(cls);
      TableSmall(header.phentsize, |segs|);
      assert header.phentsize == before.phentsize && header.phoff == before.ehsize;
    }

    /** What of the object the layout decides. */
    lemma ObjectViews(segs: seq<Seg>, order: seq<nat>, secs: seq<Sec>, before: Ehdr)
      requires Valid() && SavedFrom(segs, order, secs, before)
      ensures WellIndexed(segs, order, StartCursor(secs, 0)) && ResultOf(cls, segs, order, secs, before).ok
      ensures SegmentReload.SegmentsFrom(ToObject(), ResultOf(cls, segs, order, secs, before))
      ensures |ToObject().sects| == |sections| == |secs| && |ToObject().phdrs| == |segments| == |segs| && ToObject().c == cls
      ensures header.shoff == ResultOf(cls, segs, order, secs, before).shoff
      ensures |ResultOf(cls, segs, order, secs, before).cur.secs| == |secs|
    {
      hide ResultOf, Section.Valid, Segment.Valid;
      forall i | 0 <= i < |segments| ensures Segs(segments)[i] == SegOf(segments[i]) && ToObject().phdrs[i] == segments[i].ph {}
      forall x | 0 <= x < |sections| ensures Secs(sections)[x] == SecOf(sections[x]) && ToObject().sects[x].header == sections[x].header {}
    }

    /** Loading the file a saved object was written to gives the object back: its header, every
        section's header, data and name, every program header, and as each segment's sections those
        that load finds in it. */
    lemma SavedThenLoaded(loaded: Elf)
      requires Valid() && HeaderOk() && NamesOk()
      requires ToObject().FieldsFit() && ToObject().Placed() && Seekable(ToObject())
      requires forall i :: 0 <= i < |segments| ==> Readable(ToObject(), i)
      requires loaded.LoadedFrom(In(ToObject().Image(), 0, false))
      ensures loaded.header == header && |loaded.sections| == |sections| && |loaded.segments| == |segments|
      ensures forall i :: 0 <= i < |sections| ==>
                && loaded.sections[i].header == sections[i].header
                && LoadedAs(loaded.sections[i], i, Loaded(sections[i].header, ToObject().Stored(i)))
                && loaded.sections[i].name == CStr(sections[i].name)
      ensures forall i :: 0 <= i < |segments| ==>
                loaded.segments[i].ph == segments[i].ph && loaded.segments[i].sections == SegmentReload.Found(ToObject(), i)
    {
      hide Object.FieldsFit, Object.Placed, Object.Image, Object.Stored, LoadHeader, LoadSections, LoadSegments, LoadedName, EhdrFits, IdentOk,
           NamesOk, Section.Valid, Segment.Valid, Members, Readable;
      var o := ToObject();
      HeaderReadsBack(o);
      SavedFileLoads();
      SaveLoadSegments(o);
      TableStored(o);
      assert Headers(loaded.sections) == SegmentReload.HeadersOf(o);
    }

    lemma TableStored(o: Object)
      requires o.Placed()
      ensures forall i :: 0 <= i < |o.sects| && o.Stored(i).Some? ==> |o.Stored(i).value| == o.sects[i].header.size
    {}
  }

  /** save's layout as a function of what the object holds: the segments are aligned first, and the
      first free position is behind the headers. */
  ghost function ResultOf(c: Class, segs: seq<Seg>, order: seq<nat>, secs: seq<Sec>, head: Ehdr): Result
    requires WellIndexed(segs, order, StartCursor(secs, 0))
  {
    LayoutAll(HeadOf(c, head, |segs|), RaiseAll(segs, secs, |segs|), order, secs, head.ehsize + head.phentsize * |segs|)
  }

  function HeadOf(c: Class, head: Ehdr, n: nat): Head {
    Head(c.Limit(), if n > 0 then head.ehsize else 0, head.phentsize * n)
  }

  /** The header create_header makes. */
  function NewHeader(c: Class, encoding: byte): Ehdr {
    Ehdr([0x7f, 0x45, 0x4c, 0x46, if c.Elf32? then ELFCLASS32 else ELFCLASS64, encoding, 1, 0, 0, 0, 0, 0, 0, 0, 0, 0],
         0, 0, 1, 0, 0, 0, 0, EhdrSize(c), PhdrSize(c), 0, ShdrSize(c), 0, 1)
  }

  lemma NewHeaderIs(c: Class, encoding: byte)
    ensures var h := NewHeader(c, encoding);
            && h.ehsize == EhdrSize(c) && h.phentsize == PhdrSize(c) && h.shentsize == ShdrSize(c) && h.shstrndx == 1
            && |h.ident| == EI_NIDENT && h.ident[EI_DATA] == encoding
            && h.ident[..4] == [0x7f, 0x45, 0x4c, 0x46] && h.ident[4] == (if c.Elf32? then 1 else 2) && h.ident[6] == 1
            && (forall k :: 7 <= k < EI_NIDENT ==> h.ident[k] == 0) && h.version == 1
            && (c.Elf32? ==> h.ehsize == 52 && h.phentsize == 32 && h.shentsize == 40)
            && (c.Elf64? ==> h.ehsize == 64 && h.phentsize == 56 && h.shentsize == 64)
  {}

  lemma NewHeaderFits(c: Class, encoding: byte)
    ensures EhdrFits(c, NewHeader(c, encoding)) && IdentOk(c, NewHeader(c, encoding).ident)
  {
    PowValues();
  }

  /** ".shstrtab" */
  const SHSTRTAB: seq<byte> := [0x2e, 0x73, 0x68, 0x73, 0x74, 0x72, 0x74, 0x61, 0x62]

  /** The section name string table of a new object: of type SHT_STRTAB (3), with its own name at
      offset 1. */
  ghost predicate NamesItself(t: Section)
    requires t.Valid()
    reads t, t.data
  {
    && t.name == SHSTRTAB && t.header == ZERO_SHDR.(name := 1, stype := 3, size := 11, addralign := 1)
    && t.Contents() == [0, 0x2e, 0x73, 0x68, 0x73, 0x74, 0x72, 0x74, 0x61, 0x62, 0]
  }

  lemma FirstName()
    ensures var (tab, pos) := AddString([], SHSTRTAB);
            && pos == 1 && Terminated(tab) && NamesIn(tab, [(0, []), (1, SHSTRTAB)])
            && tab == [0, 0x2e, 0x73, 0x68, 0x73, 0x74, 0x72, 0x74, 0x61, 0x62, 0]
  {
    hide CStr;
    var (tab, pos) := AddString([], SHSTRTAB);
    AddThenGet([], SHSTRTAB);
    EmptyCStr();
    assert tab[0..] == [] + [0] + tab[1..];
    CStrTerminated([], tab[1..]);
  }

  lemma EmptyCStr()
    ensures CStr([]) == []
  {}

  /** The headers of the sections. */
  ghost function Headers(ss: seq<Section>): (r: seq<Shdr>)
    reads ss
    ensures |r| == |ss|
  {
    seq(|ss|, i requires 0 <= i < |ss| reads ss => ss[i].header)
  }

  /** Name offset and name of every section. */
  ghost function Entries(ss: seq<Section>): (r: seq<(nat, seq<byte>)>)
    reads ss
    ensures |r| == |ss|
  {
    seq(|ss|, i requires 0 <= i < |ss| reads ss => (ss[i].header.name, ss[i].name))
  }

  ghost predicate AllSameData(a: seq<Sec>, b: seq<Sec>) {
    |a| == |b| && forall x :: 0 <= x < |a| ==> LayoutSafety.SameData(a[x], b[x])
  }

  lemma RestAt(ss: seq<Section>, k: nat)
    requires k < |ss|
    ensures Rests(ss)[k].data == ss[k].data
  {}

  /** NamesOk in terms of the views: it depends on type and size, name offsets, names, and the
      buffer of the name table only. */
  ghost predicate NamesHold(secs: seq<Sec>, rests: seq<SectionRest>, k: nat)
    requires |secs| == |rests|
    reads set r | r in rests :: r.data
  {
    && SHN_UNDEF != k < |secs| && InFile(secs[k])
    && rests[k].data != null && secs[k].size <= rests[k].data.Length
    && var tab := rests[k].data[..secs[k].size];
       && Terminated(tab)
       && forall i :: 0 <= i < |rests| ==> GetString(tab, rests[i].nameOffset) == Some(CStr(rests[i].name))
  }

  predicate NamesIn(tab: seq<byte>, entries: seq<(nat, seq<byte>)>) {
    forall i :: 0 <= i < |entries| ==> GetString(tab, entries[i].0) == Some(CStr(entries[i].1))
  }

  /** Adding a name keeps every earlier name readable. */
  lemma NamesGrow(tab: seq<byte>, entries: seq<(nat, seq<byte>)>, name: seq<byte>)
    requires Terminated(tab) && NamesIn(tab, entries)
    ensures var (t, pos) := AddString(tab, name); Terminated(t) && NamesIn(t, entries + [(pos, name)])
  {
    hide CStr, AddString;
    var (t, pos) := AddString(tab, name);
    AddTerminates(tab, name);
    AddThenGet(tab, name);
    forall i | 0 <= i < |entries| ensures GetString(t, entries[i].0) == Some(CStr(entries[i].1)) {
      GetStable(tab, t, entries[i].0);
    }
  }

  lemma AddTerminatesSize(tab: seq<byte>, name: seq<byte>)
    ensures AddString(tab, name).1 <= |tab| + 1 && AddString(tab, name).0 != []
  {}

  lemma NoSectionWrites(o: Object)
    requires o.FieldsFit()
    ensures o.SectionWrites(0) == []
  {}

  lemma NoSegmentWrites(o: Object)
    requires o.FieldsFit()
    ensures o.SegmentWrites(0) == []
  {}

  lemma HeaderWrites(o: Object)
    requires o.FieldsFit()
    ensures EhdrFits(o.c, o.ehdr)
    ensures WriteAll([], [o.EhdrChunk()]) == WriteAt([], 0, EhdrImage(o.c, o.SwapOn(), o.ehdr))
  {
    WriteAllStep([], [], o.EhdrChunk());
    assert [] + [o.EhdrChunk()] == [o.EhdrChunk()];
  }

  lemma AllWrites(o: Object)
    requires o.FieldsFit()
    ensures WriteAll(WriteAll(WriteAll([], [o.EhdrChunk()]), o.SectionWrites(|o.sects|)), o.SegmentWrites(|o.phdrs|)) == o.Image()
  {
    WriteAllAppend([], [o.EhdrChunk()], o.SectionWrites(|o.sects|));
    WriteAllAppend([], [o.EhdrChunk()] + o.SectionWrites(|o.sects|), o.SegmentWrites(|o.phdrs|));
  }

  lemma HeadersSmall(ehsize: nat, entsize: nat, n: nat)
    requires ehsize < M16 && entsize < M16 && n < M16
    ensures W64(ehsize + entsize * n) == ehsize + entsize * n
  {
    MulMono(entsize, M16, n);
  }

  lemma TableSmall(entsize: nat, n: nat)
    requires entsize < M16 && n < M16
    ensures entsize * n < M32
  {
    MulMono(entsize, M16, n);
  }

  lemma LimitLarge(c: Class)
    ensures c.Limit() >= M32
  {}

  /** A section as the file will hold it: a null buffer has no data. */
  ghost function SectOf(s: Section): Sect
    reads s, s.data
  {
    Sect(s.header,
         if s.data != null && s.header.stype != SHT_NOBITS && s.header.size <= s.data.Length then Some(s.data[..s.header.size]) else None,
         s.name)
  }

  ghost function ItemsOf(gs: seq<Segment>): (r: seq<SegmentOrder.Item>)
    reads gs
    ensures |r| == |gs|
  {
    seq(|gs|, i requires 0 <= i < |gs| reads gs => SegmentOrder.Item(i, gs[i].sections, gs[i].ph.offset, gs[i].offsetSet))
  }

  /** The order get_ordered_segments gives the segments, as indices. */
  ghost function OrderOf(gs: seq<Segment>): (order: seq<nat>)
    reads gs
    ensures forall k :: 0 <= k < |order| ==> order[k] < |gs|
  {
    SegmentOrder.OrderIsPermutation(ItemsOf(gs));
    SegmentOrder.Order(ItemsOf(gs))
  }

  /** When every segment has an offset and none at offset 0 is properly included in another, those at
      offset 0 are laid out before all others. */
  lemma OrderedByOffset(gs: seq<Segment>)
    requires forall i :: 0 <= i < |gs| ==> gs[i].offsetSet
    requires forall i, j :: 0 <= i < |gs| && 0 <= j < |gs| && gs[i].ph.offset == 0 ==>
               !SegmentOrder.IsSubsequenceOf(gs[i].sections, gs[j].sections)
    ensures forall p, q :: 0 <= p < q < |OrderOf(gs)| && gs[OrderOf(gs)[q]].ph.offset == 0 ==> gs[OrderOf(gs)[p]].ph.offset == 0
  {
    hide SegmentOrder.IsSubsequenceOf, SegmentOrder.Order;
    SegmentOrder.OrderZerosFirst(ItemsOf(gs));
  }

  /** Raising alignments changes no list, so segments stay nested as they were. */
  lemma RaisedNesting(segs: seq<Seg>, order: seq<nat>, secs: seq<Sec>)
    requires LayoutSafety.InputOk(segs, order, secs) && LayoutSteps.Nesting(segs, order)
    ensures |RaiseAll(segs, secs, |segs|)| == |segs| && LayoutSteps.Nesting(RaiseAll(segs, secs, |segs|), order)
  {
    hide RaiseAll, SegmentOrder.IsSubsequenceOf, SegmentOrder.Elements, SegmentOrder.Increasing;
    RaisedInput(segs, order, secs);
  }

  lemma ListsOk(c: Class, gs: seq<Segment>, n: nat)
    requires SegmentsOk(c, gs, n)
    ensures forall k :: 0 <= k < |gs| ==> IndicesOk(Segs(gs)[k], n)
  {}

  lemma WellIndexedNow(c: Class, gs: seq<Segment>, order: seq<nat>, cur: Cursor)
    requires SegmentsOk(c, gs, |cur.secs|) && |cur.secs| == |cur.gen|
    requires forall k :: 0 <= k < |order| ==> order[k] < |gs|
    ensures WellIndexed(Segs(gs), order, cur)
  {}

  lemma RaiseNone(segs: seq<Seg>, secs: seq<Sec>)
    requires forall k :: 0 <= k < |segs| ==> IndicesOk(segs[k], |secs|)
    ensures RaiseAll(segs, secs, 0) == segs
  {}

  lemma RaiseNext(segs: seq<Seg>, secs: seq<Sec>, n: nat)
    requires n < |segs| && forall k :: 0 <= k < |segs| ==> IndicesOk(segs[k], |secs|)
    ensures RaiseAll(segs, secs, n)[n] == segs[n]
    ensures RaiseAll(segs, secs, n + 1)
         == RaiseAll(segs, secs, n)[n := segs[n].(align := RaisedAlign(segs[n].align, segs[n].secs, secs))]
  {}

  lemma NextRound(h: Head, segs: seq<Seg>, order: seq<nat>, k: nat, cur: Cursor)
    requires h.m > 0 && k < |order| && WellIndexed(segs, order, cur)
    ensures var seg := segs[order[k]];
            var r, start := SegmentRun(h, seg, cur), Start(h, seg, cur).0;
            var next := segs[order[k] := Finish(h, seg, start, r)];
            && (!r.ok ==> LayoutSegments(h, segs, order, k, cur) == Outcome(false, segs, r.cur))
            && (r.ok && WellIndexed(next, order, r.cur) ==> LayoutSegments(h, segs, order, k, cur) == LayoutSegments(h, next, order, k + 1, r.cur))
  {
    hide SegmentRun, Start, Finish, WellIndexed;
  }

  lemma LastRound(h: Head, segs: seq<Seg>, order: seq<nat>, cur: Cursor)
    requires h.m > 0 && WellIndexed(segs, order, cur)
    ensures LayoutSegments(h, segs, order, |order|, cur) == Outcome(true, segs, cur)
  {}

  lemma StepBound(h: Head, segs: seq<Seg>, order: seq<nat>, k: nat, cur: Cursor)
    requires h.m > 0 && k < |order| && WellIndexed(segs, order, cur)
    ensures SegmentRun(h, segs[order[k]], cur).cur.pos <= LayoutSegments(h, segs, order, k, cur).cur.pos
  {
    var seg := segs[order[k]];
    var (start, size, pos) := Start(h, seg, cur);
    var r := SegmentRun(h, seg, cur);
    PlaceFromShape(h, seg, start, 0, Run(true, cur.(pos := pos), size, size));
    if r.ok {
      LayoutShape(h, segs[order[k] := Finish(h, seg, start, r)], order, k + 1, r.cur);
    }
  }

  lemma LooseOne(segs: seq<Seg>, x: nat, cur: Cursor)
    requires x < |cur.secs|
    ensures |LooseStep(x, cur).secs| == |cur.secs|
    ensures LooseFrom(segs, x, cur) == LooseFrom(segs, x + 1, if InSegment(segs, x) then cur else LooseStep(x, cur))
    ensures !InSegment(segs, x) ==> LooseStep(x, cur).pos <= LooseFrom(segs, x, cur).pos
  {
    LooseBound(segs, x + 1, LooseStep(x, cur));
  }

  lemma LooseNone(segs: seq<Seg>, cur: Cursor)
    ensures LooseFrom(segs, |cur.secs|, cur) == cur
  {}

  lemma {:induction false} LooseBound(segs: seq<Seg>, x: nat, cur: Cursor)
    requires x <= |cur.secs|
    ensures cur.pos <= LooseFrom(segs, x, cur).pos
    decreases |cur.secs| - x
  {
    if x < |cur.secs| {
      LooseBound(segs, x + 1, if InSegment(segs, x) then cur else LooseStep(x, cur));
    }
  }

  /** The cursor never moves back, so every intermediate position is bounded by the last. */
  lemma StartBound(h: Head, seg: Seg, cur: Cursor)
    requires h.m > 0 && |cur.secs| == |cur.gen| && IndicesOk(seg, |cur.secs|)
    ensures Start(h, seg, cur).2 <= SegmentRun(h, seg, cur).cur.pos
  {
    var (start, size, pos) := Start(h, seg, cur);
    PlaceFromShape(h, seg, start, 0, Run(true, cur.(pos := pos), size, size));
  }

  lemma PlaceBound(h: Head, seg: Seg, start: nat, j: nat, r: Run)
    requires h.m > 0 && j < |seg.secs| && |r.cur.secs| == |r.cur.gen| && IndicesOk(seg, |r.cur.secs|) && r.ok
    ensures var e := Place(h, seg, start, seg.secs[j], r);
            e.cur.pos <= PlaceFrom(h, seg, start, j, r).cur.pos
            && |e.cur.secs| == |e.cur.gen| == |r.cur.secs|
  {
    PlaceFromShape(h, seg, start, j + 1, Place(h, seg, start, seg.secs[j], r));
  }

  lemma AlignedIs(seg: Seg, pos: nat, align: nat, cur: nat, req: nat)
    requires align == (if seg.align > 0 then seg.align else 1) && cur == pos % align && req == seg.vaddr % align
    ensures AlignedPos(seg, pos) == pos + W64(seg.align + W64(req - cur)) % align
  {
    hide W64;
  }

  lemma Unwrapped(v: nat)
    requires v < M64
    ensures W64(v) == v
  {}

  lemma NextPlaced(h: Head, seg: Seg, start: nat, j: nat, r: Run)
    requires h.m > 0 && j < |seg.secs| && |r.cur.secs| == |r.cur.gen| && IndicesOk(seg, |r.cur.secs|) && r.ok
    ensures var e := Place(h, seg, start, seg.secs[j], r);
            && |e.cur.secs| == |e.cur.gen| == |r.cur.secs|
            && PlaceFrom(h, seg, start, j, r) == if e.ok then PlaceFrom(h, seg, start, j + 1, e) else e
  {
    hide Gap, Settled, CountsInMemory;
  }

  lemma NonePlaced(h: Head, seg: Seg, start: nat, r: Run)
    requires h.m > 0 && |r.cur.secs| == |r.cur.gen| && IndicesOk(seg, |r.cur.secs|)
    ensures PlaceFrom(h, seg, start, |seg.secs|, r) == r
  {}

  lemma FreshStarts(h: Head, seg: Seg, cur: Cursor)
    requires |cur.secs| == |cur.gen| && IndicesOk(seg, |cur.secs|) && FreshStart(seg, cur)
    ensures Start(h, seg, cur) == (AlignedPos(seg, cur.pos), 0, AlignedPos(seg, cur.pos))
  {}

  lemma PlaceFresh(h: Head, seg: Seg, start: nat, x: nat, r: Run, gap: int)
    requires h.m > 0 && x < |r.cur.secs| == |r.cur.gen| && !r.cur.gen[x] && r.ok && r.cur.secs[x].stype != SHT_NULL
    requires Gap(seg, start, r.cur.secs[x], false, r.cur.pos, r.filesz) == Some(gap) && gap >= 0
    ensures var s, pos, e := r.cur.secs[x], r.cur.pos + gap, Place(h, seg, start, x, r);
            && e.ok && e.cur.secs == r.cur.secs[x := Settled(h.m, seg, start, x, s, pos)]
            && e.cur.gen == r.cur.gen[x := true] && e.cur.pos == pos + FileSize(s) && e.cur.placed == r.cur.placed + [x]
            && e.filesz == (if s.stype != SHT_NOBITS then W64(r.filesz + s.size + gap) else r.filesz)
            && e.memsz == (if CountsInMemory(seg, s) then W64(r.memsz + s.size + gap) else r.memsz)
  {}

  /** The other outcomes: a null section, a refused one, one placed before. */
  lemma NotFreshlyPlaced(h: Head, seg: Seg, start: nat, x: nat, r: Run)
    requires h.m > 0 && x < |r.cur.secs| == |r.cur.gen|
    ensures var s := r.cur.secs[x];
            var gap := Gap(seg, start, s, r.cur.gen[x], r.cur.pos, r.filesz);
            && (s.stype == SHT_NULL ==> Place(h, seg, start, x, r) == r.(cur := r.cur.(gen := r.cur.gen[x := true])))
            && (s.stype != SHT_NULL && gap.None? ==> Place(h, seg, start, x, r) == r.(ok := false))
            && (s.stype != SHT_NULL && gap.Some? && r.cur.gen[x] ==>
                  Place(h, seg, start, x, r)
                  == Run(true, r.cur, if s.stype != SHT_NOBITS then W64(r.filesz + s.size + gap.value) else r.filesz,
                         if CountsInMemory(seg, s) then W64(r.memsz + s.size + gap.value) else r.memsz))
  {
    hide Gap, W64, CountsInMemory, Settled;
  }

  lemma InRange(x: nat, m: nat)
    requires 0 < m <= M64
    ensures x < m ==> W64(x) == x && x % m == x
  {
    if x < m {
      ModShift(0, m, x);
    }
  }

  lemma WrapTwice(a: nat, b: nat)
    ensures W64(W64(a) - b) == W64(a - b)
  {}

  /** Sums of wrapped terms wrap to the same value. */
  lemma SumWraps(a: nat, size: nat, gap: int, wrapped: nat)
    requires wrapped == W64(gap)
    ensures W64(a + W64(size + wrapped)) == W64(a + size + gap)
  {}
}
