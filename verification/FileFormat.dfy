/** The bytes of a written file, field by field: at which offset of its record each field stands, and in
    which byte order, as the encoding byte of the identification says. */
module FileFormat {
  import opened Bytes
  import Pack
  import opened Records
  import opened ElfTypes
  import opened Streams
  import opened SaveLoad
  import Layout
  import LayoutSteps
  import LayoutTables
  import SegmentReload

  /** The encoding the identification names. */
  predicate Lsb(h: Ehdr) { |h.ident| == 16 && h.ident[5] == 1 }

  // ---------------------------------------------------------------- the records of the format

  /** Elf32_Ehdr and Elf64_Ehdr, whose first sixteen bytes are the identification. */
  predicate EhdrAt(f: seq<byte>, c: Class, h: Ehdr, lsb: bool) {
    && 16 <= |f| && f[..16] == h.ident && f[..4] == [0x7f, 0x45, 0x4c, 0x46] && f[4] == (if c.Elf32? then 1 else 2)
    && At(f, 16, h.etype, 2, lsb) && At(f, 18, h.machine, 2, lsb) && At(f, 20, h.version, 4, lsb)
    && if c.Elf32? then
         && At(f, 24, h.entry, 4, lsb) && At(f, 28, h.phoff, 4, lsb) && At(f, 32, h.shoff, 4, lsb)
         && At(f, 36, h.flags, 4, lsb) && At(f, 40, h.ehsize, 2, lsb)
         && At(f, 42, h.phentsize, 2, lsb) && At(f, 44, h.phnum, 2, lsb)
         && At(f, 46, h.shentsize, 2, lsb) && At(f, 48, h.shnum, 2, lsb) && At(f, 50, h.shstrndx, 2, lsb)
       else
         && At(f, 24, h.entry, 8, lsb) && At(f, 32, h.phoff, 8, lsb) && At(f, 40, h.shoff, 8, lsb)
         && At(f, 48, h.flags, 4, lsb) && At(f, 52, h.ehsize, 2, lsb)
         && At(f, 54, h.phentsize, 2, lsb) && At(f, 56, h.phnum, 2, lsb)
         && At(f, 58, h.shentsize, 2, lsb) && At(f, 60, h.shnum, 2, lsb) && At(f, 62, h.shstrndx, 2, lsb)
  }

  /** Elf32_Shdr and Elf64_Shdr. */
  predicate ShdrAt(f: seq<byte>, at: nat, c: Class, h: Shdr, lsb: bool) {
    && At(f, at, h.name, 4, lsb) && At(f, at + 4, h.stype, 4, lsb)
    && if c.Elf32? then
         && At(f, at + 8, h.flags, 4, lsb) && At(f, at + 12, h.addr, 4, lsb)
         && At(f, at + 16, h.offset, 4, lsb) && At(f, at + 20, h.size, 4, lsb)
         && At(f, at + 24, h.link, 4, lsb) && At(f, at + 28, h.info, 4, lsb)
         && At(f, at + 32, h.addralign, 4, lsb) && At(f, at + 36, h.entsize, 4, lsb)
       else
         && At(f, at + 8, h.flags, 8, lsb) && At(f, at + 16, h.addr, 8, lsb)
         && At(f, at + 24, h.offset, 8, lsb) && At(f, at + 32, h.size, 8, lsb)
         && At(f, at + 40, h.link, 4, lsb) && At(f, at + 44, h.info, 4, lsb)
         && At(f, at + 48, h.addralign, 8, lsb) && At(f, at + 56, h.entsize, 8, lsb)
  }

  /** Elf32_Phdr and Elf64_Phdr. */
  predicate PhdrAt(f: seq<byte>, at: nat, c: Class, h: Phdr, lsb: bool) {
    && At(f, at, h.ptype, 4, lsb)
    && if c.Elf32? then
         && At(f, at + 4, h.offset, 4, lsb) && At(f, at + 8, h.vaddr, 4, lsb) && At(f, at + 12, h.paddr, 4, lsb)
         && At(f, at + 16, h.filesz, 4, lsb) && At(f, at + 20, h.memsz, 4, lsb)
         && At(f, at + 24, h.flags, 4, lsb) && At(f, at + 28, h.align, 4, lsb)
       else
         && At(f, at + 4, h.flags, 4, lsb) && At(f, at + 8, h.offset, 8, lsb)
         && At(f, at + 16, h.vaddr, 8, lsb) && At(f, at + 24, h.paddr, 8, lsb)
         && At(f, at + 32, h.filesz, 8, lsb) && At(f, at + 40, h.memsz, 8, lsb) && At(f, at + 48, h.align, 8, lsb)
  }

  // ---------------------------------------------------------------- offsets

  lemma ShdrOffsets(c: Class)
    ensures var ws, w := ShdrWidths(c), c.Wide();
            && Offset(ws, 0) == 0 && Offset(ws, 1) == 4 && Offset(ws, 2) == 8 && Offset(ws, 3) == 8 + w && Offset(ws, 4) == 8 + 2 * w
            && Offset(ws, 5) == 8 + 3 * w && Offset(ws, 6) == 8 + 4 * w && Offset(ws, 7) == 12 + 4 * w
            && Offset(ws, 8) == 16 + 4 * w && Offset(ws, 9) == 16 + 5 * w
  {
    hide Offset;
    var ws := ShdrWidths(c);
    NextOffset(ws);
  }

  lemma ShdrStands(f: seq<byte>, at: nat, c: Class, swap: bool, h: Shdr)
    requires Record(f, at, swap, ShdrFields(h), ShdrWidths(c))
    ensures ShdrAt(f, at, c, h, !swap)
  {
    hide At, Offset, Record;
    RecordFields(f, at, swap, ShdrFields(h), ShdrWidths(c));
    ShdrOffsets(c);
    var v, ws := ShdrFields(h), ShdrWidths(c);
    assert forall k :: 0 <= k < 10 ==> At(f, at + Offset(ws, k), v[k], ws[k], !swap);
  }

  lemma PhdrOffsets(c: Class)
    ensures var ws := PhdrWidths(c);
            && Offset(ws, 0) == 0 && Offset(ws, 1) == 4 && Offset(ws, 2) == 8
            && Offset(ws, 3) == 8 + c.Wide() && Offset(ws, 4) == 8 + 2 * c.Wide() && Offset(ws, 5) == 8 + 3 * c.Wide()
            && Offset(ws, 6) == 8 + 4 * c.Wide() && Offset(ws, 7) == 8 + 5 * c.Wide()
  {
    hide Offset;
    var ws := PhdrWidths(c);
    NextOffset(ws);
  }

  lemma PhdrStands(f: seq<byte>, at: nat, c: Class, swap: bool, h: Phdr)
    requires Record(f, at, swap, PhdrFields(c, h), PhdrWidths(c))
    ensures PhdrAt(f, at, c, h, !swap)
  {
    hide At, Offset, Record;
    RecordFields(f, at, swap, PhdrFields(c, h), PhdrWidths(c));
    PhdrOffsets(c);
    var v, ws := PhdrFields(c, h), PhdrWidths(c);
    assert forall k :: 0 <= k < 8 ==> At(f, at + Offset(ws, k), v[k], ws[k], !swap);
  }

  lemma EhdrOffsets(c: Class)
    ensures var ws, w := EhdrWidths(c), c.Wide();
            && Offset(ws, 16) == 16 && Offset(ws, 17) == 18 && Offset(ws, 18) == 20 && Offset(ws, 19) == 24
            && Offset(ws, 20) == 24 + w && Offset(ws, 21) == 24 + 2 * w && Offset(ws, 22) == 24 + 3 * w
            && Offset(ws, 23) == 28 + 3 * w && Offset(ws, 24) == 30 + 3 * w && Offset(ws, 25) == 32 + 3 * w
            && Offset(ws, 26) == 34 + 3 * w && Offset(ws, 27) == 36 + 3 * w && Offset(ws, 28) == 38 + 3 * w
  {
    hide Offset;
    var ws := EhdrWidths(c);
    IdentOffsets(ws, 16);
    NextOffset(ws);
  }

  lemma EhdrStands(f: seq<byte>, c: Class, swap: bool, h: Ehdr)
    requires Record(f, 0, swap, EhdrFields(h), EhdrWidths(c)) && IdentOk(c, h.ident)
    requires 16 <= |f| && f[..16] == h.ident
    ensures EhdrAt(f, c, h, !swap)
  {
    hide At, Offset, Record;
    RecordFields(f, 0, swap, EhdrFields(h), EhdrWidths(c));
    EhdrOffsets(c);
    var v, ws := EhdrFields(h), EhdrWidths(c);
    assert forall k :: 16 <= k < 29 ==> At(f, 0 + Offset(ws, k), v[k], ws[k], !swap);
  }

  // ---------------------------------------------------------------- the file

  lemma ChunkRecord(f: seq<byte>, d: Chunk, swap: bool, vs: seq<nat>, ws: seq<nat>)
    requires Holds(f, d) && d.End() <= |f| && Pack.Fits(vs, ws) && d.bytes == Pack.Image(swap, vs, ws)
    ensures Record(f, d.pos, swap, vs, ws)
  {}

  lemma EhdrHeld(o: Object)
    requires o.FieldsFit() && o.Placed()
    ensures Holds(o.Image(), o.EhdrChunk()) && o.EhdrChunk().End() <= |o.Image()| && |o.EhdrChunk().bytes| == EhdrSize(o.c)
    ensures o.EhdrChunk().pos == 0 && EhdrSize(o.c) >= 16 && o.EhdrChunk().bytes[..16] == o.ehdr.ident
  {
    hide Object.Placed, EhdrImage, ShdrFits, PhdrFits, WriteAll;
    AllWritesApart(o);
    AllHeld([], o.Writes(), 0);
    assert o.Writes()[0] == o.EhdrChunk();
    IdentLeads(o);
  }

  lemma EhdrRecord(o: Object)
    requires o.FieldsFit() && o.Placed()
    ensures Record(o.Image(), 0, o.SwapOn(), EhdrFields(o.ehdr), EhdrWidths(o.c)) && 16 <= |o.Image()| && o.Image()[..16] == o.ehdr.ident
  {
    hide Object.Placed, Object.Image, ShdrFits, PhdrFits, Pack.Image, Pack.Size, EhdrFields, EhdrWidths, Object.SwapOn;
    EhdrHeld(o);
    RecordSizes(o.c);
    ChunkRecord(o.Image(), o.EhdrChunk(), o.SwapOn(), EhdrFields(o.ehdr), EhdrWidths(o.c));
    var f, b := o.Image(), o.EhdrChunk().bytes;
    assert f[0..|b|] == b;
    assert f[..16] == f[0..|b|][..16];
  }

  /** Where entry i of a table stands. */
  function Slot(table: nat, size: nat, i: nat): nat { table + size * i }

  /** The object is in the file, little-endian exactly when the encoding byte is 1. */
  predicate FileHolds(f: seq<byte>, o: Object)
    requires o.FieldsFit()
  {
    var lsb := Lsb(o.ehdr);
    && EhdrAt(f, o.c, o.ehdr, lsb)
    && (forall i :: 0 <= i < |o.sects| ==> ShdrAt(f, Slot(o.ehdr.shoff, o.ehdr.shentsize, i), o.c, o.sects[i].header, lsb))
    && (forall i :: 0 <= i < |o.phdrs| ==> PhdrAt(f, Slot(o.ehdr.phoff, o.ehdr.phentsize, i), o.c, o.phdrs[i], lsb))
  }

  lemma SwapsUnlessLsb(o: Object)
    requires o.FieldsFit()
    ensures !o.SwapOn() <==> Lsb(o.ehdr)
  {}

  lemma FileHeaderStands(o: Object)
    requires o.FieldsFit() && o.Placed()
    ensures EhdrAt(o.Image(), o.c, o.ehdr, Lsb(o.ehdr))
  {
    hide Object.Placed, Object.Image, EhdrAt, Record, EhdrFields, EhdrWidths, ShdrFits, PhdrFits, Object.SwapOn;
    EhdrRecord(o);
    EhdrStands(o.Image(), o.c, o.SwapOn(), o.ehdr);
    SwapsUnlessLsb(o);
  }

  lemma SectionHeaderStands(o: Object, i: nat)
    requires o.FieldsFit() && o.Placed() && i < |o.sects|
    ensures ShdrAt(o.Image(), Slot(o.ehdr.shoff, o.ehdr.shentsize, i), o.c, o.sects[i].header, Lsb(o.ehdr))
  {
    hide Object.Placed, Object.Image, ShdrAt, Record, ShdrFields, ShdrWidths, EhdrFits, PhdrFits, Object.SwapOn;
    HeaderHeld(o, i);
    ChunkRecord(o.Image(), o.HeaderChunk(i), o.SwapOn(), ShdrFields(o.sects[i].header), ShdrWidths(o.c));
    ShdrStands(o.Image(), o.HeaderChunk(i).pos, o.c, o.SwapOn(), o.sects[i].header);
    SwapsUnlessLsb(o);
  }

  lemma ProgramHeaderStands(o: Object, i: nat)
    requires o.FieldsFit() && o.Placed() && i < |o.phdrs|
    ensures PhdrAt(o.Image(), Slot(o.ehdr.phoff, o.ehdr.phentsize, i), o.c, o.phdrs[i], Lsb(o.ehdr))
  {
    hide Object.Placed, Object.Image, PhdrAt, Record, PhdrFields, PhdrWidths, EhdrFits, ShdrFits, Object.SwapOn;
    PhdrHeld(o, i);
    ChunkRecord(o.Image(), o.PhdrChunk(i), o.SwapOn(), PhdrFields(o.c, o.phdrs[i]), PhdrWidths(o.c));
    PhdrStands(o.Image(), o.PhdrChunk(i).pos, o.c, o.SwapOn(), o.phdrs[i]);
    SwapsUnlessLsb(o);
  }

  /** Every field of every header stands in the file at its place, in the byte order the file names. */
  lemma AllFieldsStand(o: Object)
    requires o.FieldsFit() && o.Placed()
    ensures FileHolds(o.Image(), o)
  {
    hide Object.FieldsFit, Object.Placed, Object.Image, EhdrAt, ShdrAt, PhdrAt;
    FileHeaderStands(o);
    forall i | 0 <= i < |o.sects| ensures ShdrAt(o.Image(), Slot(o.ehdr.shoff, o.ehdr.shentsize, i), o.c, o.sects[i].header, Lsb(o.ehdr)) {
      SectionHeaderStands(o, i);
    }
    forall i | 0 <= i < |o.phdrs| ensures PhdrAt(o.Image(), Slot(o.ehdr.phoff, o.ehdr.phentsize, i), o.c, o.phdrs[i], Lsb(o.ehdr)) {
      ProgramHeaderStands(o, i);
    }
  }

  // ---------------------------------------------------------------- the segment of the program header table

  lemma AtInside(f: seq<byte>, a: nat, b: nat, e: nat, v: nat, w: nat, lsb: bool)
    requires At(f, a + b, v, w, lsb) && a <= e <= |f| && a + b + w <= e
    ensures At(f[a..e], b, v, w, lsb)
  {
    hide LE;
    var g := f[a..e];
    var x, y := g[b..b + w], f[a + b..a + b + w];
    forall k | 0 <= k < w ensures x[k] == y[k] {
      assert g[b + k] == f[a + (b + k)];
    }
    assert x == y;
  }

  lemma PhdrInside(f: seq<byte>, a: nat, b: nat, e: nat, c: Class, h: Phdr, lsb: bool)
    requires PhdrAt(f, a + b, c, h, lsb) && a <= e <= |f| && a + b + PhdrSize(c) <= e
    ensures PhdrAt(f[a..e], b, c, h, lsb)
  {
    hide At;
    AtInside(f, a, b, e, h.ptype, 4, lsb);
    if c.Elf32? {
      AtInside(f, a, b + 4, e, h.offset, 4, lsb); AtInside(f, a, b + 8, e, h.vaddr, 4, lsb);
      AtInside(f, a, b + 12, e, h.paddr, 4, lsb); AtInside(f, a, b + 16, e, h.filesz, 4, lsb);
      AtInside(f, a, b + 20, e, h.memsz, 4, lsb); AtInside(f, a, b + 24, e, h.flags, 4, lsb);
      AtInside(f, a, b + 28, e, h.align, 4, lsb);
    } else {
      AtInside(f, a, b + 4, e, h.flags, 4, lsb); AtInside(f, a, b + 8, e, h.offset, 8, lsb);
      AtInside(f, a, b + 16, e, h.vaddr, 8, lsb); AtInside(f, a, b + 24, e, h.paddr, 8, lsb);
      AtInside(f, a, b + 32, e, h.filesz, 8, lsb); AtInside(f, a, b + 40, e, h.memsz, 8, lsb);
      AtInside(f, a, b + 48, e, h.align, 8, lsb);
    }
  }

  /** The bytes segment i covers are the program header table, all of it and nothing else. */
  predicate CoversTable(o: Object, i: nat)
    requires o.FieldsFit() && i < |o.phdrs|
  {
    var p, f := o.phdrs[i], o.Image();
    && p.offset == o.ehdr.phoff && p.filesz == o.ehdr.phentsize * |o.phdrs| && p.offset + p.filesz <= |f|
    && forall k :: 0 <= k < |o.phdrs| ==>
         PhdrAt(f[p.offset..p.offset + p.filesz], Slot(0, o.ehdr.phentsize, k), o.c, o.phdrs[k], Lsb(o.ehdr))
  }

  lemma TableCovered(o: Object, i: nat)
    requires o.FieldsFit() && o.Placed() && |o.sects| > 0 && i < |o.phdrs|
    requires o.phdrs[i].offset == o.ehdr.phoff && o.phdrs[i].filesz == o.ehdr.phentsize * |o.phdrs|
    ensures CoversTable(o, i)
  {
    hide Object.FieldsFit, Object.Placed, Object.Image, PhdrAt;
    TableEnds(o);
    SegmentReload.TableInFile(o);
    var p, f := o.phdrs[i], o.Image();
    var e := p.offset + p.filesz;
    forall k | 0 <= k < |o.phdrs| ensures PhdrAt(f[p.offset..e], Slot(0, o.ehdr.phentsize, k), o.c, o.phdrs[k], Lsb(o.ehdr)) {
      ProgramHeaderStands(o, k);
      SlotInside(o.ehdr.phentsize, k, |o.phdrs|);
      PhdrInside(f, p.offset, Slot(0, o.ehdr.phentsize, k), e, o.c, o.phdrs[k], Lsb(o.ehdr));
    }
  }

  lemma TableEnds(o: Object)
    requires o.FieldsFit() && o.Placed() && |o.phdrs| > 0
    ensures o.ehdr.phoff + o.ehdr.phentsize * |o.phdrs| <= o.ehdr.shoff && PhdrSize(o.c) <= o.ehdr.phentsize
  {}

  /** A PT_PHDR segment without sections covers the program header table of the written file. */
  lemma TableSegment(o: Object, h: Layout.Head, segs: seq<Layout.Seg>, order: seq<nat>, secs: seq<Layout.Sec>, q: nat)
    requires LayoutSteps.Laid(h, segs, order, secs, o.HeadersEnd()) && q < |order|
    requires segs[order[q]].ptype == PT_PHDR && segs[order[q]].secs == []
    requires SegmentReload.SegmentsFrom(o, Layout.LayoutAll(h, segs, order, secs, o.HeadersEnd()))
    requires h.phoff == o.ehdr.phoff && h.phsize == o.ehdr.phentsize * |o.phdrs| < h.m
    requires o.FieldsFit() && o.Placed() && |o.sects| > 0
    ensures |o.phdrs| == |segs| && CoversTable(o, order[q])
  {
    hide Layout.LayoutAll, Object.FieldsFit, Object.Placed, CoversTable, Object.HeadersEnd;
    LayoutSteps.LaidInput(h, segs, order, secs, o.HeadersEnd());
    LayoutTables.EmptySegment(h, segs, order, secs, o.HeadersEnd(), q);
    TableCovered(o, order[q]);
  }
}
