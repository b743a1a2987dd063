/** What load makes of any file, in terms of the file's bytes: which files are refused, which fields are
    read from where and in which byte order, and which bytes become data. */
module LoadFormat {
  import opened Bytes
  import opened Endian
  import opened Options
  import Pack
  import opened Records
  import opened ElfTypes
  import opened Streams
  import opened ElfSection
  import opened ElfSegment
  import opened SaveLoad
  import opened StringTable
  import opened FileFormat

  // ---------------------------------------------------------------- records of any bytes

  lemma ShdrRead(c: Class, swap: bool, s: seq<byte>)
    requires |s| >= ShdrSize(c)
    ensures ShdrAt(s, 0, c, ReadShdr(c, swap, s), !swap)
  {
    hide ShdrAt, Record, Pack.Fields, Pack.Size;
    RecordSizes(c);
    RecordOf(swap, s, ShdrWidths(c));
    var v := Pack.Fields(swap, s, ShdrWidths(c));
    assert ShdrFields(ShdrOf(v)) == v;
    ShdrStands(s, 0, c, swap, ShdrOf(v));
  }

  lemma PhdrRead(c: Class, swap: bool, s: seq<byte>)
    requires |s| >= PhdrSize(c)
    ensures PhdrAt(s, 0, c, ReadPhdr(c, swap, s), !swap)
  {
    hide PhdrAt, Record, Pack.Fields, Pack.Size;
    RecordSizes(c);
    RecordOf(swap, s, PhdrWidths(c));
    var v := Pack.Fields(swap, s, PhdrWidths(c));
    assert PhdrFields(c, PhdrOf(c, v)) == v;
    PhdrStands(s, 0, c, swap, PhdrOf(c, v));
  }

  lemma EhdrRead(c: Class, swap: bool, s: seq<byte>)
    requires |s| >= EhdrSize(c) && IdentOk(c, s[..EI_NIDENT])
    ensures EhdrAt(s, c, ReadEhdr(c, swap, s), !swap)
  {
    hide EhdrAt, Record, Pack.Fields, Pack.Size, EhdrWidths, EhdrFields, EhdrOf, ReadEhdr;
    RecordSizes(c);
    ElfTypes.EhdrRead(c, swap, s);
    EhdrReads(c, swap, s);
    RecordOf(swap, s, EhdrWidths(c));
    var v := Pack.Fields(swap, s, EhdrWidths(c));
    FieldsOfEhdr(v);
    EhdrStands(s, c, swap, EhdrOf(v));
  }

  lemma AtMoved(f: seq<byte>, at: nat, g: seq<byte>, k: nat, v: nat, w: nat, lsb: bool)
    requires At(g, k, v, w, lsb) && at + |g| <= |f| && f[at..at + |g|] == g
    ensures At(f, at + k, v, w, lsb)
  {
    hide LE;
    var x, y := f[at + k..at + k + w], g[k..k + w];
    forall i | 0 <= i < w ensures x[i] == y[i] {
      assert f[at..at + |g|][k + i] == f[at + (k + i)];
    }
    assert x == y;
  }

  lemma ShdrMoved(f: seq<byte>, at: nat, g: seq<byte>, c: Class, h: Shdr, lsb: bool)
    requires ShdrAt(g, 0, c, h, lsb) && at + |g| <= |f| && f[at..at + |g|] == g
    ensures ShdrAt(f, at, c, h, lsb)
  {
    hide At;
    AtMoved(f, at, g, 0, h.name, 4, lsb); AtMoved(f, at, g, 4, h.stype, 4, lsb);
    if c.Elf32? {
      AtMoved(f, at, g, 8, h.flags, 4, lsb); AtMoved(f, at, g, 12, h.addr, 4, lsb);
      AtMoved(f, at, g, 16, h.offset, 4, lsb); AtMoved(f, at, g, 20, h.size, 4, lsb);
      AtMoved(f, at, g, 24, h.link, 4, lsb); AtMoved(f, at, g, 28, h.info, 4, lsb);
      AtMoved(f, at, g, 32, h.addralign, 4, lsb); AtMoved(f, at, g, 36, h.entsize, 4, lsb);
    } else {
      AtMoved(f, at, g, 8, h.flags, 8, lsb); AtMoved(f, at, g, 16, h.addr, 8, lsb);
      AtMoved(f, at, g, 24, h.offset, 8, lsb); AtMoved(f, at, g, 32, h.size, 8, lsb);
      AtMoved(f, at, g, 40, h.link, 4, lsb); AtMoved(f, at, g, 44, h.info, 4, lsb);
      AtMoved(f, at, g, 48, h.addralign, 8, lsb); AtMoved(f, at, g, 56, h.entsize, 8, lsb);
    }
  }

  lemma PhdrMoved(f: seq<byte>, at: nat, g: seq<byte>, c: Class, h: Phdr, lsb: bool)
    requires PhdrAt(g, 0, c, h, lsb) && at + |g| <= |f| && f[at..at + |g|] == g
    ensures PhdrAt(f, at, c, h, lsb)
  {
    hide At;
    AtMoved(f, at, g, 0, h.ptype, 4, lsb);
    if c.Elf32? {
      AtMoved(f, at, g, 4, h.offset, 4, lsb); AtMoved(f, at, g, 8, h.vaddr, 4, lsb);
      AtMoved(f, at, g, 12, h.paddr, 4, lsb); AtMoved(f, at, g, 16, h.filesz, 4, lsb);
      AtMoved(f, at, g, 20, h.memsz, 4, lsb); AtMoved(f, at, g, 24, h.flags, 4, lsb);
      AtMoved(f, at, g, 28, h.align, 4, lsb);
    } else {
      AtMoved(f, at, g, 4, h.flags, 4, lsb); AtMoved(f, at, g, 8, h.offset, 8, lsb);
      AtMoved(f, at, g, 16, h.vaddr, 8, lsb); AtMoved(f, at, g, 24, h.paddr, 8, lsb);
      AtMoved(f, at, g, 32, h.filesz, 8, lsb); AtMoved(f, at, g, 40, h.memsz, 8, lsb);
      AtMoved(f, at, g, 48, h.align, 8, lsb);
    }
  }

  // ---------------------------------------------------------------- one section, one segment

  /** What a file has of the n bytes at an offset. */
  function Part(f: seq<byte>, offset: nat, n: nat): seq<byte> {
    if offset >= |f| then [] else if offset + n <= |f| then f[offset..offset + n] else f[offset..]
  }

  /** A section read from file f: sections of type SHT_NULL (0) and SHT_NOBITS (8), and those as large
      as the whole file, get no data. */
  predicate SectionOf(f: seq<byte>, at: nat, c: Class, lsb: bool, l: Loaded) {
    && ShdrAt(f, at, c, l.header, lsb)
    && l.data == if l.header.stype == 0 || l.header.stype == 8 || l.header.size >= |f| then None
                 else Some(Part(f, l.header.offset, l.header.size))
  }

  /** Reading it did not reach beyond the end of the file. */
  predicate Whole(f: seq<byte>, l: Loaded) {
    l.data.Some? && l.header.size > 0 ==> l.header.offset + l.header.size <= |f|
  }

  lemma ReadInside(s: In, at: nat, n: nat)
    requires !s.fail && at + n <= |s.bytes| < 0x8000_0000_0000_0000
    ensures s.Seek(at).Take(n) == s.bytes[at..at + n] && s.Seek(at).Read(n) == In(s.bytes, at + n, false)
  {}

  lemma ReadPart(s: In, offset: nat, n: nat)
    requires !s.fail && n > 0 && |s.bytes| < 0x8000_0000_0000_0000
    ensures s.Seek(offset).Take(n) == Part(s.bytes, offset, n)
    ensures s.Seek(offset).Read(n).bytes == s.bytes && (s.Seek(offset).Read(n).fail <==> offset + n > |s.bytes|)
  {}

  /** A section whose record is in the file. */
  lemma SectionLoads(c: Class, swap: bool, s: In, at: nat)
    requires !s.fail && |s.bytes| < 0x8000_0000_0000_0000 && at + ShdrSize(c) <= |s.bytes|
    ensures var (l, s') := LoadSection(c, swap, s, at);
            SectionOf(s.bytes, at, c, !swap, l) && s'.bytes == s.bytes && (s'.fail <==> !Whole(s.bytes, l))
  {
    hide ReadShdr, ShdrAt, Part, In.Seek, In.Take, In.Read;
    var f, n := s.bytes, ShdrSize(c);
    var s0 := s.(pos := |f|);
    ReadInside(s0, at, n);
    var rec := f[at..at + n];
    assert PadTo(rec, n) == rec;
    ShdrRead(c, swap, rec);
    ShdrMoved(f, at, rec, c, ReadShdr(c, swap, rec), !swap);
    var (l, s') := LoadSection(c, swap, s, at);
    assert l.header == ReadShdr(c, swap, rec);
    if FileBacked(l.header) && l.header.size < |f| {
      if l.header.size == 0 {
        EmptyPart(f, l.header.offset);
      } else {
        ReadPart(In(f, at + n, false), l.header.offset, l.header.size);
      }
    }
  }

  lemma EmptyPart(f: seq<byte>, offset: nat)
    ensures Part(f, offset, 0) == []
  {}

  /** After a read that fell short every section is null and has no data. */
  lemma NothingLoads(c: Class, swap: bool, s: In, at: nat)
    requires s.fail
    ensures LoadSection(c, swap, s, at) == (Loaded(ZERO_SHDR, None), s)
  {
    hide ReadShdr;
    var zeros := PadTo([], ShdrSize(c));
    ZeroHeader(c, swap);
    assert zeros == Zeros(ShdrSize(c));
  }

  lemma ZeroHeader(c: Class, swap: bool)
    ensures ReadShdr(c, swap, Zeros(ShdrSize(c))) == ZERO_SHDR
  {
    hide Pack.Fields, Pack.Image, Pack.Size;
    RecordSizes(c);
    ZeroFields(swap, Zeros(ShdrSize(c)), ShdrWidths(c));
  }

  lemma {:induction false} ZeroFields(swap: bool, s: seq<byte>, ws: seq<nat>)
    requires Pack.Widths(ws) && Pack.Size(ws) <= |s| && forall k :: 0 <= k < |s| ==> s[k] == 0
    ensures forall k :: 0 <= k < |ws| ==> Pack.Fields(swap, s, ws)[k] == 0
  {
    hide FieldValue;
    if ws != [] {
      ZeroField(swap, s[..ws[0]]);
      ZeroFields(swap, s[ws[0]..], ws[1..]);
    }
  }

  lemma ZeroField(swap: bool, s: seq<byte>)
    requires |s| in {1, 2, 4, 8} && forall k :: 0 <= k < |s| ==> s[k] == 0
    ensures FieldValue(swap, s) == 0
  {
    FromZeros(s);
    PowValues();
  }

  lemma {:induction false} FromZeros(s: seq<byte>)
    requires forall k :: 0 <= k < |s| ==> s[k] == 0
    ensures FromLE(s) == 0
  {
    if s != [] {
      FromZeros(s[1..]);
    }
  }

  /** A segment read from file f: of type PT_NULL (0), empty, or larger than the file, it gets no data. */
  predicate SegmentAt(f: seq<byte>, at: nat, c: Class, lsb: bool, l: LoadedSegment) {
    && PhdrAt(f, at, c, l.header, lsb)
    && l.data == if l.header.ptype == 0 || l.header.filesz == 0 || l.header.filesz > |f| then None
                 else Some(Part(f, l.header.offset, l.header.filesz))
  }

  lemma SegmentLoads(c: Class, swap: bool, s: In, at: nat)
    requires !s.fail && |s.bytes| < 0x8000_0000_0000_0000 && at + PhdrSize(c) <= |s.bytes|
    ensures var (l, s') := LoadSegment(c, swap, s, at);
            && SegmentAt(s.bytes, at, c, !swap, l) && s'.bytes == s.bytes
            && (l.data.Some? ==> (s'.fail <==> l.header.offset + l.header.filesz > |s.bytes|))
            && (l.data.None? ==> (s'.fail <==> l.header.ptype != 0 && l.header.filesz > |s.bytes| && l.header.offset >= 0x8000_0000_0000_0000))
  {
    hide ReadPhdr, PhdrAt, Part, In.Take, In.Read;
    var f, n := s.bytes, PhdrSize(c);
    var s0 := s.(pos := |f|);
    ReadInside(s0, at, n);
    var rec := f[at..at + n];
    assert PadTo(rec, n) == rec;
    PhdrRead(c, swap, rec);
    PhdrMoved(f, at, rec, c, ReadPhdr(c, swap, rec), !swap);
    var (l, s') := LoadSegment(c, swap, s, at);
    assert l.header == ReadPhdr(c, swap, rec);
    if l.data.Some? {
      ReadPart(In(f, at + n, false), l.header.offset, l.header.filesz);
    }
  }

  // ---------------------------------------------------------------- the file header

  /** Files that load refuses: too short, not an ELF file, or of an unknown class. */
  predicate Refused(f: seq<byte>) {
    || |f| < 16 || f[..4] != [0x7f, 0x45, 0x4c, 0x46] || f[4] !in {1, 2}
    || |f| < if f[4] == 1 then 52 else 64
  }

  lemma HeaderLoads(f: seq<byte>)
    ensures LoadHeader(In(f, 0, false)).None? <==> Refused(f)
    ensures !Refused(f) ==>
              var (c, swap, e, s) := LoadHeader(In(f, 0, false)).value;
              && c == (if f[4] == 1 then Elf32 else Elf64) && swap == (f[5] != 1)
              && EhdrAt(f, c, e, f[5] == 1) && s.bytes == f && !s.fail
  {
    hide ReadEhdr, EhdrAt;
    if |f| >= 16 {
      var ident := f[0..0 + 16];
      assert ident == f[..16];
      assert ident[..4] == f[..4];
      if !Refused(f) {
        var c := if f[4] == 1 then Elf32 else Elf64;
        var rec := f[0..0 + EhdrSize(c)];
        assert rec[..16] == f[..16];
        EhdrRead(c, f[5] != 1, rec);
        EhdrInFile(f, rec, c, ReadEhdr(c, f[5] != 1, rec), f[5] == 1);
      }
    }
  }

  lemma EhdrInFile(f: seq<byte>, g: seq<byte>, c: Class, h: Ehdr, lsb: bool)
    requires EhdrAt(g, c, h, lsb) && g <= f
    ensures EhdrAt(f, c, h, lsb)
  {
    hide At;
    assert f[..16] == g[..16] && f[..4] == g[..4];
    assert f[0..0 + |g|] == g;
    AtMoved(f, 0, g, 16, h.etype, 2, lsb); AtMoved(f, 0, g, 18, h.machine, 2, lsb); AtMoved(f, 0, g, 20, h.version, 4, lsb);
    if c.Elf32? {
      AtMoved(f, 0, g, 24, h.entry, 4, lsb); AtMoved(f, 0, g, 28, h.phoff, 4, lsb); AtMoved(f, 0, g, 32, h.shoff, 4, lsb);
      AtMoved(f, 0, g, 36, h.flags, 4, lsb); AtMoved(f, 0, g, 40, h.ehsize, 2, lsb);
      AtMoved(f, 0, g, 42, h.phentsize, 2, lsb); AtMoved(f, 0, g, 44, h.phnum, 2, lsb);
      AtMoved(f, 0, g, 46, h.shentsize, 2, lsb); AtMoved(f, 0, g, 48, h.shnum, 2, lsb); AtMoved(f, 0, g, 50, h.shstrndx, 2, lsb);
    } else {
      AtMoved(f, 0, g, 24, h.entry, 8, lsb); AtMoved(f, 0, g, 32, h.phoff, 8, lsb); AtMoved(f, 0, g, 40, h.shoff, 8, lsb);
      AtMoved(f, 0, g, 48, h.flags, 4, lsb); AtMoved(f, 0, g, 52, h.ehsize, 2, lsb);
      AtMoved(f, 0, g, 54, h.phentsize, 2, lsb); AtMoved(f, 0, g, 56, h.phnum, 2, lsb);
      AtMoved(f, 0, g, 58, h.shentsize, 2, lsb); AtMoved(f, 0, g, 60, h.shnum, 2, lsb); AtMoved(f, 0, g, 62, h.shstrndx, 2, lsb);
    }
  }

  // ---------------------------------------------------------------- the tables

  /** Sections i, ..., i + n of the table are read as their records stand, as long as the bytes of those
      before are all there. */
  lemma {:induction false} SectionsLoad(c: Class, swap: bool, e: Ehdr, i: nat, s: In, n: nat)
    requires i + n < e.shnum && !s.fail && |s.bytes| < 0x8000_0000_0000_0000
    requires forall k :: i <= k <= i + n ==> Slot(e.shoff, e.shentsize, k) + ShdrSize(c) <= |s.bytes|
    requires forall d :: 0 <= d < n ==> Whole(s.bytes, LoadSections(c, swap, e, i, s).0[d])
    ensures SectionOf(s.bytes, Slot(e.shoff, e.shentsize, i + n), c, !swap, LoadSections(c, swap, e, i, s).0[n])
    decreases n
  {
    hide LoadSection, SectionOf, Whole, LoadSections;
    var (l, s1) := LoadSection(c, swap, s, Slot(e.shoff, e.shentsize, i));
    SectionLoads(c, swap, s, Slot(e.shoff, e.shentsize, i));
    NextSection(c, swap, e, i, s);
    var ls, rest := LoadSections(c, swap, e, i, s).0, LoadSections(c, swap, e, i + 1, s1).0;
    if n > 0 {
      assert Whole(s.bytes, ls[0]);
      forall d | 0 <= d < n - 1 ensures Whole(s.bytes, rest[d]) {
        assert rest[d] == ls[d + 1];
      }
      SectionsLoad(c, swap, e, i + 1, s1, n - 1);
      assert rest[n - 1] == ls[n];
    }
  }

  lemma NextSection(c: Class, swap: bool, e: Ehdr, i: nat, s: In)
    requires i < e.shnum
    ensures var (l, s1) := LoadSection(c, swap, s, Slot(e.shoff, e.shentsize, i));
            && LoadSections(c, swap, e, i, s).0 == [l] + LoadSections(c, swap, e, i + 1, s1).0
            && LoadSections(c, swap, e, i, s).1 == LoadSections(c, swap, e, i + 1, s1).1
  {
    hide LoadSection;
    assert i * e.shentsize == e.shentsize * i;
  }

  /** The stream after the whole table. */
  lemma {:induction false} AfterSections(c: Class, swap: bool, e: Ehdr, i: nat, s: In)
    requires i <= e.shnum && !s.fail && |s.bytes| < 0x8000_0000_0000_0000
    requires forall k :: i <= k < e.shnum ==> Slot(e.shoff, e.shentsize, k) + ShdrSize(c) <= |s.bytes|
    requires forall d :: 0 <= d < e.shnum - i ==> Whole(s.bytes, LoadSections(c, swap, e, i, s).0[d])
    ensures LoadSections(c, swap, e, i, s).1.bytes == s.bytes && !LoadSections(c, swap, e, i, s).1.fail
    decreases e.shnum - i
  {
    hide LoadSection, SectionOf, Whole, LoadSections;
    if i == e.shnum {
      NoSections(c, swap, e, s);
    } else {
      var (l, s1) := LoadSection(c, swap, s, Slot(e.shoff, e.shentsize, i));
      SectionLoads(c, swap, s, Slot(e.shoff, e.shentsize, i));
      NextSection(c, swap, e, i, s);
      var ls, rest := LoadSections(c, swap, e, i, s).0, LoadSections(c, swap, e, i + 1, s1).0;
      assert Whole(s.bytes, ls[0]);
      forall d | 0 <= d < e.shnum - (i + 1) ensures Whole(s.bytes, rest[d]) {
        assert rest[d] == ls[d + 1];
      }
      AfterSections(c, swap, e, i + 1, s1);
    }
  }

  lemma NoSections(c: Class, swap: bool, e: Ehdr, s: In)
    ensures LoadSections(c, swap, e, e.shnum, s) == ([], s)
  {}

  /** The same of the segments: a segment's bytes are there when it ends in the file. */
  lemma {:induction false} SegmentsLoad(c: Class, swap: bool, e: Ehdr, i: nat, s: In, n: nat)
    requires i + n < e.phnum && !s.fail && |s.bytes| < 0x8000_0000_0000_0000
    requires forall k :: i <= k <= i + n ==> Slot(e.phoff, e.phentsize, k) + PhdrSize(c) <= |s.bytes|
    requires forall d :: 0 <= d < n ==> EndsInside(s.bytes, LoadSegments(c, swap, e, i, s).0[d])
    ensures SegmentAt(s.bytes, Slot(e.phoff, e.phentsize, i + n), c, !swap, LoadSegments(c, swap, e, i, s).0[n])
    decreases n
  {
    hide LoadSegment, SegmentAt, LoadSegments;
    var (l, s1) := LoadSegment(c, swap, s, Slot(e.phoff, e.phentsize, i));
    SegmentLoads(c, swap, s, Slot(e.phoff, e.phentsize, i));
    NextSegment(c, swap, e, i, s);
    var ls, rest := LoadSegments(c, swap, e, i, s).0, LoadSegments(c, swap, e, i + 1, s1).0;
    if n > 0 {
      assert EndsInside(s.bytes, ls[0]);
      forall d | 0 <= d < n - 1 ensures EndsInside(s.bytes, rest[d]) {
        assert rest[d] == ls[d + 1];
      }
      SegmentsLoad(c, swap, e, i + 1, s1, n - 1);
      assert rest[n - 1] == ls[n];
    }
  }

  predicate EndsInside(f: seq<byte>, l: LoadedSegment) { l.header.offset + l.header.filesz <= |f| }

  lemma NextSegment(c: Class, swap: bool, e: Ehdr, i: nat, s: In)
    requires i < e.phnum
    ensures var (l, s1) := LoadSegment(c, swap, s, Slot(e.phoff, e.phentsize, i));
            LoadSegments(c, swap, e, i, s).0 == [l] + LoadSegments(c, swap, e, i + 1, s1).0
  {
    hide LoadSegment;
    assert i * e.phentsize == e.phentsize * i;
  }

  // ---------------------------------------------------------------- section names

  /** The C string at position a of the file, cut off at b. */
  predicate StringAt(f: seq<byte>, a: nat, b: nat, n: seq<byte>) {
    && a + |n| <= b <= |f| && f[a..a + |n|] == n && 0 !in n
    && (a + |n| == b || f[a + |n|] == 0)
  }

  lemma StringInPart(f: seq<byte>, offset: nat, size: nat, k: nat)
    requires offset + size <= |f| && k < size
    ensures StringAt(f, offset + k, offset + size, CStr(f[offset..offset + size][k..]))
  {
    var s := f[offset..offset + size][k..];
    var n := CStr(s);
    assert s == f[offset + k..offset + size];
    assert n == s[..|n|] == f[offset + k..offset + k + |n|];
    if |n| < |s| {
      assert s[|n|] == f[offset + k + |n|];
    }
  }

  /** A section's name is the string at its name offset in the section that e_shstrndx names; there is
      none without such a section, or when the offset is not inside its data. */
  lemma NameLoads(f: seq<byte>, at: nat, c: Class, lsb: bool, e: Ehdr, ls: seq<Loaded>, i: nat)
    requires i < |ls|
    requires 0 < e.shstrndx < |ls| ==> SectionOf(f, at, c, lsb, ls[e.shstrndx]) && Whole(f, ls[e.shstrndx])
    ensures LoadedName(e, ls, i).Some? <==>
              && 0 < e.shstrndx < |ls|
              && var t := ls[e.shstrndx].header; t.stype != 0 && t.stype != 8 && ls[i].header.name < t.size < |f|
    ensures LoadedName(e, ls, i).Some? ==>
              var t := ls[e.shstrndx].header;
              StringAt(f, t.offset + ls[i].header.name, t.offset + t.size, LoadedName(e, ls, i).value)
  {
    hide CStr, ShdrAt, StringAt;
    if 0 < e.shstrndx < |ls| {
      var t := ls[e.shstrndx];
      if t.data.Some? && ls[i].header.name < t.header.size {
        StringInPart(f, t.header.offset, t.header.size, ls[i].header.name);
      }
    }
  }

  // ---------------------------------------------------------------- the whole file

  /** The tables and everything their records point to lie inside the file. */
  ghost predicate Complete(f: seq<byte>, c: Class, e: Ehdr, ls: seq<Loaded>, gs: seq<LoadedSegment>) {
    && |f| < 0x8000_0000_0000_0000
    && (forall k :: 0 <= k < e.shnum ==> Slot(e.shoff, e.shentsize, k) + ShdrSize(c) <= |f|)
    && (forall k :: 0 <= k < e.phnum ==> Slot(e.phoff, e.phentsize, k) + PhdrSize(c) <= |f|)
    && (forall i :: 0 <= i < |ls| ==> Whole(f, ls[i]))
    && (forall i :: 0 <= i < |gs| ==> EndsInside(f, gs[i]))
  }

  /** Loading any file, whoever wrote it: unless it is refused, all headers are read field by field from
      their places in the byte order the file names; and when the file is complete every section and
      segment gets the bytes its header points to. */
  lemma FileLoads(f: seq<byte>)
    requires !Refused(f)
    ensures var (c, swap, e, s) := LoadHeader(In(f, 0, false)).value;
            var (ls, s1) := LoadSections(c, swap, e, 0, s);
            var gs := LoadSegments(c, swap, e, 0, s1).0;
            && EhdrAt(f, c, e, f[5] == 1)
            && (Complete(f, c, e, ls, gs) ==>
                  && (forall i :: 0 <= i < |ls| ==> SectionOf(f, Slot(e.shoff, e.shentsize, i), c, f[5] == 1, ls[i]))
                  && (forall i :: 0 <= i < |gs| ==> SegmentAt(f, Slot(e.phoff, e.phentsize, i), c, f[5] == 1, gs[i])))
  {
    hide LoadHeader, LoadSections, LoadSegments, EhdrAt, SectionOf, SegmentAt, Whole, EndsInside, Refused;
    HeaderLoads(f);
    var (c, swap, e, s) := LoadHeader(In(f, 0, false)).value;
    var (ls, s1) := LoadSections(c, swap, e, 0, s);
    var gs := LoadSegments(c, swap, e, 0, s1).0;
    if Complete(f, c, e, ls, gs) {
      forall i | 0 <= i < |ls| ensures SectionOf(f, Slot(e.shoff, e.shentsize, i), c, f[5] == 1, ls[i]) {
        SectionsLoad(c, swap, e, 0, s, i);
      }
      AfterSections(c, swap, e, 0, s);
      forall i | 0 <= i < |gs| ensures SegmentAt(f, Slot(e.phoff, e.phentsize, i), c, f[5] == 1, gs[i]) {
        SegmentsLoad(c, swap, e, 0, s1, i);
      }
    }
  }
}
