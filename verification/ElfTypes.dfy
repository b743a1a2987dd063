/** Constants and record layouts of elf_types.hpp that the writer depends on. */
module ElfTypes {
  import opened Bytes
  import opened Pack

  const SHT_NULL: nat := 0
  const SHT_STRTAB: nat := 3
  const SHT_RELA: nat := 4
  const SHT_NOBITS: nat := 8
  const SHT_REL: nat := 9
  const PT_NULL: nat := 0
  const PT_PHDR: nat := 6
  const PT_TLS: nat := 7
  const STN_UNDEF: nat := 0
  const SHN_UNDEF: nat := 0

  /** Flag tests: bit 0x2 is SHF_ALLOC, bit 0x400 is SHF_TLS. */
  predicate Alloc(flags: nat) { flags / 0x2 % 2 == 1 }
  predicate Tls(flags: nat) { flags / 0x400 % 2 == 1 }

  datatype Class = Elf32 | Elf64 {
    /** Width of an address, offset or extended word. */
    function Wide(): (w: nat)
      ensures Width(w)
    {
      if Elf32? then 4 else 8
    }

    /** One more than the largest value such a field holds. */
    function Limit(): (m: nat)
      ensures m == Pow256(Wide())
      ensures 0 < m <= M64
    {
      PowValues();
      if Elf32? then M32 else M64
    }
  }

  // ---------------------------------------------------------------- section header

  datatype Shdr = Shdr(name: nat, stype: nat, flags: nat, addr: nat, offset: nat, size: nat,
                       link: nat, info: nat, addralign: nat, entsize: nat)

  const ZERO_SHDR := Shdr(0, 0, 0, 0, 0, 0, 0, 0, 0, 0)

  function ShdrWidths(c: Class): (ws: seq<nat>)
    ensures Widths(ws) && |ws| == 10
  {
    var w := c.Wide();
    [4, 4, w, w, w, w, 4, 4, w, w]
  }

  function ShdrFields(h: Shdr): seq<nat> {
    [h.name, h.stype, h.flags, h.addr, h.offset, h.size, h.link, h.info, h.addralign, h.entsize]
  }

  function ShdrOf(v: seq<nat>): Shdr
    requires |v| == 10
  {
    Shdr(v[0], v[1], v[2], v[3], v[4], v[5], v[6], v[7], v[8], v[9])
  }

  predicate ShdrFits(c: Class, h: Shdr) { Fits(ShdrFields(h), ShdrWidths(c)) }

  // ---------------------------------------------------------------- program header

  datatype Phdr = Phdr(ptype: nat, flags: nat, offset: nat, vaddr: nat, paddr: nat,
                       filesz: nat, memsz: nat, align: nat)

  function PhdrWidths(c: Class): (ws: seq<nat>)
    ensures Widths(ws) && |ws| == 8
  {
    var w := c.Wide();
    if c.Elf32? then [4, 4, 4, 4, 4, 4, 4, 4] else [4, 4, 8, 8, 8, 8, 8, 8]
  }

  /** The flags word stands second in the 64-bit record and seventh in the 32-bit one. */
  function PhdrFields(c: Class, h: Phdr): seq<nat> {
    if c.Elf32? then [h.ptype, h.offset, h.vaddr, h.paddr, h.filesz, h.memsz, h.flags, h.align]
    else [h.ptype, h.flags, h.offset, h.vaddr, h.paddr, h.filesz, h.memsz, h.align]
  }

  function PhdrOf(c: Class, v: seq<nat>): Phdr
    requires |v| == 8
  {
    if c.Elf32? then Phdr(v[0], v[6], v[1], v[2], v[3], v[4], v[5], v[7])
    else Phdr(v[0], v[1], v[2], v[3], v[4], v[5], v[6], v[7])
  }

  predicate PhdrFits(c: Class, h: Phdr) { Fits(PhdrFields(c, h), PhdrWidths(c)) }

  // ---------------------------------------------------------------- file header

  const EI_NIDENT: nat := 16
  const EI_CLASS: nat := 4
  const EI_DATA: nat := 5
  const ELFCLASS32: byte := 1
  const ELFCLASS64: byte := 2
  const ELFDATA2LSB: byte := 1

  /** ident is the sixteen-byte e_ident array. */
  datatype Ehdr = Ehdr(ident: seq<byte>, etype: nat, machine: nat, version: nat, entry: nat,
                       phoff: nat, shoff: nat, flags: nat, ehsize: nat, phentsize: nat,
                       phnum: nat, shentsize: nat, shnum: nat, shstrndx: nat)

  const IDENT_WIDTHS: seq<nat> := [1, 1, 1, 1, 1, 1, 1, 1, 1, 1, 1, 1, 1, 1, 1, 1]

  function EhdrWidths(c: Class): (ws: seq<nat>)
    ensures Widths(ws) && |ws| == 29
  {
    var w := c.Wide();
    IDENT_WIDTHS + [2, 2, 4, w, w, w, 4, 2, 2, 2, 2, 2, 2]
  }

  function EhdrFields(h: Ehdr): seq<nat> {
    seq(|h.ident|, k requires 0 <= k < |h.ident| => h.ident[k] as nat)
    + [h.etype, h.machine, h.version, h.entry, h.phoff, h.shoff, h.flags, h.ehsize, h.phentsize,
       h.phnum, h.shentsize, h.shnum, h.shstrndx]
  }

  function EhdrOf(v: seq<nat>): Ehdr
    requires |v| == 29
    requires forall k :: 0 <= k < EI_NIDENT ==> v[k] < 256
  {
    Ehdr(seq(EI_NIDENT, k requires 0 <= k < EI_NIDENT => v[k] as byte),
         v[16], v[17], v[18], v[19], v[20], v[21], v[22], v[23], v[24], v[25], v[26], v[27], v[28])
  }

  predicate EhdrFits(c: Class, h: Ehdr) {
    |h.ident| == EI_NIDENT && Fits(EhdrFields(h), EhdrWidths(c))
  }

  /** Magic number and class byte, as load tests them. */
  predicate IdentOk(c: Class, ident: seq<byte>) {
    |ident| == EI_NIDENT && ident[..4] == [0x7f, 0x45, 0x4c, 0x46]
    && ident[EI_CLASS] == (if c.Elf32? then ELFCLASS32 else ELFCLASS64)
  }

  /** The convertor is set up to swap when the file's encoding is not the (little-endian) host's. */
  predicate Swapped(ident: seq<byte>) {
    |ident| == EI_NIDENT && ident[EI_DATA] != ELFDATA2LSB
  }

  lemma EhdrSmall(c: Class, h: Ehdr)
    requires EhdrFits(c, h)
    ensures h.ehsize < M16 && h.phentsize < M16 && h.shentsize < M16 && h.phnum < M16 && h.shnum < M16
  {
    PowValues();
    assert EhdrFields(h)[25] < Pow256(EhdrWidths(c)[25]);
    assert EhdrFields(h)[27] < Pow256(EhdrWidths(c)[27]);
    assert EhdrFields(h)[23] < Pow256(EhdrWidths(c)[23]);
    assert EhdrFields(h)[24] < Pow256(EhdrWidths(c)[24]);
    assert EhdrFields(h)[26] < Pow256(EhdrWidths(c)[26]);
  }

  /** Setting the table fields keeps a header that fits. */
  lemma EhdrKeepsFitting(c: Class, h: Ehdr, phnum: nat, phoff: nat, shnum: nat, shoff: nat)
    requires EhdrFits(c, h) && phnum < M16 && shnum < M16 && phoff < c.Limit() && shoff < c.Limit()
    ensures EhdrFits(c, h.(phnum := phnum, phoff := phoff, shnum := shnum, shoff := shoff))
  {
    PowValues();
    var g := h.(phnum := phnum, phoff := phoff, shnum := shnum, shoff := shoff);
    forall k | 0 <= k < 29 ensures EhdrFields(g)[k] < Pow256(EhdrWidths(c)[k]) {
      assert EhdrFields(h)[k] < Pow256(EhdrWidths(c)[k]);
      assert k !in {20, 21, 25, 27} ==> EhdrFields(g)[k] == EhdrFields(h)[k];
    }
  }

  // ---------------------------------------------------------------- record sizes

  function ShdrSize(c: Class): nat { if c.Elf32? then 40 else 64 }
  function PhdrSize(c: Class): nat { if c.Elf32? then 32 else 56 }
  function EhdrSize(c: Class): nat { if c.Elf32? then 52 else 64 }

  lemma {:induction false} SizeAppend(a: seq<nat>, b: seq<nat>)
    ensures Size(a + b) == Size(a) + Size(b)
  {
    if a == [] {
      assert a + b == b;
    } else {
      assert (a + b)[1..] == a[1..] + b;
      SizeAppend(a[1..], b);
    }
  }

  lemma Size4(a: nat, b: nat, c: nat, d: nat)
    ensures Size([a, b, c, d]) == a + b + c + d
  {
    assert [d][1..] == [] && Size([d]) == d + Size([d][1..]) == d;
    assert [c, d][1..] == [d] && Size([c, d]) == c + Size([c, d][1..]) == c + d;
    assert [b, c, d][1..] == [c, d] && Size([b, c, d]) == b + Size([b, c, d][1..]) == b + c + d;
    assert [a, b, c, d][1..] == [b, c, d];
  }

  lemma ShdrWidthsSize(c: Class)
    ensures Size(ShdrWidths(c)) == ShdrSize(c)
  {
    var w := c.Wide();
    Size4(4, 4, w, w); Size4(w, w, 4, 4);
    assert [w, w][1..] == [w] && [w][1..] == [] && Size([w]) == w && Size([w, w]) == 2 * w;
    SizeAppend([w, w, 4, 4], [w, w]);
    SizeAppend([4, 4, w, w], [w, w, 4, 4] + [w, w]);
    assert ShdrWidths(c) == [4, 4, w, w] + ([w, w, 4, 4] + [w, w]);
  }

  lemma PhdrWidthsSize(c: Class)
    ensures Size(PhdrWidths(c)) == PhdrSize(c)
  {
    Size4(4, 4, 4, 4); Size4(4, 4, 8, 8); Size4(8, 8, 8, 8);
    SizeAppend([4, 4, 4, 4], [4, 4, 4, 4]);
    SizeAppend([4, 4, 8, 8], [8, 8, 8, 8]);
    assert PhdrWidths(c) == if c.Elf32? then [4, 4, 4, 4] + [4, 4, 4, 4] else [4, 4, 8, 8] + [8, 8, 8, 8];
  }

  lemma IdentWidthsSize()
    ensures Size(IDENT_WIDTHS) == EI_NIDENT
  {
    var four := [1, 1, 1, 1];
    Size4(1, 1, 1, 1);
    SizeAppend(four, four);
    SizeAppend(four + four, four + four);
    assert IDENT_WIDTHS == (four + four) + (four + four);
  }

  lemma EhdrTailSize(w: nat)
    ensures Size([2, 2, 4, w, w, w, 4, 2, 2, 2, 2, 2, 2]) == 24 + 3 * w
  {
    var a, b, c := [2, 2, 4, w], [w, w, 4, 2], [2, 2, 2, 2];
    Size4(2, 2, 4, w); Size4(w, w, 4, 2); Size4(2, 2, 2, 2);
    assert [2][1..] == [] && Size([2]) == 2;
    SizeAppend(c, [2]);
    SizeAppend(b, c + [2]);
    SizeAppend(a, b + (c + [2]));
    assert [2, 2, 4, w, w, w, 4, 2, 2, 2, 2, 2, 2] == a + (b + (c + [2]));
  }

  lemma EhdrWidthsSize(c: Class)
    ensures Size(EhdrWidths(c)) == EhdrSize(c)
  {
    var w := c.Wide();
    IdentWidthsSize();
    EhdrTailSize(w);
    SizeAppend(IDENT_WIDTHS, [2, 2, 4, w, w, w, 4, 2, 2, 2, 2, 2, 2]);
  }

  /** The sizes of the structs are the sums of their field widths. */
  lemma RecordSizes(c: Class)
    ensures Size(ShdrWidths(c)) == ShdrSize(c)
    ensures Size(PhdrWidths(c)) == PhdrSize(c)
    ensures Size(EhdrWidths(c)) == EhdrSize(c)
  {
    ShdrWidthsSize(c);
    PhdrWidthsSize(c);
    EhdrWidthsSize(c);
  }

  // ---------------------------------------------------------------- file images

  function ShdrImage(c: Class, swap: bool, h: Shdr): (s: seq<byte>)
    requires ShdrFits(c, h)
    ensures |s| == ShdrSize(c)
  {
    RecordSizes(c);
    Image(swap, ShdrFields(h), ShdrWidths(c))
  }

  function ReadShdr(c: Class, swap: bool, s: seq<byte>): Shdr
    requires |s| >= ShdrSize(c)
  {
    RecordSizes(c);
    ShdrOf(Fields(swap, s, ShdrWidths(c)))
  }

  function PhdrImage(c: Class, swap: bool, h: Phdr): (s: seq<byte>)
    requires PhdrFits(c, h)
    ensures |s| == PhdrSize(c)
  {
    RecordSizes(c);
    Image(swap, PhdrFields(c, h), PhdrWidths(c))
  }

  function ReadPhdr(c: Class, swap: bool, s: seq<byte>): Phdr
    requires |s| >= PhdrSize(c)
  {
    RecordSizes(c);
    PhdrOf(c, Fields(swap, s, PhdrWidths(c)))
  }

  function EhdrImage(c: Class, swap: bool, h: Ehdr): (s: seq<byte>)
    requires EhdrFits(c, h)
    ensures |s| == EhdrSize(c)
  {
    RecordSizes(c);
    Image(swap, EhdrFields(h), EhdrWidths(c))
  }

  function ReadEhdr(c: Class, swap: bool, s: seq<byte>): Ehdr
    requires |s| >= EhdrSize(c)
  {
    RecordSizes(c);
    FieldsFit(swap, s, EhdrWidths(c));
    PowValues();
    var v := Fields(swap, s, EhdrWidths(c));
    assert forall k :: 0 <= k < EI_NIDENT ==> v[k] < Pow256(EhdrWidths(c)[k]) == 256;
    EhdrOf(v)
  }

  /** The record and its field values stand for each other. */
  lemma FieldsOfEhdr(v: seq<nat>)
    requires |v| == 29 && forall k :: 0 <= k < EI_NIDENT ==> v[k] < 256
    ensures EhdrFields(EhdrOf(v)) == v && |EhdrOf(v).ident| == EI_NIDENT
  {
    var h := EhdrOf(v);
    var rest := [h.etype, h.machine, h.version, h.entry, h.phoff, h.shoff, h.flags, h.ehsize, h.phentsize,
                 h.phnum, h.shentsize, h.shnum, h.shstrndx];
    assert rest == v[16..];
    assert EhdrFields(h)[..16] == v[..16];
    assert EhdrFields(h)[16..] == rest;
    assert v == v[..16] + v[16..];
  }

  lemma EhdrRead(c: Class, swap: bool, s: seq<byte>)
    requires |s| >= EhdrSize(c)
    ensures Size(EhdrWidths(c)) <= |s| && Fits(Fields(swap, s, EhdrWidths(c)), EhdrWidths(c))
    ensures forall k :: 0 <= k < EI_NIDENT ==> Fields(swap, s, EhdrWidths(c))[k] == s[k]
    ensures ReadEhdr(c, swap, s) == EhdrOf(Fields(swap, s, EhdrWidths(c)))
  {
    hide Fields, Size, EhdrOf;
    RecordSizes(c);
    FieldsFit(swap, s, EhdrWidths(c));
    forall k | 0 <= k < EI_NIDENT ensures Fields(swap, s, EhdrWidths(c))[k] == s[k] {
      BytesRead(swap, s, EhdrWidths(c), EI_NIDENT, k);
    }
  }

  /** A header read from any bytes fits its class and has the identification bytes it was read from. */
  lemma EhdrReads(c: Class, swap: bool, s: seq<byte>)
    requires |s| >= EhdrSize(c)
    ensures EhdrFits(c, ReadEhdr(c, swap, s)) && ReadEhdr(c, swap, s).ident == s[..EI_NIDENT]
  {
    hide Fields, Size, EhdrOf, EhdrFields, EhdrWidths, ReadEhdr;
    EhdrRead(c, swap, s);
    var v := Fields(swap, s, EhdrWidths(c));
    FieldsOfEhdr(v);
    IdentOf(v, s);
  }

  lemma IdentOf(v: seq<nat>, s: seq<byte>)
    requires |v| == 29 && |s| >= EI_NIDENT && forall k :: 0 <= k < EI_NIDENT ==> v[k] == s[k]
    ensures EhdrOf(v).ident == s[..EI_NIDENT]
  {}

  lemma ShdrRoundTrip(c: Class, swap: bool, h: Shdr)
    requires ShdrFits(c, h)
    ensures ReadShdr(c, swap, ShdrImage(c, swap, h)) == h
  {
    hide Image, Fields, Size;
    RecordSizes(c);
    ImageRoundTrip(swap, ShdrFields(h), ShdrWidths(c), []);
    assert ShdrImage(c, swap, h) + [] == ShdrImage(c, swap, h);
  }

  lemma PhdrRoundTrip(c: Class, swap: bool, h: Phdr)
    requires PhdrFits(c, h)
    ensures ReadPhdr(c, swap, PhdrImage(c, swap, h)) == h
  {
    hide Image, Fields, Size;
    RecordSizes(c);
    ImageRoundTrip(swap, PhdrFields(c, h), PhdrWidths(c), []);
    assert PhdrImage(c, swap, h) + [] == PhdrImage(c, swap, h);
  }

  lemma EhdrRoundTrip(c: Class, swap: bool, h: Ehdr)
    requires EhdrFits(c, h)
    ensures ReadEhdr(c, swap, EhdrImage(c, swap, h)) == h
  {
    hide Image, Fields, Size;
    RecordSizes(c);
    ImageRoundTrip(swap, EhdrFields(h), EhdrWidths(c), []);
    assert EhdrImage(c, swap, h) + [] == EhdrImage(c, swap, h);
    var v := EhdrFields(h);
    assert ReadEhdr(c, swap, EhdrImage(c, swap, h)).ident == h.ident;
  }
}
