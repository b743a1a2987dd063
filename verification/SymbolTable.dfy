/** Symbol tables, and lookup by name through a System V hash table (elfio_symbols.hpp). */
module SymbolTable {
  import opened Arith
  import opened Bytes
  import opened Endian
  import opened Options
  import opened Pack
  import opened ElfTypes
  import opened ElfSection
  import opened StringTable

  // ---------------------------------------------------------------- records

  datatype Sym = Sym(name: nat, value: nat, size: nat, info: nat, other: nat, shndx: nat)

  const NULL_SYM := Sym(0, 0, 0, 0, 0, 0)

  function SymWidths(c: Class): (ws: seq<nat>)
    ensures Widths(ws) && |ws| == 6
  {
    if c.Elf32? then [4, 4, 4, 1, 1, 2] else [4, 1, 1, 2, 8, 8]
  }

  function SymFields(c: Class, s: Sym): seq<nat> {
    if c.Elf32? then [s.name, s.value, s.size, s.info, s.other, s.shndx]
    else [s.name, s.info, s.other, s.shndx, s.value, s.size]
  }

  function SymOf(c: Class, v: seq<nat>): Sym
    requires |v| == 6
  {
    if c.Elf32? then Sym(v[0], v[1], v[2], v[3], v[4], v[5]) else Sym(v[0], v[4], v[5], v[1], v[2], v[3])
  }

  predicate SymFits(c: Class, s: Sym) { Fits(SymFields(c, s), SymWidths(c)) }

  function SymSize(c: Class): (n: nat)
    ensures n > 0
  {
    if c.Elf32? then 16 else 24
  }

  lemma SymWidthsSize(c: Class)
    ensures Size(SymWidths(c)) == SymSize(c)
  {
    var ws := SymWidths(c);
    assert ws == ws[..4] + ws[4..];
    SizeAppend(ws[..4], ws[4..]);
    Size4(ws[0], ws[1], ws[2], ws[3]);
    assert ws[..4] == [ws[0], ws[1], ws[2], ws[3]];
    assert ws[4..] == [ws[4], ws[5]] && ws[4..][1..] == [ws[5]] && [ws[5]][1..] == [];
    assert Size([ws[5]]) == ws[5];
  }

  function SymImage(c: Class, swap: bool, s: Sym): (b: seq<byte>)
    requires SymFits(c, s)
    ensures |b| == SymSize(c)
  {
    SymWidthsSize(c);
    Image(swap, SymFields(c, s), SymWidths(c))
  }

  function ReadSym(c: Class, swap: bool, b: seq<byte>): Sym
    requires |b| >= SymSize(c)
  {
    SymWidthsSize(c);
    SymOf(c, Fields(swap, b, SymWidths(c)))
  }

  lemma SymRoundTrip(c: Class, swap: bool, s: Sym, rest: seq<byte>)
    requires SymFits(c, s)
    ensures ReadSym(c, swap, SymImage(c, swap, s) + rest) == s
  {
    SymWidthsSize(c);
    ImageRoundTrip(swap, SymFields(c, s), SymWidths(c), rest);
  }

  lemma NullSymFits(c: Class)
    ensures SymFits(c, NULL_SYM)
  {
    PowValues();
  }

  /** ELF_ST_INFO, ELF_ST_BIND and ELF_ST_TYPE. */
  function StInfo(bind: byte, symType: byte): byte { (bind * 16 + symType % 16) % 256 }
  function StBind(info: nat): nat { info / 16 }
  function StType(info: nat): nat { info % 16 }

  lemma InfoRoundTrip(bind: byte, symType: byte)
    requires bind < 16 && symType < 16
    ensures StInfo(bind, symType) == 16 * bind + symType
    ensures StBind(StInfo(bind, symType)) == bind && StType(StInfo(bind, symType)) == symType
  {}

  // ---------------------------------------------------------------- add and get by index

  /** The table after adding s, and the index of s; an empty table first gets the null symbol. */
  function AddSymbol(c: Class, swap: bool, tab: seq<byte>, s: Sym): (seq<byte>, nat)
    requires SymFits(c, s)
  {
    NullSymFits(c);
    var t := (if tab == [] then SymImage(c, swap, NULL_SYM) else tab) + SymImage(c, swap, s);
    (t, |t| / SymSize(c) - 1)
  }

  function EntriesNum(size: nat, entsize: nat): nat {
    if entsize == 0 then 0 else size / entsize
  }

  /** Entry i lies inside the table. */
  lemma EntryInside(size: nat, entsize: nat, i: nat)
    requires i < EntriesNum(size, entsize)
    ensures (i + 1) * entsize <= size && i * entsize + entsize == (i + 1) * entsize
  {
    assert size == size / entsize * entsize + size % entsize;
    assert (i + 1) * entsize <= size / entsize * entsize by { MulMono(i + 1, size / entsize, entsize); }
  }

  function GetSymbol(c: Class, swap: bool, tab: seq<byte>, entsize: nat, i: nat): Option<Sym>
    requires entsize == 0 || entsize >= SymSize(c)
  {
    if i < EntriesNum(|tab|, entsize) then
      EntryInside(|tab|, entsize, i);
      Some(ReadSym(c, swap, tab[i * entsize..(i + 1) * entsize]))
    else None
  }

  lemma AddedSymbolReads(c: Class, swap: bool, tab: seq<byte>, s: Sym)
    requires SymFits(c, s) && |tab| % SymSize(c) == 0
    ensures var (t, i) := AddSymbol(c, swap, tab, s);
            && tab <= t && |t| % SymSize(c) == 0
            && GetSymbol(c, swap, t, SymSize(c), i) == Some(s)
            && i > 0 && i == (if tab == [] then 1 else |tab| / SymSize(c))
  {
    hide SymImage, SymFits, ReadSym;
    var n := SymSize(c);
    var (t, i) := AddSymbol(c, swap, tab, s);
    NullSymFits(c);
    var base := if tab == [] then SymImage(c, swap, NULL_SYM) else tab;
    var q := |base| / n;
    assert |base| == q * n;
    assert |t| == (q + 1) * n;
    Quotient(q + 1, n);
    assert i == q;
    assert t[i * n..(i + 1) * n] == SymImage(c, swap, s) + [];
    SymRoundTrip(c, swap, s, []);
  }

  lemma GetSymbolStable(c: Class, swap: bool, tab: seq<byte>, grown: seq<byte>, entsize: nat, i: nat)
    requires entsize >= SymSize(c) && tab <= grown && i < EntriesNum(|tab|, entsize)
    ensures GetSymbol(c, swap, grown, entsize, i) == GetSymbol(c, swap, tab, entsize, i)
  {
    EntryInside(|tab|, entsize, i);
    DivMono(|tab|, |grown|, entsize);
    EntryInside(|grown|, entsize, i);
    assert grown[i * entsize..(i + 1) * entsize] == tab[i * entsize..(i + 1) * entsize];
  }

  /** Adds a symbol to the table's section. */
  method Add(table: Section, swap: bool, s: Sym) returns (i: nat)
    requires table.Full() && table.header.stype != SHT_NOBITS && SymFits(table.cls, s)
    requires Room(table.dataSize, 2 * SymSize(table.cls))
    modifies table.Repr()
    ensures table.Full() && fresh(table.Repr() - old(table.Repr()))
    ensures (table.Contents(), i) == AddSymbol(table.cls, swap, old(table.Contents()), s)
    ensures table.header == old(table.header).(size := |table.Contents()|)
  {
    hide SymImage, SymFits, Append;
    var c := table.cls;
    NullSymFits(c);
    ghost var before := table.Contents();
    if table.header.size == 0 {
      table.AppendData(SymImage(c, swap, NULL_SYM));
    }
    ghost var base := table.Contents();
    assert base == if before == [] then SymImage(c, swap, NULL_SYM) else before;
    table.AppendData(SymImage(c, swap, s));
    assert table.Contents() == base + SymImage(c, swap, s);
    i := table.header.size / SymSize(c) - 1;
  }
}
