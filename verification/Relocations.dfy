/** Relocation tables and the chain relocation -> symbol -> string (elfio_relocation.hpp). */
module Relocations {
  import opened Arith
  import opened Bytes
  import opened Options
  import opened Pack
  import opened ElfTypes
  import opened ElfSection
  import opened StringTable
  import opened SymbolTable

  // ---------------------------------------------------------------- info word

  /** ELF32_R_INFO and ELF64_R_INFO, as stored in a word of the class's width. */
  function RInfo(c: Class, symbol: nat, rtype: nat): nat {
    if c.Elf32? then (symbol * 256 + rtype % 256) % M32
    else (symbol * M32 + rtype % M32) % M64
  }

  function RSym(c: Class, info: nat): nat { if c.Elf32? then info / 256 else info / M32 }

  function RType(c: Class, info: nat): nat { if c.Elf32? then info % 256 else info % M32 }

  predicate SymbolInRange(c: Class, symbol: nat) {
    if c.Elf32? then symbol < 0x100_0000 else symbol < M32
  }

  lemma InfoUnpacks(c: Class, symbol: nat, rtype: byte)
    requires SymbolInRange(c, symbol)
    ensures RInfo(c, symbol, rtype) < c.Limit()
    ensures RSym(c, RInfo(c, symbol, rtype)) == symbol && RType(c, RInfo(c, symbol, rtype)) == rtype
  {
    PowValues();
    if c.Elf32? {
      assert symbol * 256 + rtype < M32;
      assert (symbol * 256 + rtype) / 256 == symbol;
    } else {
      assert symbol * M32 + rtype < M64;
      assert (symbol * M32 + rtype) / M32 == symbol;
    }
  }

  // ---------------------------------------------------------------- entries

  datatype Entry = Entry(offset: nat, symbol: nat, rtype: nat, addend: int)

  /** With an addend (RELA) the record has a third word. */
  function RelWidths(c: Class, rela: bool): (ws: seq<nat>)
    ensures Widths(ws) && |ws| == if rela then 3 else 2
  {
    var w := c.Wide();
    if rela then [w, w, w] else [w, w]
  }

  function RelSize(c: Class, rela: bool): (n: nat)
    ensures n > 0
  {
    c.Wide() * if rela then 3 else 2
  }

  lemma RelWidthsSize(c: Class, rela: bool)
    ensures Size(RelWidths(c, rela)) == RelSize(c, rela)
  {
    var w := c.Wide();
    assert [w][1..] == [] && Size([w]) == w;
    assert [w, w][1..] == [w] && Size([w, w]) == 2 * w;
    assert [w, w, w][1..] == [w, w];
  }

  function RelFields(c: Class, rela: bool, offset: nat, info: nat, addend: int): seq<nat> {
    [offset, info] + if rela then [Unsigned(addend, c.Wide())] else []
  }

  predicate RelFits(c: Class, offset: nat, info: nat) {
    offset < c.Limit() && info < c.Limit()
  }

  function RelImage(c: Class, swap: bool, rela: bool, offset: nat, info: nat, addend: int): (s: seq<byte>)
    requires RelFits(c, offset, info)
    ensures |s| == RelSize(c, rela)
  {
    RelWidthsSize(c, rela);
    Image(swap, RelFields(c, rela, offset, info, addend), RelWidths(c, rela))
  }

  function ReadRel(c: Class, swap: bool, rela: bool, s: seq<byte>): Entry
    requires |s| >= RelSize(c, rela)
  {
    RelWidthsSize(c, rela);
    var v := Fields(swap, s, RelWidths(c, rela));
    FieldsFit(swap, s, RelWidths(c, rela));
    assert rela ==> v[2] < Pow256(RelWidths(c, rela)[2]);
    Entry(v[0], RSym(c, v[1]), RType(c, v[1]), if rela then Signed(v[2], c.Wide()) else 0)
  }

  lemma RelRoundTrip(c: Class, swap: bool, rela: bool, offset: nat, info: nat, addend: int)
    requires RelFits(c, offset, info) && (rela ==> SignedFits(addend, c.Wide()))
    ensures ReadRel(c, swap, rela, RelImage(c, swap, rela, offset, info, addend))
            == Entry(offset, RSym(c, info), RType(c, info), if rela then addend else 0)
  {
    RelWidthsSize(c, rela);
    var s := RelImage(c, swap, rela, offset, info, addend);
    ImageRoundTrip(swap, RelFields(c, rela, offset, info, addend), RelWidths(c, rela), []);
    assert s + [] == s;
    if rela {
      SignedRoundTrip(addend, c.Wide());
    }
  }

  function AddEntry(c: Class, swap: bool, rela: bool, tab: seq<byte>, offset: nat, info: nat, addend: int): seq<byte>
    requires RelFits(c, offset, info)
  {
    tab + RelImage(c, swap, rela, offset, info, addend)
  }

  function GetEntry(c: Class, swap: bool, rela: bool, tab: seq<byte>, entsize: nat, i: nat): Option<Entry>
    requires entsize == 0 || entsize >= RelSize(c, rela)
  {
    if i < EntriesNum(|tab|, entsize) then
      EntryInside(|tab|, entsize, i);
      Some(ReadRel(c, swap, rela, tab[i * entsize..(i + 1) * entsize]))
    else None
  }

  /** An added entry reads back with its symbol, type and addend unpacked. */
  lemma AddedEntryReads(c: Class, swap: bool, rela: bool, tab: seq<byte>, offset: nat, symbol: nat, rtype: byte, addend: int)
    requires offset < c.Limit() && SymbolInRange(c, symbol) && (rela ==> SignedFits(addend, c.Wide()))
    requires |tab| % RelSize(c, rela) == 0
    ensures RInfo(c, symbol, rtype) < c.Limit()
    ensures var t := AddEntry(c, swap, rela, tab, offset, RInfo(c, symbol, rtype), addend);
            && |t| % RelSize(c, rela) == 0
            && GetEntry(c, swap, rela, t, RelSize(c, rela), |tab| / RelSize(c, rela))
               == Some(Entry(offset, symbol, rtype, if rela then addend else 0))
  {
    hide RelImage, ReadRel, RInfo, RSym, RType;
    InfoUnpacks(c, symbol, rtype);
    var n := RelSize(c, rela);
    var info := RInfo(c, symbol, rtype);
    var t := AddEntry(c, swap, rela, tab, offset, info, addend);
    var q := |tab| / n;
    assert |tab| == q * n && |t| == (q + 1) * n;
    Quotient(q + 1, n);
    assert t[q * n..(q + 1) * n] == RelImage(c, swap, rela, offset, info, addend);
    RelRoundTrip(c, swap, rela, offset, info, addend);
  }

  lemma GetEntryStable(c: Class, swap: bool, rela: bool, tab: seq<byte>, grown: seq<byte>, entsize: nat, i: nat)
    requires entsize >= RelSize(c, rela) && tab <= grown && i < EntriesNum(|tab|, entsize)
    ensures GetEntry(c, swap, rela, grown, entsize, i) == GetEntry(c, swap, rela, tab, entsize, i)
  {
    EntryInside(|tab|, entsize, i);
    DivMono(|tab|, |grown|, entsize);
    EntryInside(|grown|, entsize, i);
    assert grown[i * entsize..(i + 1) * entsize] == tab[i * entsize..(i + 1) * entsize];
  }

  // ---------------------------------------------------------------- three linked tables

  /** A string table, the symbol table linked to it and the REL table linked to that. */
  datatype Tables = Tables(str: seq<byte>, sym: seq<byte>, rel: seq<byte>)

  ghost predicate TablesOk(c: Class, t: Tables) {
    Terminated(t.str) && |t.sym| % SymSize(c) == 0 && |t.rel| % RelSize(c, false) == 0
  }

  /** What get_entry with symbol data reports. */
  datatype Resolved = Resolved(offset: nat, rtype: nat, addend: int, value: nat, name: Option<seq<byte>>)

  function Resolve(c: Class, swap: bool, t: Tables, i: nat): Option<Resolved> {
    match GetEntry(c, swap, false, t.rel, RelSize(c, false), i)
    case None => None
    case Some(e) =>
      match GetSymbol(c, swap, t.sym, SymSize(c), e.symbol)
      case None => None
      case Some(s) => Some(Resolved(e.offset, e.rtype, e.addend, s.value, GetString(t.str, s.name)))
  }

  /** Any addition a writer can make to the tables. */
  datatype Op =
    | AddStr(s: seq<byte>)
    | AddSym(sym: Sym)
    | AddRel(offset: nat, info: nat)
    | AddTriple(str: seq<byte>, sym: Sym, offset: nat, rtype: byte)

  /** The symbol of a triple takes its name offset from the string just added. */
  function TripleSym(t: Tables, op: Op): Sym
    requires op.AddTriple?
  {
    op.sym.(name := AddString(t.str, op.str).1)
  }

  predicate OpFits(c: Class, swap: bool, t: Tables, op: Op) {
    match op
    case AddStr(_) => true
    case AddSym(s) => SymFits(c, s)
    case AddRel(offset, info) => RelFits(c, offset, info)
    case AddTriple(_, _, offset, rtype) =>
      && offset < c.Limit()
      && SymFits(c, TripleSym(t, op))
      && SymbolInRange(c, AddSymbol(c, swap, t.sym, TripleSym(t, op)).1)
  }

  function Apply(c: Class, swap: bool, t: Tables, op: Op): Tables
    requires OpFits(c, swap, t, op)
  {
    match op
    case AddStr(s) => t.(str := AddString(t.str, s).0)
    case AddSym(s) => t.(sym := AddSymbol(c, swap, t.sym, s).0)
    case AddRel(offset, info) => t.(rel := AddEntry(c, swap, false, t.rel, offset, info, 0))
    case AddTriple(str, _, offset, rtype) =>
      var (sym, index) := AddSymbol(c, swap, t.sym, TripleSym(t, op));
      InfoUnpacks(c, index, rtype);
      Tables(AddString(t.str, str).0, sym, AddEntry(c, swap, false, t.rel, offset, RInfo(c, index, rtype), 0))
  }

  ghost predicate OpsFit(c: Class, swap: bool, t: Tables, ops: seq<Op>)
    decreases |ops|
  {
    ops == [] || (OpFits(c, swap, t, ops[0]) && OpsFit(c, swap, Apply(c, swap, t, ops[0]), ops[1..]))
  }

  ghost function ApplyAll(c: Class, swap: bool, t: Tables, ops: seq<Op>): Tables
    requires OpsFit(c, swap, t, ops)
    decreases |ops|
  {
    if ops == [] then t else ApplyAll(c, swap, Apply(c, swap, t, ops[0]), ops[1..])
  }

  lemma ApplyGrows(c: Class, swap: bool, t: Tables, op: Op)
    requires TablesOk(c, t) && OpFits(c, swap, t, op)
    ensures var u := Apply(c, swap, t, op);
            TablesOk(c, u) && t.str <= u.str && t.sym <= u.sym && t.rel <= u.rel
  {
    hide SymImage, RelImage, RInfo, AddString, AddSymbol, SymFits;
    match op
    case AddStr(s) => AddTerminates(t.str, s);
    case AddSym(s) => AddedSymbolReads(c, swap, t.sym, s);
    case AddRel(offset, info) => NextMultiple(|t.rel|, RelSize(c, false));
    case AddTriple(str, _, offset, rtype) =>
      AddTerminates(t.str, str);
      AddedSymbolReads(c, swap, t.sym, TripleSym(t, op));
      NextMultiple(|t.rel|, RelSize(c, false));
  }

  lemma {:induction false} AllGrow(c: Class, swap: bool, t: Tables, ops: seq<Op>)
    requires TablesOk(c, t) && OpsFit(c, swap, t, ops)
    ensures var u := ApplyAll(c, swap, t, ops);
            TablesOk(c, u) && t.str <= u.str && t.sym <= u.sym && t.rel <= u.rel
    decreases |ops|
  {
    if ops != [] {
      ApplyGrows(c, swap, t, ops[0]);
      AllGrow(c, swap, Apply(c, swap, t, ops[0]), ops[1..]);
    }
  }

  /** A resolved relocation stays what it is while the tables grow. */
  lemma ResolveStable(c: Class, swap: bool, t: Tables, u: Tables, i: nat)
    requires TablesOk(c, t) && t.str <= u.str && t.sym <= u.sym && t.rel <= u.rel
    requires Resolve(c, swap, t, i).Some? && Resolve(c, swap, t, i).value.name.Some?
    ensures Resolve(c, swap, u, i) == Resolve(c, swap, t, i)
  {
    GetEntryStable(c, swap, false, t.rel, u.rel, RelSize(c, false), i);
    var e := GetEntry(c, swap, false, t.rel, RelSize(c, false), i).value;
    GetSymbolStable(c, swap, t.sym, u.sym, SymSize(c), e.symbol);
    var s := GetSymbol(c, swap, t.sym, SymSize(c), e.symbol).value;
    GetStable(t.str, u.str, s.name);
  }

  /** Right after the addition the entry resolves to the triple. */
  lemma TripleResolves(c: Class, swap: bool, t: Tables, triple: Op)
    requires TablesOk(c, t) && triple.AddTriple? && OpFits(c, swap, t, triple)
    ensures Resolve(c, swap, Apply(c, swap, t, triple), |t.rel| / RelSize(c, false))
            == Some(Resolved(triple.offset, triple.rtype, 0, triple.sym.value, Some(CStr(triple.str))))
  {
    hide SymImage, RelImage, RInfo, AddString, ReadSym, ReadRel, AddSymbol, AddEntry, GetSymbol, GetEntry, GetString, CStr, SymFits;
    var sym := TripleSym(t, triple);
    AddThenGet(t.str, triple.str);
    AddedSymbolReads(c, swap, t.sym, sym);
    AddedEntryReads(c, swap, false, t.rel, triple.offset, AddSymbol(c, swap, t.sym, sym).1, triple.rtype, 0);
  }

  /** The linked tables round trip: after adding a (string, symbol, relocation) triple, and
      after any further additions to the three tables, the new relocation entry reads back
      the offset, type, symbol value and symbol name it was added with. */
  lemma TripleReadsBack(c: Class, swap: bool, t: Tables, triple: Op, further: seq<Op>)
    requires TablesOk(c, t) && triple.AddTriple? && OpsFit(c, swap, t, [triple] + further)
    ensures Resolve(c, swap, ApplyAll(c, swap, t, [triple] + further), |t.rel| / RelSize(c, false))
            == Some(Resolved(triple.offset, triple.rtype, 0, triple.sym.value, Some(CStr(triple.str))))
  {
    hide Resolve, Apply, OpFits, TablesOk, CStr;
    var ops := [triple] + further;
    assert ops[0] == triple && ops[1..] == further;
    var u := Apply(c, swap, t, triple);
    var i := |t.rel| / RelSize(c, false);
    TripleResolves(c, swap, t, triple);
    ApplyGrows(c, swap, t, triple);
    AllGrow(c, swap, u, further);
    ResolveStable(c, swap, u, ApplyAll(c, swap, u, further), i);
  }

  // ---------------------------------------------------------------- the accessor

  /** add_entry with symbol and type, without or with an addend. The section's type is not looked
      at, except that a NOBITS section takes no data. */
  method Add(rels: Section, swap: bool, rela: bool, offset: nat, symbol: nat, rtype: byte, addend: int)
    requires rels.Full() && (rels.header.stype != SHT_NOBITS ==> Room(rels.dataSize, RelSize(rels.cls, rela)))
    requires offset < rels.cls.Limit()
    modifies rels.Repr()
    ensures rels.Full() && fresh(rels.Repr() - old(rels.Repr()))
    ensures RInfo(rels.cls, symbol, rtype) < rels.cls.Limit()
    ensures rels.header == old(rels.header).(size := rels.header.size)
    ensures rels.header.stype != SHT_NOBITS ==>
              rels.Contents() == AddEntry(rels.cls, swap, rela, old(rels.Contents()), offset, RInfo(rels.cls, symbol, rtype), addend)
    ensures rels.header.stype == SHT_NOBITS ==> rels.Contents() == old(rels.Contents())
  {
    hide RelImage, RInfo, ShdrFits;
    InfoFits(rels.cls, symbol, rtype);
    SizeSmall(rels.cls, rela);
    rels.AppendData(RelImage(rels.cls, swap, rela, offset, RInfo(rels.cls, symbol, rtype), addend));
  }

  lemma InfoFits(c: Class, symbol: nat, rtype: nat)
    ensures RInfo(c, symbol, rtype) < c.Limit()
  {}

  lemma SizeSmall(c: Class, rela: bool)
    ensures RelSize(c, rela) <= 24
  {}

  lemma EntryAt(c: Class, swap: bool, rela: bool, tab: seq<byte>, entsize: nat, i: nat)
    requires entsize == 0 || entsize >= RelSize(c, rela)
    ensures i >= EntriesNum(|tab|, entsize) ==> GetEntry(c, swap, rela, tab, entsize, i) == None
    ensures i < EntriesNum(|tab|, entsize) ==>
              && i * entsize + RelSize(c, rela) <= i * entsize + entsize <= |tab|
              && GetEntry(c, swap, rela, tab, entsize, i) == Some(ReadRel(c, swap, rela, tab[i * entsize..i * entsize + entsize]))
  {
    hide ReadRel;
    if i < EntriesNum(|tab|, entsize) {
      EntryInside(|tab|, entsize, i);
    }
  }

  /** get_entry: the section's type tells whether the records carry an addend. For a section of
      another type it succeeds and leaves what it was given. */
  method Get(rels: Section, swap: bool, i: nat, entry0: Entry) returns (ok: bool, entry: Entry)
    requires rels.Valid()
    requires rels.header.stype in {SHT_REL, SHT_RELA} ==>
               rels.Full() && (rels.header.entsize == 0 || rels.header.entsize >= RelSize(rels.cls, rels.header.stype == SHT_RELA))
    ensures ok <==> i < EntriesNum(rels.header.size, rels.header.entsize)
    ensures ok && rels.header.stype in {SHT_REL, SHT_RELA} ==>
              GetEntry(rels.cls, swap, rels.header.stype == SHT_RELA, rels.Contents(), rels.header.entsize, i) == Some(entry)
    ensures !ok || rels.header.stype !in {SHT_REL, SHT_RELA} ==> entry == entry0
  {
    hide ReadRel, GetEntry, EntriesNum, RelSize, ShdrFits;
    ok, entry := false, entry0;
    if i >= EntriesNum(rels.header.size, rels.header.entsize) {
      return;
    }
    ok := true;
    if rels.header.stype == SHT_REL {
      entry := ReadEntry(rels, swap, false, i);
    } else if rels.header.stype == SHT_RELA {
      entry := ReadEntry(rels, swap, true, i);
    }
  }

  /** generic_get_entry_rel and generic_get_entry_rela. */
  method ReadEntry(rels: Section, swap: bool, rela: bool, i: nat) returns (entry: Entry)
    requires rels.Full() && rels.header.stype != SHT_NOBITS
    requires rels.header.entsize == 0 || rels.header.entsize >= RelSize(rels.cls, rela)
    requires i < EntriesNum(rels.header.size, rels.header.entsize)
    ensures GetEntry(rels.cls, swap, rela, rels.Contents(), rels.header.entsize, i) == Some(entry)
  {
    hide ReadRel, GetEntry, EntriesNum, RelSize, ShdrFits;
    var entsize := rels.header.entsize;
    var tab := if rels.data == null then [] else rels.data[..rels.header.size];
    assert tab == rels.Contents() && |tab| == rels.header.size;
    EntryAt(rels.cls, swap, rela, tab, entsize, i);
    var at := i * entsize;
    entry := ReadRel(rels.cls, swap, rela, tab[at..at + entsize]);
  }

  /** The overload of add_entry that adds a string, its symbol and the relocation. */
  method AddLinked(strings: Section, symbols: Section, rels: Section, swap: bool,
                   str: seq<byte>, sym: Sym, offset: nat, rtype: byte)
    requires strings.Full() && symbols.Full() && rels.Full()
    requires strings.Repr() !! symbols.Repr() !! rels.Repr()
    requires strings.cls == symbols.cls == rels.cls
    requires strings.header.stype != SHT_NOBITS && symbols.header.stype != SHT_NOBITS && rels.header.stype != SHT_NOBITS
    requires Room(strings.dataSize, |str|) && Room(symbols.dataSize, 2 * SymSize(symbols.cls))
    requires Room(rels.dataSize, RelSize(rels.cls, false))
    requires OpFits(rels.cls, swap, Tables(strings.Contents(), symbols.Contents(), rels.Contents()),
                    AddTriple(str, sym, offset, rtype))
    modifies strings.Repr(), symbols.Repr(), rels.Repr()
    ensures strings.Full() && symbols.Full() && rels.Full()
    ensures Tables(strings.Contents(), symbols.Contents(), rels.Contents())
         == Apply(rels.cls, swap, old(Tables(strings.Contents(), symbols.Contents(), rels.Contents())),
                  AddTriple(str, sym, offset, rtype))
  {
    hide SymImage, RelImage, AddString, AddSymbol, SymFits, RInfo, ShdrFits;
    ghost var t := Tables(strings.Contents(), symbols.Contents(), rels.Contents());
    ghost var op := AddTriple(str, sym, offset, rtype);
    var c := rels.cls;
    var strIndex := StringTable.Add(strings, str);
    assert sym.(name := strIndex) == TripleSym(t, op);
    var symIndex := SymbolTable.Add(symbols, swap, sym.(name := strIndex));
    Add(rels, swap, false, offset, symIndex, rtype, 0);
  }
}
