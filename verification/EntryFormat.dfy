/** The bytes of table entries: symbols, relocations and notes, field by field. */
module EntryFormat {
  import opened Arith
  import opened Bytes
  import opened Endian
  import opened Options
  import opened Pack
  import opened Records
  import opened ElfTypes
  import opened SymbolTable
  import opened Relocations
  import opened Notes

  // ---------------------------------------------------------------- the records of the format

  /** Elf32_Sym and Elf64_Sym. */
  predicate SymAt(f: seq<byte>, at: nat, c: Class, s: Sym, lsb: bool) {
    && At(f, at, s.name, 4, lsb)
    && if c.Elf32? then
         && At(f, at + 4, s.value, 4, lsb) && At(f, at + 8, s.size, 4, lsb)
         && At(f, at + 12, s.info, 1, lsb) && At(f, at + 13, s.other, 1, lsb) && At(f, at + 14, s.shndx, 2, lsb)
       else
         && At(f, at + 4, s.info, 1, lsb) && At(f, at + 5, s.other, 1, lsb) && At(f, at + 6, s.shndx, 2, lsb)
         && At(f, at + 8, s.value, 8, lsb) && At(f, at + 16, s.size, 8, lsb)
  }

  /** Elf32_Rel, Elf32_Rela, Elf64_Rel and Elf64_Rela: the symbol stands above the type in the info
      word, and a negative addend in two's complement. */
  predicate RelAt(f: seq<byte>, at: nat, c: Class, rela: bool, offset: nat, symbol: nat, rtype: nat, addend: int, lsb: bool)
    requires rela ==> SignedFits(addend, c.Wide())
  {
    PowValues();
    if c.Elf32? then
      && At(f, at, offset, 4, lsb) && At(f, at + 4, symbol * 0x100 + rtype, 4, lsb)
      && (rela ==> At(f, at + 8, if addend < 0 then addend + M32 else addend, 4, lsb))
    else
      && At(f, at, offset, 8, lsb) && At(f, at + 8, symbol * M32 + rtype, 8, lsb)
      && (rela ==> At(f, at + 16, if addend < 0 then addend + M64 else addend, 8, lsb))
  }

  /** A note: three words, the name with its terminator, and the description, each padded with zeros
      to a multiple of four. */
  predicate NoteAt(f: seq<byte>, at: nat, n: Note, lsb: bool) {
    var desc := at + 12 + RoundedUp(|n.name| + 1);
    && At(f, at, |n.name| + 1, 4, lsb) && At(f, at + 4, |n.desc|, 4, lsb) && At(f, at + 8, n.ntype, 4, lsb)
    && desc + RoundedUp(|n.desc|) <= |f|
    && f[at + 12..at + 12 + |n.name|] == n.name && ZerosAt(f, at + 12 + |n.name|, desc)
    && f[desc..desc + |n.desc|] == n.desc && ZerosAt(f, desc + |n.desc|, desc + RoundedUp(|n.desc|))
  }

  /** The multiple of four that is at least n and less than n + 4. */
  function RoundedUp(n: nat): nat { if n % 4 == 0 then n else n + 4 - n % 4 }

  predicate ZerosAt(f: seq<byte>, a: nat, b: nat) { forall k :: a <= k < b && k < |f| ==> f[k] == 0 }

  // ---------------------------------------------------------------- symbols

  lemma SymOffsets(c: Class)
    ensures var ws := SymWidths(c);
            && Offset(ws, 0) == 0 && Offset(ws, 1) == 4
            && if c.Elf32? then Offset(ws, 2) == 8 && Offset(ws, 3) == 12 && Offset(ws, 4) == 13 && Offset(ws, 5) == 14
               else Offset(ws, 2) == 5 && Offset(ws, 3) == 6 && Offset(ws, 4) == 8 && Offset(ws, 5) == 16
  {
    hide Offset;
    NextOffset(SymWidths(c));
  }

  lemma SymStands(f: seq<byte>, at: nat, c: Class, swap: bool, s: Sym)
    requires Record(f, at, swap, SymFields(c, s), SymWidths(c))
    ensures SymAt(f, at, c, s, !swap)
  {
    hide At, Offset, Record;
    RecordFields(f, at, swap, SymFields(c, s), SymWidths(c));
    SymOffsets(c);
    var v, ws := SymFields(c, s), SymWidths(c);
    assert forall k :: 0 <= k < 6 ==> At(f, at + Offset(ws, k), v[k], ws[k], !swap);
  }

  lemma InSuffix(f: seq<byte>, pre: seq<byte>, swap: bool, vs: seq<nat>, ws: seq<nat>)
    requires Fits(vs, ws) && f == pre + Image(swap, vs, ws)
    ensures Record(f, |pre|, swap, vs, ws)
  {
    assert f[|pre|..|pre| + Size(ws)] == Image(swap, vs, ws);
  }

  /** An added symbol stands behind the table, and the null symbol in front of the first. */
  lemma AddedSymbolStands(c: Class, swap: bool, tab: seq<byte>, s: Sym)
    requires SymFits(c, s)
    ensures var t := AddSymbol(c, swap, tab, s).0;
            && SymAt(t, |t| - SymSize(c), c, s, !swap)
            && if tab == [] then SymAt(t, 0, c, NULL_SYM, !swap) && |t| == 2 * SymSize(c) else tab <= t && |t| == |tab| + SymSize(c)
  {
    hide SymFits, SymFields, SymWidths, Image, SymAt, SymSize, Record;
    NullSymFits(c);
    SymWidthsSize(c);
    var base := if tab == [] then SymImage(c, swap, NULL_SYM) else tab;
    var t := base + SymImage(c, swap, s);
    assert AddSymbol(c, swap, tab, s).0 == t;
    SymFitsFields(c, s);
    SymFitsFields(c, NULL_SYM);
    InSuffix(t, base, swap, SymFields(c, s), SymWidths(c));
    SymStands(t, |base|, c, swap, s);
    if tab == [] {
      InPrefix(t, SymImage(c, swap, s), swap, SymFields(c, NULL_SYM), SymWidths(c));
      SymStands(t, 0, c, swap, NULL_SYM);
    }
  }

  lemma InPrefix(f: seq<byte>, post: seq<byte>, swap: bool, vs: seq<nat>, ws: seq<nat>)
    requires Fits(vs, ws) && f == Image(swap, vs, ws) + post
    ensures Record(f, 0, swap, vs, ws)
  {
    assert f[0..0 + Size(ws)] == Image(swap, vs, ws);
  }

  lemma SymFitsFields(c: Class, s: Sym)
    requires SymFits(c, s)
    ensures Fits(SymFields(c, s), SymWidths(c))
  {}

  /** A record read from its own bytes stands in the table they were cut from. */
  lemma CutOut(f: seq<byte>, at: nat, n: nat, swap: bool, vs: seq<nat>, ws: seq<nat>)
    requires at + n <= |f| && Record(f[at..at + n], 0, swap, vs, ws)
    ensures Record(f, at, swap, vs, ws)
  {
    assert f[at..at + Size(ws)] == f[at..at + n][0..0 + Size(ws)];
  }

  /** Whatever a table holds: the symbol at an index is what stands there, and there is none beyond
      the last whole entry. */
  lemma SymbolRead(c: Class, swap: bool, tab: seq<byte>, entsize: nat, i: nat)
    requires entsize >= SymSize(c)
    ensures GetSymbol(c, swap, tab, entsize, i).Some? <==> (i + 1) * entsize <= |tab|
    ensures GetSymbol(c, swap, tab, entsize, i).Some? ==> SymAt(tab, i * entsize, c, GetSymbol(c, swap, tab, entsize, i).value, !swap)
  {
    hide SymAt, Record, Fields, Size, ReadSym;
    WholeEntries(|tab|, entsize, i);
    if i < EntriesNum(|tab|, entsize) {
      EntryInside(|tab|, entsize, i);
      SymWidthsSize(c);
      var cut := tab[i * entsize..i * entsize + entsize];
      RecordOf(swap, cut, SymWidths(c));
      CutOut(tab, i * entsize, entsize, swap, Fields(swap, cut, SymWidths(c)), SymWidths(c));
      SymOfFields(c, swap, cut);
      SymStands(tab, i * entsize, c, swap, ReadSym(c, swap, cut));
    }
  }

  lemma SymOfFields(c: Class, swap: bool, b: seq<byte>)
    requires |b| >= SymSize(c)
    ensures Size(SymWidths(c)) <= |b| && SymFields(c, ReadSym(c, swap, b)) == Fields(swap, b, SymWidths(c))
  {
    hide Fields, Size;
    SymWidthsSize(c);
  }

  lemma WholeEntries(size: nat, entsize: nat, i: nat)
    requires entsize > 0
    ensures i < EntriesNum(size, entsize) <==> (i + 1) * entsize <= size
  {
    if i < EntriesNum(size, entsize) {
      EntryInside(size, entsize, i);
    } else if (i + 1) * entsize <= size {
      DivMono((i + 1) * entsize, size, entsize);
      Quotient(i + 1, entsize);
    }
  }

  // ---------------------------------------------------------------- relocations

  lemma RelOffsets(c: Class, rela: bool)
    ensures var ws := RelWidths(c, rela);
            Offset(ws, 0) == 0 && Offset(ws, 1) == c.Wide() && (rela ==> Offset(ws, 2) == 2 * c.Wide())
  {
    hide Offset;
    NextOffset(RelWidths(c, rela));
  }

  lemma InfoIs(c: Class, symbol: nat, rtype: byte)
    requires SymbolInRange(c, symbol)
    ensures RInfo(c, symbol, rtype) == symbol * (if c.Elf32? then 0x100 else M32) + rtype
  {
    InfoUnpacks(c, symbol, rtype);
  }

  lemma TwosComplement(c: Class, addend: int)
    requires SignedFits(addend, c.Wide())
    ensures Unsigned(addend, c.Wide()) == if addend < 0 then addend + (if c.Elf32? then M32 else M64) else addend
  {
    PowValues();
    SignedRoundTrip(addend, c.Wide());
  }

  lemma RelStands(f: seq<byte>, at: nat, c: Class, swap: bool, rela: bool, offset: nat, symbol: nat, rtype: byte, addend: int)
    requires SymbolInRange(c, symbol) && (rela ==> SignedFits(addend, c.Wide()))
    requires Record(f, at, swap, RelFields(c, rela, offset, RInfo(c, symbol, rtype), addend), RelWidths(c, rela))
    ensures RelAt(f, at, c, rela, offset, symbol, rtype, addend, !swap)
  {
    hide At, Offset, Record, RInfo, Unsigned;
    var v, ws := RelFields(c, rela, offset, RInfo(c, symbol, rtype), addend), RelWidths(c, rela);
    RecordFields(f, at, swap, v, ws);
    RelOffsets(c, rela);
    InfoIs(c, symbol, rtype);
    if rela { TwosComplement(c, addend); }
    assert forall k :: 0 <= k < |v| ==> At(f, at + Offset(ws, k), v[k], ws[k], !swap);
  }

  /** An added relocation stands behind the table. */
  lemma AddedEntryStands(c: Class, swap: bool, rela: bool, tab: seq<byte>, offset: nat, symbol: nat, rtype: byte, addend: int)
    requires offset < c.Limit() && SymbolInRange(c, symbol) && (rela ==> SignedFits(addend, c.Wide()))
    ensures RInfo(c, symbol, rtype) < c.Limit()
    ensures var t := AddEntry(c, swap, rela, tab, offset, RInfo(c, symbol, rtype), addend);
            && tab <= t && |t| == |tab| + (if c.Elf32? then 4 else 8) * (if rela then 3 else 2)
            && RelAt(t, |tab|, c, rela, offset, symbol, rtype, addend, !swap)
  {
    hide RInfo, Image, RelFields, RelWidths, RelAt, Record;
    InfoUnpacks(c, symbol, rtype);
    var info := RInfo(c, symbol, rtype);
    RelFitsFields(c, rela, offset, info, addend);
    InSuffix(AddEntry(c, swap, rela, tab, offset, info, addend), tab, swap, RelFields(c, rela, offset, info, addend), RelWidths(c, rela));
    RelStands(AddEntry(c, swap, rela, tab, offset, info, addend), |tab|, c, swap, rela, offset, symbol, rtype, addend);
  }

  lemma RelFitsFields(c: Class, rela: bool, offset: nat, info: nat, addend: int)
    requires RelFits(c, offset, info)
    ensures Fits(RelFields(c, rela, offset, info, addend), RelWidths(c, rela))
  {}

  /** The same of relocations. */
  lemma RelocationRead(c: Class, swap: bool, rela: bool, tab: seq<byte>, entsize: nat, i: nat)
    requires entsize >= RelSize(c, rela)
    ensures GetEntry(c, swap, rela, tab, entsize, i).Some? <==> (i + 1) * entsize <= |tab|
    ensures GetEntry(c, swap, rela, tab, entsize, i).Some? ==>
              var e := GetEntry(c, swap, rela, tab, entsize, i).value;
              && (rela ==> SignedFits(e.addend, c.Wide())) && (!rela ==> e.addend == 0)
              && RelAt(tab, i * entsize, c, rela, e.offset, e.symbol, e.rtype, e.addend, !swap)
  {
    hide RelAt, Record, Fields, Size, ReadRel;
    WholeEntries(|tab|, entsize, i);
    if i < EntriesNum(|tab|, entsize) {
      EntryInside(|tab|, entsize, i);
      RelWidthsSize(c, rela);
      var cut := tab[i * entsize..i * entsize + entsize];
      RecordOf(swap, cut, RelWidths(c, rela));
      CutOut(tab, i * entsize, entsize, swap, Fields(swap, cut, RelWidths(c, rela)), RelWidths(c, rela));
      RelOfRecord(tab, i * entsize, c, swap, rela, cut);
    }
  }

  lemma SignedIs(c: Class, v: nat)
    requires v < c.Limit()
    ensures var x := Signed(v, c.Wide()); SignedFits(x, c.Wide()) && v == if x < 0 then x + (if c.Elf32? then M32 else M64) else x
  {
    PowValues();
  }

  lemma InfoSplits(c: Class, info: nat)
    ensures info == RSym(c, info) * (if c.Elf32? then 0x100 else M32) + RType(c, info)
  {}

  lemma RelOfRecord(f: seq<byte>, at: nat, c: Class, swap: bool, rela: bool, b: seq<byte>)
    requires |b| >= RelSize(c, rela) && Size(RelWidths(c, rela)) <= |b|
    requires Record(f, at, swap, Fields(swap, b, RelWidths(c, rela)), RelWidths(c, rela))
    ensures var e := ReadRel(c, swap, rela, b);
            && (rela ==> SignedFits(e.addend, c.Wide())) && (!rela ==> e.addend == 0)
            && RelAt(f, at, c, rela, e.offset, e.symbol, e.rtype, e.addend, !swap)
  {
    hide At, Offset, Record, Fields, Size, RSym, RType, Signed, SignedFits;
    var v, ws := Fields(swap, b, RelWidths(c, rela)), RelWidths(c, rela);
    RecordFields(f, at, swap, v, ws);
    FieldsFit(swap, b, ws);
    RelOffsets(c, rela);
    InfoSplits(c, v[1]);
    assert rela ==> v[2] < Pow256(ws[2]);
    if rela { SignedIs(c, v[2]); }
    assert forall k :: 0 <= k < |v| ==> At(f, at + Offset(ws, k), v[k], ws[k], !swap);
  }

  // ---------------------------------------------------------------- notes

  lemma WordStands(f: seq<byte>, at: nat, swap: bool, v: nat)
    requires v < M32 && at + 4 <= |f| && f[at..at + 4] == Word(swap, v)
    ensures At(f, at, v, 4, !swap)
  {
    PowValues();
    FieldOrder(swap, v, 4);
  }

  lemma Rounding(n: nat)
    requires n + 3 < M32
    ensures Align4(n) == RoundedUp(n)
  {}

  lemma NamePart(name: seq<byte>)
    requires |name| + 4 < M32
    ensures |NameField(name)| == RoundedUp(|name| + 1)
    ensures NameField(name)[..|name|] == name && ZerosAt(NameField(name), |name|, |NameField(name)|)
  {
    Rounding(|name| + 1);
  }

  lemma DescPart(desc: seq<byte>)
    requires |desc| + 3 < M32
    ensures |DescField(desc)| == RoundedUp(|desc|)
    ensures DescField(desc)[..|desc|] == desc && ZerosAt(DescField(desc), |desc|, |DescField(desc)|)
  {
    Rounding(|desc|);
  }

  lemma Moved(f: seq<byte>, at: nat, g: seq<byte>, n: nat)
    requires at + |g| <= |f| && f[at..at + |g|] == g && n <= |g| && ZerosAt(g, n, |g|)
    ensures f[at..at + n] == g[..n] && ZerosAt(f, at + n, at + |g|)
  {
    forall k | at + n <= k < at + |g| ensures f[k] == 0 {
      assert f[k] == g[k - at];
    }
  }

  lemma FieldsStand(f: seq<byte>, at: nat, n: Note)
    requires NoteFits(n) && var d, e := NameField(n.name), DescField(n.desc);
             && at + 12 + |d| + |e| <= |f| && f[at + 12..at + 12 + |d|] == d && f[at + 12 + |d|..at + 12 + |d| + |e|] == e
    ensures var desc := at + 12 + RoundedUp(|n.name| + 1);
            && |NameField(n.name)| == RoundedUp(|n.name| + 1) && |DescField(n.desc)| == RoundedUp(|n.desc|)
            && desc + RoundedUp(|n.desc|) <= |f|
            && f[at + 12..at + 12 + |n.name|] == n.name && ZerosAt(f, at + 12 + |n.name|, desc)
            && f[desc..desc + |n.desc|] == n.desc && ZerosAt(f, desc + |n.desc|, desc + RoundedUp(|n.desc|))
  {
    hide NameField, DescField, ZerosAt, RoundedUp, Align4;
    var d, e := NameField(n.name), DescField(n.desc);
    NamePart(n.name);
    DescPart(n.desc);
    Moved(f, at + 12, d, |n.name|);
    Moved(f, at + 12 + |d|, e, |n.desc|);
  }

  /** The record a note becomes. */
  lemma NoteStands(swap: bool, pre: seq<byte>, n: Note, post: seq<byte>)
    requires NoteFits(n)
    ensures NoteAt(pre + NoteBytes(swap, n) + post, |pre|, n, !swap)
    ensures |NoteBytes(swap, n)| == 12 + RoundedUp(|n.name| + 1) + RoundedUp(|n.desc|)
  {
    hide Word, NameField, DescField, At, ZerosAt, RoundedUp, Align4, NoteAt;
    var f, at := pre + NoteBytes(swap, n) + post, |pre|;
    var a, b, c, d, e := Word(swap, |n.name| + 1), Word(swap, |n.desc|), Word(swap, n.ntype), NameField(n.name), DescField(n.desc);
    Pieces(f, pre, a, b, c, d, e, post);
    FieldsStand(f, at, n);
    WordStands(f, at, swap, |n.name| + 1);
    WordStands(f, at + 4, swap, |n.desc|);
    WordStands(f, at + 8, swap, n.ntype);
    Together(f, at, n, !swap);
  }

  lemma Together(f: seq<byte>, at: nat, n: Note, lsb: bool)
    requires At(f, at, |n.name| + 1, 4, lsb) && At(f, at + 4, |n.desc|, 4, lsb) && At(f, at + 8, n.ntype, 4, lsb)
    requires var desc := at + 12 + RoundedUp(|n.name| + 1);
             && desc + RoundedUp(|n.desc|) <= |f|
             && f[at + 12..at + 12 + |n.name|] == n.name && ZerosAt(f, at + 12 + |n.name|, desc)
             && f[desc..desc + |n.desc|] == n.desc && ZerosAt(f, desc + |n.desc|, desc + RoundedUp(|n.desc|))
    ensures NoteAt(f, at, n, lsb)
  {
    hide At, ZerosAt, RoundedUp;
  }

  lemma Pieces(f: seq<byte>, pre: seq<byte>, a: seq<byte>, b: seq<byte>, c: seq<byte>, d: seq<byte>, e: seq<byte>, post: seq<byte>)
    requires f == pre + (a + b + c + d + e) + post && |a| == |b| == |c| == 4
    ensures var at := |pre|;
            && at + 12 + |d| + |e| <= |f|
            && f[at..at + 4] == a && f[at + 4..at + 8] == b && f[at + 8..at + 12] == c
            && f[at + 12..at + 12 + |d|] == d && f[at + 12 + |d|..at + 12 + |d| + |e|] == e
  {}
}
