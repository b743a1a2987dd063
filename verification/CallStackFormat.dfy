/** The file format of the call-stack state: plain memory images of 64-bit words
    (common/callstack.cpp). Encoders, decoders, and the proof that they are inverse. */
module CallStackFormat {
  import opened Bytes
  import opened Common
  import opened CallStack
  import opened OrderedKeys

  const MAX_HIS: nat := 1_000_000
  const MAX_STACK: nat := 10_000

  /** A read that found its bytes and what follows them, or one past the end of the file
      (the program then goes on with variables it never set). */
  datatype Parse<+T> = Parsed(value: T, rest: seq<byte>) | Short

  // ---------------------------------------------------------------- words

  function EncWord(v: nat): seq<byte> { LE(v, 8) }

  function DecWord(bs: seq<byte>): Parse<nat> {
    if |bs| < 8 then Short else Parsed(FromLE(bs[..8]), bs[8..])
  }

  const HALF: int := 0x8000_0000_0000_0000

  /** imgseq_t is a signed word. */
  function EncSigned(v: int): seq<byte> { EncWord(v % M64) }

  function DecSigned(bs: seq<byte>): Parse<int> {
    match DecWord(bs)
    case Short => Short
    case Parsed(w, rest) => Parsed(if w >= HALF then w - M64 else w, rest)
  }

  predicate FitsWord(v: nat) { v < M64 }
  predicate FitsSigned(v: int) { -HALF <= v < HALF }

  // ---------------------------------------------------------------- records

  function EncLoc(l: Loc): seq<byte> { EncSigned(l.imgno) + EncWord(l.addr) }

  function DecLoc(bs: seq<byte>): Parse<Loc> {
    match DecSigned(bs)
    case Short => Short
    case Parsed(img, r) =>
      match DecWord(r)
      case Short => Short
      case Parsed(addr, r2) => Parsed(Loc(img, addr), r2)
  }

  function EncIdx(x: Idx): seq<byte> { EncLoc(x.loc) + EncWord(x.pos) }

  function DecIdx(bs: seq<byte>): Parse<Idx> {
    match DecLoc(bs)
    case Short => Short
    case Parsed(loc, r) =>
      match DecWord(r)
      case Short => Short
      case Parsed(pos, r2) => Parsed(Idx(loc, pos), r2)
  }

  function EncRet(x: Ret): seq<byte> { EncLoc(x.loc) + EncWord(x.val) }

  function DecRet(bs: seq<byte>): Parse<Ret> {
    match DecLoc(bs)
    case Short => Short
    case Parsed(loc, r) =>
      match DecWord(r)
      case Short => Short
      case Parsed(val, r2) => Parsed(Ret(loc, val), r2)
  }

  function EncRange(x: (nat, nat)): seq<byte> { EncWord(x.0) + EncWord(x.1) }

  function DecRange(bs: seq<byte>): Parse<(nat, nat)> {
    match DecWord(bs)
    case Short => Short
    case Parsed(a, r) =>
      match DecWord(r)
      case Short => Short
      case Parsed(b, r2) => Parsed((a, b), r2)
  }

  function EncSyscall(x: Syscall): seq<byte> {
    EncLoc(x.loc) + (EncWord(x.eret) + EncRange((x.vret, x.id)))
  }

  function DecSyscall(bs: seq<byte>): Parse<Syscall> {
    match DecLoc(bs)
    case Short => Short
    case Parsed(loc, r) =>
      match DecWord(r)
      case Short => Short
      case Parsed(eret, r2) =>
        match DecRange(r2)
        case Short => Short
        case Parsed(p, r3) => Parsed(Syscall(loc, eret, p.0, p.1), r3)
  }

  predicate FitsLoc(l: Loc) { FitsSigned(l.imgno) && FitsWord(l.addr) }
  predicate FitsIdx(x: Idx) { FitsLoc(x.loc) && FitsWord(x.pos) }
  predicate FitsRet(x: Ret) { FitsLoc(x.loc) && FitsWord(x.val) }
  predicate FitsRange(x: (nat, nat)) { FitsWord(x.0) && FitsWord(x.1) }
  predicate FitsSyscall(x: Syscall) { FitsLoc(x.loc) && FitsWord(x.eret) && FitsWord(x.vret) && FitsWord(x.id) }

  // ---------------------------------------------------------------- lists

  function EncAll<T>(enc: T -> seq<byte>, list: seq<T>): seq<byte> {
    if list == [] then [] else enc(list[0]) + EncAll(enc, list[1..])
  }

  /** n records one after the other. */
  function DecAll<T>(dec: seq<byte> -> Parse<T>, n: nat, bs: seq<byte>): Parse<seq<T>> {
    if n == 0 then Parsed([], bs) else
      match dec(bs)
      case Short => Short
      case Parsed(x, r) =>
        match DecAll(dec, n - 1, r)
        case Short => Short
        case Parsed(xs, r2) => Parsed([x] + xs, r2)
  }

  /** A length word and that many records. */
  function EncList<T>(enc: T -> seq<byte>, list: seq<T>): seq<byte> {
    EncWord(|list|) + EncAll(enc, list)
  }

  function DecList<T>(dec: seq<byte> -> Parse<T>, bs: seq<byte>): Parse<seq<T>> {
    match DecWord(bs)
    case Short => Short
    case Parsed(n, r) => DecAll(dec, n, r)
  }

  /** Decoding reads an encoded record back and consumes exactly its bytes. */
  ghost predicate Inverse<T(!new)>(enc: T -> seq<byte>, dec: seq<byte> -> Parse<T>, x: T) {
    forall rest :: dec(enc(x) + rest) == Parsed(x, rest)
  }

  ghost predicate FitsAll<T(!new)>(enc: T -> seq<byte>, dec: seq<byte> -> Parse<T>, list: seq<T>) {
    |list| < M64 && forall k :: 0 <= k < |list| ==> Inverse(enc, dec, list[k])
  }

  // ---------------------------------------------------------------- activations

  /** Activation::write_to_disk; the address goes before the image number here. */
  function EncHead(a: Activation): seq<byte> {
    EncIdx(a.index) + (EncWord(a.sp) + (EncWord(a.loc.addr) + (EncSigned(a.loc.imgno) + EncRet(a.ret))))
  }

  function DecHead(bs: seq<byte>): Parse<Activation> {
    match DecIdx(bs)
    case Short => Short
    case Parsed(index, r) =>
      match DecWord(r)
      case Short => Short
      case Parsed(sp, r2) =>
        match DecWord(r2)
        case Short => Short
        case Parsed(addr, r3) =>
          match DecSigned(r3)
          case Short => Short
          case Parsed(img, r4) =>
            match DecRet(r4)
            case Short => Short
            case Parsed(ret, r5) => Parsed(Activation(index, sp, Loc(img, addr), ret, [], [], []), r5)
  }

  function EncActivation(a: Activation): seq<byte> {
    EncHead(a) + (EncList(EncIdx, a.callees) + (EncList(EncSyscall, a.syscalls) + EncList(EncRange, a.memory)))
  }

  function DecActivation(bs: seq<byte>): Parse<Activation> {
    match DecHead(bs)
    case Short => Short
    case Parsed(a, r) =>
      match DecList(DecIdx, r)
      case Short => Short
      case Parsed(callees, r2) =>
        match DecList(DecSyscall, r2)
        case Short => Short
        case Parsed(syscalls, r3) =>
          match DecList(DecRange, r3)
          case Short => Short
          case Parsed(memory, r4) => Parsed(a.(callees := callees, syscalls := syscalls, memory := memory), r4)
  }

  predicate FitsActivation(a: Activation) {
    && FitsIdx(a.index) && FitsWord(a.sp) && FitsLoc(a.loc) && FitsRet(a.ret)
    && |a.callees| < M64 && (forall k :: 0 <= k < |a.callees| ==> FitsIdx(a.callees[k]))
    && |a.syscalls| < M64 && (forall k :: 0 <= k < |a.syscalls| ==> FitsSyscall(a.syscalls[k]))
    && |a.memory| < M64 && (forall k :: 0 <= k < |a.memory| ==> FitsRange(a.memory[k]))
  }

  // ---------------------------------------------------------------- the whole state

  function LocLess(a: Loc, b: Loc): bool {
    a.imgno < b.imgno || (a.imgno == b.imgno && a.addr < b.addr)
  }

  lemma LocsTotal()
    ensures Total(LocLess)
  {}

  type Entry = (Loc, seq<Activation>)

  /** The arena as the map walk meets it. */
  function Entries(h: Arena): (r: seq<Entry>)
    ensures |r| == |h.Keys|
  {
    LocsTotal();
    Items(LocLess, h)
  }

  function EncEntry(e: Entry): seq<byte> { EncLoc(e.0) + EncList(EncActivation, e.1) }

  function DecEntry(bs: seq<byte>): Parse<Entry> {
    match DecLoc(bs)
    case Short => Short
    case Parsed(loc, r) =>
      match DecList(DecActivation, r)
      case Short => Short
      case Parsed(acts, r2) => Parsed((loc, acts), r2)
  }

  predicate FitsEntry(e: Entry) {
    FitsLoc(e.0) && |e.1| < M64 && forall k :: 0 <= k < |e.1| ==> FitsActivation(e.1[k])
  }

  /** What push_back through operator[] leaves in the map. */
  function AddEntry(h: Arena, e: Entry): Arena {
    if e.1 == [] then h else h[e.0 := (if e.0 in h then h[e.0] else []) + e.1]
  }

  function AddEntries(h: Arena, es: seq<Entry>): Arena
    decreases |es|
  {
    if es == [] then h else AddEntries(AddEntry(h, es[0]), es[1..])
  }

  function EncState(s: State): seq<byte> {
    EncWord(s.mainDepth) + (EncList(EncEntry, Entries(s.arena)) + EncList(EncIdx, s.saved))
  }

  /** ReadHistoryFromDisk: refuses a count above the limit, having read nothing else. */
  function DecHistory(h: Arena, bs: seq<byte>): Parse<(bool, Arena)> {
    match DecWord(bs)
    case Short => Short
    case Parsed(n, r) =>
      if n > MAX_HIS then Parsed((false, h), r) else
        match DecAll(DecEntry, n, r)
        case Short => Short
        case Parsed(es, r2) => Parsed((true, AddEntries(h, es)), r2)
  }

  function DecStack(saved: seq<Idx>, bs: seq<byte>): Parse<(bool, seq<Idx>)> {
    match DecWord(bs)
    case Short => Short
    case Parsed(n, r) =>
      if n > MAX_STACK then Parsed((false, saved), r) else
        match DecAll(DecIdx, n, r)
        case Short => Short
        case Parsed(xs, r2) => Parsed((true, saved + xs), r2)
  }

  /** ReadFromDisk: the stack is read even when the history was refused. */
  function DecState(s: State, bs: seq<byte>): Parse<(bool, State)> {
    match DecWord(bs)
    case Short => Short
    case Parsed(depth, r) =>
      match DecHistory(s.arena, r)
      case Short => Short
      case Parsed(h, r2) =>
        match DecStack(s.saved, r2)
        case Short => Short
        case Parsed(st, r3) =>
          Parsed((h.0 && st.0, s.(mainDepth := depth, arena := h.1, saved := st.1)), r3)
  }

  predicate FitsState(s: State) {
    && FitsWord(s.mainDepth) && |s.arena.Keys| < M64 && |s.saved| < M64
    && (forall loc :: loc in s.arena ==> FitsEntry((loc, s.arena[loc])))
    && (forall k :: 0 <= k < |s.saved| ==> FitsIdx(s.saved[k]))
  }

  // ---------------------------------------------------------------- decoding undoes encoding

  lemma Split(a: seq<byte>, b: seq<byte>, rest: seq<byte>)
    ensures a + b + rest == a + (b + rest)
  {}

  lemma WordInverse(v: nat, rest: seq<byte>)
    requires FitsWord(v)
    ensures DecWord(EncWord(v) + rest) == Parsed(v, rest)
  {
    PowValues();
    StoreLoad(v, 8);
    assert (EncWord(v) + rest)[..8] == EncWord(v);
  }

  lemma SignedInverse(v: int, rest: seq<byte>)
    requires FitsSigned(v)
    ensures DecSigned(EncSigned(v) + rest) == Parsed(v, rest)
  {
    hide EncWord, DecWord;
    WordInverse(v % M64, rest);
  }

  lemma LocInverse(l: Loc, rest: seq<byte>)
    requires FitsLoc(l)
    ensures DecLoc(EncLoc(l) + rest) == Parsed(l, rest)
  {
    hide EncWord, DecWord, EncSigned, DecSigned;
    Split(EncSigned(l.imgno), EncWord(l.addr), rest);
    SignedInverse(l.imgno, EncWord(l.addr) + rest);
    WordInverse(l.addr, rest);
  }

  lemma IdxInverse(x: Idx)
    requires FitsIdx(x)
    ensures Inverse(EncIdx, DecIdx, x)
  {
    hide EncWord, DecWord, EncLoc, DecLoc;
    forall rest ensures DecIdx(EncIdx(x) + rest) == Parsed(x, rest) {
      Split(EncLoc(x.loc), EncWord(x.pos), rest);
      LocInverse(x.loc, EncWord(x.pos) + rest);
      WordInverse(x.pos, rest);
    }
  }

  lemma RetInverse(x: Ret, rest: seq<byte>)
    requires FitsRet(x)
    ensures DecRet(EncRet(x) + rest) == Parsed(x, rest)
  {
    hide EncWord, DecWord, EncLoc, DecLoc;
    Split(EncLoc(x.loc), EncWord(x.val), rest);
    LocInverse(x.loc, EncWord(x.val) + rest);
    WordInverse(x.val, rest);
  }

  lemma RangeInverse(x: (nat, nat))
    requires FitsRange(x)
    ensures Inverse(EncRange, DecRange, x)
  {
    hide EncWord, DecWord;
    forall rest ensures DecRange(EncRange(x) + rest) == Parsed(x, rest) {
      Split(EncWord(x.0), EncWord(x.1), rest);
      WordInverse(x.0, EncWord(x.1) + rest);
      WordInverse(x.1, rest);
    }
  }

  lemma SyscallInverse(x: Syscall)
    requires FitsSyscall(x)
    ensures Inverse(EncSyscall, DecSyscall, x)
  {
    hide EncWord, DecWord, EncLoc, DecLoc, EncRange, DecRange;
    forall rest ensures DecSyscall(EncSyscall(x) + rest) == Parsed(x, rest) {
      var tail := EncRange((x.vret, x.id));
      Split(EncLoc(x.loc), EncWord(x.eret) + tail, rest);
      Split(EncWord(x.eret), tail, rest);
      LocInverse(x.loc, EncWord(x.eret) + (tail + rest));
      WordInverse(x.eret, tail + rest);
      RangeInverse((x.vret, x.id));
    }
  }

  lemma {:induction false} AllInverse<T(!new)>(enc: T -> seq<byte>, dec: seq<byte> -> Parse<T>, list: seq<T>, rest: seq<byte>)
    requires forall k :: 0 <= k < |list| ==> Inverse(enc, dec, list[k])
    ensures DecAll(dec, |list|, EncAll(enc, list) + rest) == Parsed(list, rest)
  {
    if list == [] {
      assert EncAll(enc, list) + rest == rest;
    } else {
      var t := EncAll(enc, list[1..]);
      Split(enc(list[0]), t, rest);
      assert Inverse(enc, dec, list[0]);
      assert dec(enc(list[0]) + (t + rest)) == Parsed(list[0], t + rest);
      AllInverse(enc, dec, list[1..], rest);
      assert list == [list[0]] + list[1..];
    }
  }

  lemma ListInverse<T(!new)>(enc: T -> seq<byte>, dec: seq<byte> -> Parse<T>, list: seq<T>, rest: seq<byte>)
    requires FitsAll(enc, dec, list)
    ensures DecList(dec, EncList(enc, list) + rest) == Parsed(list, rest)
  {
    hide EncWord, DecWord;
    Split(EncWord(|list|), EncAll(enc, list), rest);
    WordInverse(|list|, EncAll(enc, list) + rest);
    AllInverse(enc, dec, list, rest);
  }

  lemma HeadInverse(a: Activation, rest: seq<byte>)
    requires FitsActivation(a)
    ensures DecHead(EncHead(a) + rest) == Parsed(a.(callees := [], syscalls := [], memory := []), rest)
  {
    hide EncWord, DecWord, EncSigned, DecSigned, EncIdx, DecIdx, EncRet, DecRet;
    var e5 := EncRet(a.ret);
    var e4 := EncSigned(a.loc.imgno) + e5;
    var e3 := EncWord(a.loc.addr) + e4;
    var e2 := EncWord(a.sp) + e3;
    Split(EncIdx(a.index), e2, rest);
    Split(EncWord(a.sp), e3, rest);
    Split(EncWord(a.loc.addr), e4, rest);
    Split(EncSigned(a.loc.imgno), e5, rest);
    IdxInverse(a.index);
    assert DecIdx(EncIdx(a.index) + (e2 + rest)) == Parsed(a.index, e2 + rest);
    WordInverse(a.sp, e3 + rest);
    WordInverse(a.loc.addr, e4 + rest);
    SignedInverse(a.loc.imgno, e5 + rest);
    RetInverse(a.ret, rest);
  }

  lemma ListsFit(a: Activation)
    requires FitsActivation(a)
    ensures FitsAll(EncIdx, DecIdx, a.callees) && FitsAll(EncSyscall, DecSyscall, a.syscalls) && FitsAll(EncRange, DecRange, a.memory)
  {
    hide Inverse;
    forall k | 0 <= k < |a.callees| ensures Inverse(EncIdx, DecIdx, a.callees[k]) { IdxInverse(a.callees[k]); }
    forall k | 0 <= k < |a.syscalls| ensures Inverse(EncSyscall, DecSyscall, a.syscalls[k]) { SyscallInverse(a.syscalls[k]); }
    forall k | 0 <= k < |a.memory| ensures Inverse(EncRange, DecRange, a.memory[k]) { RangeInverse(a.memory[k]); }
  }

  /** read_from_disk undoes write_to_disk, whatever follows in the file. */
  lemma ActivationInverse(a: Activation)
    requires FitsActivation(a)
    ensures Inverse(EncActivation, DecActivation, a)
  {
    hide EncHead, DecHead, FitsAll, EncList, DecList;
    ListsFit(a);
    forall rest ensures DecActivation(EncActivation(a) + rest) == Parsed(a, rest) {
      var l1, l2, l3 := EncList(EncIdx, a.callees), EncList(EncSyscall, a.syscalls), EncList(EncRange, a.memory);
      Split(EncHead(a), l1 + (l2 + l3), rest);
      Split(l1, l2 + l3, rest);
      Split(l2, l3, rest);
      HeadInverse(a, l1 + (l2 + (l3 + rest)));
      ListInverse(EncIdx, DecIdx, a.callees, l2 + (l3 + rest));
      ListInverse(EncSyscall, DecSyscall, a.syscalls, l3 + rest);
      ListInverse(EncRange, DecRange, a.memory, rest);
    }
  }

  lemma EntryInverse(e: Entry)
    requires FitsEntry(e)
    ensures Inverse(EncEntry, DecEntry, e)
  {
    hide EncLoc, DecLoc, EncActivation, DecActivation, EncList, DecList, FitsActivation;
    forall k | 0 <= k < |e.1| ensures Inverse(EncActivation, DecActivation, e.1[k]) {
      ActivationInverse(e.1[k]);
    }
    assert FitsAll(EncActivation, DecActivation, e.1);
    forall rest ensures DecEntry(EncEntry(e) + rest) == Parsed(e, rest) {
      var l := EncList(EncActivation, e.1);
      Split(EncLoc(e.0), l, rest);
      LocInverse(e.0, l + rest);
      ListInverse(EncActivation, DecActivation, e.1, rest);
    }
  }

  // ---------------------------------------------------------------- the arena is rebuilt

  lemma EntriesList(h: Arena)
    ensures Lists(Entries(h), h)
  {
    LocsTotal();
  }

  function ListAt(h: Arena, loc: Loc): seq<Activation> { if loc in h then h[loc] else [] }

  /** The activations of a and behind them those of b. */
  function Joined(a: Arena, b: Arena): Arena {
    map loc | loc in a.Keys + b.Keys :: ListAt(a, loc) + ListAt(b, loc)
  }

  lemma JoinedAt(a: Arena, b: Arena, loc: Loc)
    ensures loc in Joined(a, b) <==> loc in a || loc in b
    ensures loc in Joined(a, b) ==> Joined(a, b)[loc] == ListAt(a, loc) + ListAt(b, loc)
    ensures ListAt(Joined(a, b), loc) == ListAt(a, loc) + ListAt(b, loc)
  {}

  lemma AddedAt(h: Arena, e: Entry, loc: Loc)
    requires e.1 != []
    ensures loc in AddEntry(h, e) <==> loc in h || loc == e.0
    ensures loc in AddEntry(h, e) ==> AddEntry(h, e)[loc] == if loc == e.0 then ListAt(h, loc) + e.1 else h[loc]
  {}

  lemma JoinOne(from: Arena, g: Arena, e: Entry)
    requires e.0 !in g && e.1 != []
    ensures AddEntry(Joined(from, g), e) == Joined(from, g[e.0 := e.1])
  {
    hide Joined, AddEntry;
    var a, b := AddEntry(Joined(from, g), e), Joined(from, g[e.0 := e.1]);
    forall loc ensures (loc in a <==> loc in b) && (loc in a ==> a[loc] == b[loc]) {
      AddedAt(Joined(from, g), e, loc);
      JoinedAt(from, g, loc);
      JoinedAt(from, g[e.0 := e.1], loc);
      if loc == e.0 {
        assert ListAt(from, loc) + ListAt(g, loc) == ListAt(from, loc);
      }
    }
    assert a.Keys == b.Keys;
  }

  lemma JoinNothing(h: Arena)
    ensures Joined(h, map[]) == h && Joined(map[], h) == h
  {
    forall loc | loc in h ensures h[loc] + [] == h[loc] && [] + h[loc] == h[loc] {}
    assert Joined(h, map[]).Keys == h.Keys && Joined(map[], h).Keys == h.Keys;
  }

  /** g are the entries pushed back so far. */
  lemma {:induction false} JoinFrom(from: Arena, h: Arena, g: Arena, i: nat)
    requires Indexed(h) && i <= |Entries(h)|
    requires forall loc :: loc in g ==> loc in h && g[loc] == h[loc]
    requires forall k :: 0 <= k < |Entries(h)| ==> (Entries(h)[k].0 in g <==> k < i)
    ensures AddEntries(Joined(from, g), Entries(h)[i..]) == Joined(from, h)
    decreases |Entries(h)| - i
  {
    hide Entries, AddEntry, Indexed, Joined;
    var es := Entries(h);
    if i == |es| {
      AllRebuilt(h, g);
    } else {
      assert es[i..][0] == es[i] && es[i..][1..] == es[i + 1..];
      EntryNotEmpty(h, i);
      OneRebuilt(h, g, i);
      JoinOne(from, g, es[i]);
      JoinFrom(from, h, g[es[i].0 := es[i].1], i + 1);
    }
  }

  lemma EntryNotEmpty(h: Arena, i: nat)
    requires Indexed(h) && i < |Entries(h)|
    ensures Entries(h)[i].1 != []
  {
    hide Entries;
    EntriesList(h);
    ListsAt(Entries(h), h, i);
    assert ListIndexed(Entries(h)[i].0, h[Entries(h)[i].0]);
  }

  lemma AllRebuilt(h: Arena, done: Arena)
    requires forall loc :: loc in done ==> loc in h && done[loc] == h[loc]
    requires forall k :: 0 <= k < |Entries(h)| ==> Entries(h)[k].0 in done
    ensures done == h
  {
    hide Entries;
    EntriesList(h);
    forall loc | loc in h ensures loc in done {
      var k := ListsFind(Entries(h), h, loc);
    }
  }

  lemma OneRebuilt(h: Arena, done: Arena, i: nat)
    requires Indexed(h) && i < |Entries(h)|
    requires forall loc :: loc in done ==> loc in h && done[loc] == h[loc]
    requires forall k :: 0 <= k < |Entries(h)| ==> (Entries(h)[k].0 in done <==> k < i)
    ensures var next := done[Entries(h)[i].0 := Entries(h)[i].1];
            && (forall loc :: loc in next ==> loc in h && next[loc] == h[loc])
            && (forall k :: 0 <= k < |Entries(h)| ==> (Entries(h)[k].0 in next <==> k < i + 1))
  {
    hide Entries;
    EntriesList(h);
    var e := Entries(h)[i];
    ListsAt(Entries(h), h, i);
  }

  lemma AllEntries(from: Arena, h: Arena)
    requires Indexed(h)
    ensures AddEntries(from, Entries(h)) == Joined(from, h)
  {
    hide Entries, Joined;
    assert Entries(h)[0..] == Entries(h);
    JoinNothing(from);
    JoinFrom(from, h, map[], 0);
  }

  lemma EntriesFit(s: State)
    requires FitsState(s)
    ensures FitsAll(EncEntry, DecEntry, Entries(s.arena)) && FitsAll(EncIdx, DecIdx, s.saved)
  {
    hide Inverse, Entries, FitsEntry, FitsIdx, EncEntry, DecEntry, EncIdx, DecIdx;
    var es := Entries(s.arena);
    EntriesList(s.arena);
    forall k | 0 <= k < |es| ensures Inverse(EncEntry, DecEntry, es[k]) {
      assert es[k] == (es[k].0, s.arena[es[k].0]);
      EntryInverse(es[k]);
    }
    forall k | 0 <= k < |s.saved| ensures Inverse(EncIdx, DecIdx, s.saved[k]) { IdxInverse(s.saved[k]); }
  }

  lemma HistoryInverse(from: Arena, h: Arena, rest: seq<byte>)
    requires Indexed(h) && FitsAll(EncEntry, DecEntry, Entries(h)) && |h.Keys| <= MAX_HIS
    ensures DecHistory(from, EncList(EncEntry, Entries(h)) + rest) == Parsed((true, Joined(from, h)), rest)
  {
    hide EncWord, DecWord, EncEntry, DecEntry, Entries;
    var es := Entries(h);
    Split(EncWord(|es|), EncAll(EncEntry, es), rest);
    WordInverse(|es|, EncAll(EncEntry, es) + rest);
    AllInverse(EncEntry, DecEntry, es, rest);
    AllEntries(from, h);
  }

  lemma StackInverse(from: seq<Idx>, saved: seq<Idx>, rest: seq<byte>)
    requires FitsAll(EncIdx, DecIdx, saved) && |saved| <= MAX_STACK
    ensures DecStack(from, EncList(EncIdx, saved) + rest) == Parsed((true, from + saved), rest)
  {
    hide EncWord, DecWord, EncIdx, DecIdx;
    Split(EncWord(|saved|), EncAll(EncIdx, saved), rest);
    WordInverse(|saved|, EncAll(EncIdx, saved) + rest);
    AllInverse(EncIdx, DecIdx, saved, rest);
  }

  /** Reading what was written consumes exactly the bytes written. It sets the main depth and puts the
      activations of every location, and the saved stack, behind what the tracker holds already. It
      succeeds exactly when the state is within the two limits. */
  lemma StateJoins(s: State, into: State, rest: seq<byte>)
    requires Indexed(s.arena) && FitsState(s)
    ensures |s.arena.Keys| <= MAX_HIS && |s.saved| <= MAX_STACK ==>
              DecState(into, EncState(s) + rest)
              == Parsed((true, State(s.mainDepth, Joined(into.arena, s.arena), into.stack, into.saved + s.saved)), rest)
    ensures |s.arena.Keys| > MAX_HIS || |s.saved| > MAX_STACK ==>
              DecState(into, EncState(s) + rest).Parsed? ==> !DecState(into, EncState(s) + rest).value.0
  {
    hide EncWord, DecWord, EncEntry, DecEntry, Entries, EncIdx, DecIdx, FitsAll, Indexed, Joined;
    var es := Entries(s.arena);
    var b, c := EncList(EncEntry, es), EncList(EncIdx, s.saved);
    Split(EncWord(s.mainDepth), b + c, rest);
    Split(b, c, rest);
    WordInverse(s.mainDepth, b + (c + rest));
    EntriesFit(s);
    if |s.arena.Keys| > MAX_HIS {
      Split(EncWord(|es|), EncAll(EncEntry, es), c + rest);
      WordInverse(|es|, EncAll(EncEntry, es) + (c + rest));
    } else {
      HistoryInverse(into.arena, s.arena, c + rest);
      if |s.saved| <= MAX_STACK {
        StackInverse(into.saved, s.saved, rest);
      } else {
        Split(EncWord(|s.saved|), EncAll(EncIdx, s.saved), rest);
        WordInverse(|s.saved|, EncAll(EncIdx, s.saved) + rest);
      }
    }
  }

  /** So a tracker that recorded nothing yet is restored: main depth, arena and saved stack; a live
      stack is not saved. */
  lemma StateRoundTrip(s: State, into: State, rest: seq<byte>)
    requires Indexed(s.arena) && FitsState(s) && into.arena == map[] && into.saved == []
    ensures |s.arena.Keys| <= MAX_HIS && |s.saved| <= MAX_STACK ==>
              DecState(into, EncState(s) + rest) == Parsed((true, s.(stack := into.stack)), rest)
    ensures |s.arena.Keys| > MAX_HIS || |s.saved| > MAX_STACK ==>
              DecState(into, EncState(s) + rest).Parsed? ==> !DecState(into, EncState(s) + rest).value.0
  {
    hide DecState, EncState, FitsState, Indexed, Joined;
    StateJoins(s, into, rest);
    JoinNothing(s.arena);
    assert [] + s.saved == s.saved;
  }

  /** In particular for every state a run can reach: no location has an empty list there. */
  lemma RunRoundTrip(events: seq<Event>, rest: seq<byte>)
    requires Runs(INITIAL, events) && FitsState(RunAll(INITIAL, events))
    requires |RunAll(INITIAL, events).arena.Keys| <= MAX_HIS && |RunAll(INITIAL, events).saved| <= MAX_STACK
    ensures DecState(INITIAL, EncState(RunAll(INITIAL, events)) + rest)
         == Parsed((true, RunAll(INITIAL, events).(stack := [])), rest)
  {
    hide FitsState, EncState, DecState;
    Reachable(events);
    StateRoundTrip(RunAll(INITIAL, events), INITIAL, rest);
  }
}
