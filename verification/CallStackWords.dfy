/** The dump of the call-stack state as the 64-bit words it consists of, in the order in which the
    fields stand in memory (common/cscommon.hpp) and are written (common/callstack.cpp). */
module CallStackWords {
  import opened Bytes
  import opened Common
  import opened CallStack
  import opened CallStackFormat
  import opened OrderedKeys

  /** Words least significant byte first, negative ones in two's complement. */
  function Stored(ws: seq<int>): (s: seq<byte>)
    ensures |s| == 8 * |ws|
  {
    if ws == [] then [] else LE(ws[0] % M64, 8) + Stored(ws[1..])
  }

  function LocWords(l: Loc): seq<int> { [l.imgno, l.addr] }
  function IdxWords(x: Idx): seq<int> { [x.loc.imgno, x.loc.addr, x.pos] }
  function RetWords(x: Ret): seq<int> { [x.loc.imgno, x.loc.addr, x.val] }
  function SyscallWords(x: Syscall): seq<int> { [x.loc.imgno, x.loc.addr, x.eret, x.vret, x.id] }
  function RangeWords(x: (nat, nat)): seq<int> { [x.0, x.1] }

  /** A count and that many records. */
  function ListWords<T>(words: T -> seq<int>, list: seq<T>): seq<int> { [|list|] + AllWords(words, list) }

  function AllWords<T>(words: T -> seq<int>, list: seq<T>): seq<int> {
    if list == [] then [] else words(list[0]) + AllWords(words, list[1..])
  }

  function ActivationWords(a: Activation): seq<int> {
    [a.index.loc.imgno, a.index.loc.addr, a.index.pos, a.sp, a.loc.addr, a.loc.imgno, a.ret.loc.imgno, a.ret.loc.addr, a.ret.val]
    + ListWords(IdxWords, a.callees) + ListWords(SyscallWords, a.syscalls) + ListWords(RangeWords, a.memory)
  }

  function EntryWords(e: Entry): seq<int> { [e.0.imgno, e.0.addr] + ListWords(ActivationWords, e.1) }

  /** The whole dump: main depth, the arena by ascending location, the saved stack. */
  function StateWords(s: State): seq<int> {
    LocsTotal();
    [s.mainDepth] + ListWords(EntryWords, Items(LocLess, s.arena)) + ListWords(IdxWords, s.saved)
  }

  // ---------------------------------------------------------------- the encoders write these words

  lemma {:induction false} StoredAppend(a: seq<int>, b: seq<int>)
    ensures Stored(a + b) == Stored(a) + Stored(b)
  {
    hide LE;
    if a == [] {
      assert a + b == b;
    } else {
      assert (a + b)[1..] == a[1..] + b;
      StoredAppend(a[1..], b);
    }
  }

  lemma Word(v: nat)
    requires FitsWord(v)
    ensures EncWord(v) == Stored([v])
  {
    hide LE;
    assert [v][1..] == [] && v % M64 == v;
    assert LE(v, 8) + Stored([]) == LE(v, 8);
  }

  lemma Signed(v: int)
    ensures EncSigned(v) == Stored([v])
  {
    hide LE;
    assert [v][1..] == [];
    assert LE(v % M64, 8) + Stored([]) == LE(v % M64, 8);
  }

  lemma Two(a: int, b: int)
    ensures Stored([a]) + Stored([b]) == Stored([a, b])
  {
    StoredAppend([a], [b]);
    assert [a] + [b] == [a, b];
  }

  lemma LocWritten(l: Loc)
    requires FitsLoc(l)
    ensures EncLoc(l) == Stored(LocWords(l))
  {
    Signed(l.imgno);
    Word(l.addr);
    Two(l.imgno, l.addr);
  }

  /** A location and one more word. */
  lemma LocAndWord(l: Loc, v: nat)
    requires FitsLoc(l) && FitsWord(v)
    ensures EncLoc(l) + EncWord(v) == Stored([l.imgno, l.addr, v])
  {
    hide EncLoc, EncWord;
    LocWritten(l);
    Word(v);
    StoredAppend(LocWords(l), [v]);
    assert LocWords(l) + [v] == [l.imgno, l.addr, v];
  }

  lemma RangeWritten(x: (nat, nat))
    requires FitsRange(x)
    ensures EncRange(x) == Stored(RangeWords(x))
  {
    hide EncWord;
    Word(x.0);
    Word(x.1);
    Two(x.0, x.1);
  }

  lemma SyscallWritten(x: Syscall)
    requires FitsSyscall(x)
    ensures EncSyscall(x) == Stored(SyscallWords(x))
  {
    hide EncLoc, EncWord, EncRange;
    LocWritten(x.loc);
    Word(x.eret);
    RangeWritten((x.vret, x.id));
    StoredAppend([x.eret], [x.vret, x.id]);
    StoredAppend(LocWords(x.loc), [x.eret] + [x.vret, x.id]);
    assert LocWords(x.loc) + ([x.eret] + [x.vret, x.id]) == SyscallWords(x);
  }

  /** enc writes the words of x. */
  ghost predicate Writes<T>(enc: T -> seq<byte>, words: T -> seq<int>, x: T) {
    enc(x) == Stored(words(x))
  }

  lemma {:induction false} AllWritten<T>(enc: T -> seq<byte>, words: T -> seq<int>, list: seq<T>)
    requires forall k :: 0 <= k < |list| ==> Writes(enc, words, list[k])
    ensures EncAll(enc, list) == Stored(AllWords(words, list))
  {
    if list != [] {
      AllWritten(enc, words, list[1..]);
      assert Writes(enc, words, list[0]);
      StoredAppend(words(list[0]), AllWords(words, list[1..]));
    }
  }

  lemma ListWritten<T>(enc: T -> seq<byte>, words: T -> seq<int>, list: seq<T>)
    requires |list| < M64 && forall k :: 0 <= k < |list| ==> Writes(enc, words, list[k])
    ensures EncList(enc, list) == Stored(ListWords(words, list))
  {
    hide EncWord, EncAll;
    Word(|list|);
    AllWritten(enc, words, list);
    StoredAppend([|list|], AllWords(words, list));
  }

  lemma HeadWritten(a: Activation)
    requires FitsIdx(a.index) && FitsWord(a.sp) && FitsLoc(a.loc) && FitsRet(a.ret)
    ensures EncHead(a) == Stored([a.index.loc.imgno, a.index.loc.addr, a.index.pos, a.sp, a.loc.addr, a.loc.imgno,
                                  a.ret.loc.imgno, a.ret.loc.addr, a.ret.val])
  {
    hide EncLoc, EncWord, EncSigned;
    LocAndWord(a.index.loc, a.index.pos);
    LocAndWord(a.ret.loc, a.ret.val);
    Word(a.sp);
    Word(a.loc.addr);
    Signed(a.loc.imgno);
    var ret := RetWords(a.ret);
    StoredAppend([a.loc.imgno], ret);
    StoredAppend([a.loc.addr], [a.loc.imgno] + ret);
    StoredAppend([a.sp], [a.loc.addr] + ([a.loc.imgno] + ret));
    StoredAppend(IdxWords(a.index), [a.sp] + ([a.loc.addr] + ([a.loc.imgno] + ret)));
    assert IdxWords(a.index) + ([a.sp] + ([a.loc.addr] + ([a.loc.imgno] + ret)))
        == [a.index.loc.imgno, a.index.loc.addr, a.index.pos, a.sp, a.loc.addr, a.loc.imgno, a.ret.loc.imgno, a.ret.loc.addr, a.ret.val];
  }

  lemma ActivationWritten(a: Activation)
    requires FitsActivation(a)
    ensures EncActivation(a) == Stored(ActivationWords(a))
  {
    hide EncHead, EncList, ListWords;
    HeadWritten(a);
    ListsWritten(a);
    var head := [a.index.loc.imgno, a.index.loc.addr, a.index.pos, a.sp, a.loc.addr, a.loc.imgno, a.ret.loc.imgno, a.ret.loc.addr, a.ret.val];
    var b, c, d := ListWords(IdxWords, a.callees), ListWords(SyscallWords, a.syscalls), ListWords(RangeWords, a.memory);
    StoredAppend(c, d);
    StoredAppend(b, c + d);
    StoredAppend(head, b + (c + d));
    assert head + (b + (c + d)) == ActivationWords(a);
  }

  lemma ListsWritten(a: Activation)
    requires FitsActivation(a)
    ensures EncList(EncIdx, a.callees) == Stored(ListWords(IdxWords, a.callees))
    ensures EncList(EncSyscall, a.syscalls) == Stored(ListWords(SyscallWords, a.syscalls))
    ensures EncList(EncRange, a.memory) == Stored(ListWords(RangeWords, a.memory))
  {
    hide EncList, ListWords, EncSyscall, EncRange, EncLoc, EncWord, Stored;
    forall k | 0 <= k < |a.callees| ensures Writes(EncIdx, IdxWords, a.callees[k]) {
      LocAndWord(a.callees[k].loc, a.callees[k].pos);
    }
    forall k | 0 <= k < |a.syscalls| ensures Writes(EncSyscall, SyscallWords, a.syscalls[k]) {
      SyscallWritten(a.syscalls[k]);
    }
    forall k | 0 <= k < |a.memory| ensures Writes(EncRange, RangeWords, a.memory[k]) {
      RangeWritten(a.memory[k]);
    }
    ListWritten(EncIdx, IdxWords, a.callees);
    ListWritten(EncSyscall, SyscallWords, a.syscalls);
    ListWritten(EncRange, RangeWords, a.memory);
  }

  lemma EntryWritten(e: Entry)
    requires FitsEntry(e)
    ensures EncEntry(e) == Stored(EntryWords(e))
  {
    hide EncList, ListWords, EncActivation, ActivationWords, FitsActivation, Stored, EncLoc;
    LocWritten(e.0);
    forall k | 0 <= k < |e.1| ensures Writes(EncActivation, ActivationWords, e.1[k]) {
      ActivationWritten(e.1[k]);
    }
    ListWritten(EncActivation, ActivationWords, e.1);
    StoredAppend(LocWords(e.0), ListWords(ActivationWords, e.1));
  }

  /** The dump consists of exactly these words. */
  lemma StateWritten(s: State)
    requires FitsState(s)
    ensures EncState(s) == Stored(StateWords(s))
  {
    hide EncList, ListWords, EncEntry, EntryWords, FitsEntry, Stored, EncWord, EncLoc;
    LocsTotal();
    var es := Items(LocLess, s.arena);
    assert Entries(s.arena) == es;
    Word(s.mainDepth);
    forall k | 0 <= k < |es| ensures Writes(EncEntry, EntryWords, es[k]) {
      ListsAt(es, s.arena, k);
      EntryWritten(es[k]);
    }
    forall k | 0 <= k < |s.saved| ensures Writes(EncIdx, IdxWords, s.saved[k]) {
      LocAndWord(s.saved[k].loc, s.saved[k].pos);
    }
    ListWritten(EncEntry, EntryWords, es);
    ListWritten(EncIdx, IdxWords, s.saved);
    var b, c := ListWords(EntryWords, es), ListWords(IdxWords, s.saved);
    StoredAppend(b, c);
    StoredAppend([s.mainDepth], b + c);
    assert [s.mainDepth] + (b + c) == StateWords(s);
  }

  /** The locations in the dump ascend by image number and then by address. */
  lemma EntriesAscend(s: State, i: nat, j: nat)
    requires i < j < |Entries(s.arena)|
    ensures var a, b := Entries(s.arena)[i].0, Entries(s.arena)[j].0;
            a.imgno <= b.imgno && (a.imgno == b.imgno ==> a.addr < b.addr)
  {
    hide Items;
    LocsTotal();
    ItemsIncrease(LocLess, s.arena, i, j);
  }

  /** Where a word stands. */
  lemma {:induction false} WordStands(ws: seq<int>, k: nat)
    requires k < |ws|
    ensures Stored(ws)[8 * k..8 * k + 8] == LE(ws[k] % M64, 8)
    decreases k
  {
    hide LE;
    if k > 0 {
      WordStands(ws[1..], k - 1);
      var tail := Stored(ws[1..]);
      assert Stored(ws)[8 * k..8 * k + 8] == tail[8 * (k - 1)..8 * (k - 1) + 8];
    }
  }
}
