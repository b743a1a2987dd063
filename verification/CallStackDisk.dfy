/** Dumping the tracker to a file and reading it back, as it runs (common/callstack.cpp). A file
    is the bytes still to be read, or the bytes written so far. */
module CallStackDisk {
  import opened Options
  import opened Bytes
  import opened Common
  import opened CallStack
  import opened CallStackFormat
  import opened CallTracker

  // ---------------------------------------------------------------- lists

  lemma {:induction false} EncAllAppend<T>(enc: T -> seq<byte>, a: seq<T>, x: T)
    ensures EncAll(enc, a + [x]) == EncAll(enc, a) + enc(x)
  {
    if a == [] {
      assert a + [x] == [x] && [x][1..] == [];
      assert EncAll(enc, [x]) == enc(x) + EncAll(enc, []);
    } else {
      assert (a + [x])[1..] == a[1..] + [x];
      EncAllAppend(enc, a[1..], x);
    }
  }

  /** The write loop: a length, then the records in order. */
  method WriteList<T>(enc: T -> seq<byte>, list: seq<T>) returns (out: seq<byte>)
    ensures out == EncList(enc, list)
  {
    out := EncWord(|list|);
    var i := 0;
    while i < |list|
      invariant i <= |list| && out == EncWord(|list|) + EncAll(enc, list[..i])
    {
      EncAllAppend(enc, list[..i], list[i]);
      assert list[..i + 1] == list[..i] + [list[i]];
      out := out + enc(list[i]);
      i := i + 1;
    }
    assert list[..i] == list;
  }

  /** What is still to be read, put behind what has been read. */
  function Behind<T>(read: seq<T>, p: Parse<seq<T>>): Parse<seq<T>> {
    match p
    case Short => Short
    case Parsed(xs, rest) => Parsed(read + xs, rest)
  }

  lemma BehindNothing<T>(p: Parse<seq<T>>)
    ensures Behind([], p) == p
  {
    if p.Parsed? { assert [] + p.value == p.value; }
  }

  lemma BehindStep<T>(read: seq<T>, dec: seq<byte> -> Parse<T>, n: nat, rest: seq<byte>)
    ensures n == 0 ==> Behind(read, DecAll(dec, n, rest)) == Parsed(read, rest)
    ensures n > 0 ==>
              match dec(rest)
              case Short => Behind(read, DecAll(dec, n, rest)) == Short
              case Parsed(x, r) => Behind(read, DecAll(dec, n, rest)) == Behind(read + [x], DecAll(dec, n - 1, r))
  {
    if n == 0 {
      assert read + [] == read;
    } else if dec(rest).Parsed? {
      var tail := DecAll(dec, n - 1, dec(rest).rest);
      if tail.Parsed? {
        assert read + ([dec(rest).value] + tail.value) == read + [dec(rest).value] + tail.value;
      }
    }
  }

  /** The read loop. */
  method ReadAll<T>(dec: seq<byte> -> Parse<T>, n: nat, bs: seq<byte>) returns (p: Parse<seq<T>>)
    ensures p == DecAll(dec, n, bs)
  {
    hide DecAll, Behind;
    var list: seq<T> := [];
    var rest := bs;
    var i := 0;
    BehindNothing(DecAll(dec, n, bs));
    while i < n
      invariant i <= n && Behind(list, DecAll(dec, n - i, rest)) == DecAll(dec, n, bs)
    {
      BehindStep(list, dec, n - i, rest);
      var q := dec(rest);
      if q.Short? {
        return Short;
      }
      list, rest := list + [q.value], q.rest;
      i := i + 1;
    }
    BehindStep(list, dec, 0, rest);
    p := Parsed(list, rest);
  }

  method ReadList<T>(dec: seq<byte> -> Parse<T>, bs: seq<byte>) returns (p: Parse<seq<T>>)
    ensures p == DecList(dec, bs)
  {
    var n := DecWord(bs);
    if n.Short? { return Short; }
    p := ReadAll(dec, n.value, n.rest);
  }

  // ---------------------------------------------------------------- one activation

  /** Activation::write_to_disk. */
  method WriteActivation(a: Activation) returns (out: seq<byte>)
    ensures out == EncActivation(a)
  {
    hide EncHead, EncList;
    var callees := WriteList(EncIdx, a.callees);
    var syscalls := WriteList(EncSyscall, a.syscalls);
    var memory := WriteList(EncRange, a.memory);
    out := EncHead(a) + callees + syscalls + memory;
    assert out == EncHead(a) + (callees + (syscalls + memory));
  }

  /** Activation::read_from_disk. */
  method ReadActivation(bs: seq<byte>) returns (p: Parse<Activation>)
    ensures p == DecActivation(bs)
  {
    hide DecHead, DecList;
    var head := DecHead(bs);
    if head.Short? { return Short; }
    var callees := ReadList(DecIdx, head.rest);
    if callees.Short? { return Short; }
    var syscalls := ReadList(DecSyscall, callees.rest);
    if syscalls.Short? { return Short; }
    var memory := ReadList(DecRange, syscalls.rest);
    if memory.Short? { return Short; }
    p := Parsed(head.value.(callees := callees.value, syscalls := syscalls.value, memory := memory.value), memory.rest);
  }

  // ---------------------------------------------------------------- the whole state

  /** WriteToDisk: depth, history, saved stack. */
  method WriteToDisk(cs: CS) returns (out: seq<byte>)
    ensures out == EncState(cs.Abs())
  {
    hide Entries, EncList, EncEntry, EncActivation;
    var es := Entries(cs.arena);
    var history := EncWord(|es|);
    var i := 0;
    while i < |es|
      invariant i <= |es| && history == EncWord(|es|) + EncAll(EncEntry, es[..i])
    {
      var acts := EncWord(|es[i].1|);
      var j := 0;
      while j < |es[i].1|
        invariant j <= |es[i].1| && acts == EncWord(|es[i].1|) + EncAll(EncActivation, es[i].1[..j])
      {
        var a := WriteActivation(es[i].1[j]);
        EncAllAppend(EncActivation, es[i].1[..j], es[i].1[j]);
        assert es[i].1[..j + 1] == es[i].1[..j] + [es[i].1[j]];
        acts := acts + a;
        j := j + 1;
      }
      assert es[i].1[..j] == es[i].1;
      EntryIs(es[i]);
      EncAllAppend(EncEntry, es[..i], es[i]);
      assert es[..i + 1] == es[..i] + [es[i]];
      history := history + (EncLoc(es[i].0) + acts);
      i := i + 1;
    }
    assert es[..i] == es;
    ListIs(EncEntry, es);
    var stack := WriteList(EncIdx, cs.saved);
    out := EncWord(cs.mainDepth) + history + stack;
    assert out == EncWord(cs.mainDepth) + (history + stack);
  }

  lemma EntryIs(e: Entry)
    ensures EncEntry(e) == EncLoc(e.0) + (EncWord(|e.1|) + EncAll(EncActivation, e.1))
  {}

  lemma ListIs<T>(enc: T -> seq<byte>, list: seq<T>)
    ensures EncList(enc, list) == EncWord(|list|) + EncAll(enc, list)
  {}

  /** The activations of one location are pushed back one by one as they are read. */
  method ReadActivations(cs: CS, loc: Loc, n: nat, bs: seq<byte>) returns (r: Option<seq<byte>>)
    modifies cs
    ensures match DecAll(DecActivation, n, bs)
            case Short => r == None
            case Parsed(acts, rest) =>
              r == Some(rest) && cs.Abs() == old(cs.Abs()).(arena := AddEntry(old(cs.arena), (loc, acts)))
  {
    hide DecActivation, DecAll, Behind;
    var rest := bs;
    ghost var read: seq<Activation> := [];
    var j := 0;
    BehindNothing(DecAll(DecActivation, n, bs));
    while j < n
      invariant j <= n && Behind(read, DecAll(DecActivation, n - j, rest)) == DecAll(DecActivation, n, bs)
      invariant cs.Abs() == old(cs.Abs()).(arena := AddEntry(old(cs.arena), (loc, read)))
    {
      BehindStep(read, DecActivation, n - j, rest);
      var q := ReadActivation(rest);
      if q.Short? { return None; }
      AddEntryAppend(old(cs.arena), loc, read, q.value);
      cs.arena := AddEntry(cs.arena, (loc, [q.value]));
      read, rest := read + [q.value], q.rest;
      j := j + 1;
    }
    BehindStep(read, DecActivation, 0, rest);
    r := Some(rest);
  }

  /** One location of the history. */
  method ReadEntry(cs: CS, bs: seq<byte>) returns (r: Option<seq<byte>>)
    modifies cs
    ensures match DecEntry(bs)
            case Short => r == None
            case Parsed(e, rest) => r == Some(rest) && cs.Abs() == old(cs.Abs()).(arena := AddEntry(old(cs.arena), e))
  {
    hide DecActivation, DecLoc, DecWord, AddEntry;
    var loc := DecLoc(bs);
    if loc.Short? { return None; }
    var n := DecWord(loc.rest);
    if n.Short? { return None; }
    r := ReadActivations(cs, loc.value, n.value, n.rest);
  }

  lemma AddEntryAppend(h: Arena, loc: Loc, acts: seq<Activation>, a: Activation)
    ensures AddEntry(AddEntry(h, (loc, acts)), (loc, [a])) == AddEntry(h, (loc, acts + [a]))
  {
    var before := if loc in h then h[loc] else [];
    assert before + acts + [a] == before + (acts + [a]);
    assert acts == [] ==> acts + [a] == [a];
  }

  /** ReadHistoryFromDisk; a count above the limit is refused before anything is recorded. */
  method ReadHistory(cs: CS, bs: seq<byte>) returns (r: Option<(bool, seq<byte>)>)
    modifies cs
    ensures match DecHistory(old(cs.arena), bs)
            case Short => r == None
            case Parsed(h, rest) => r == Some((h.0, rest)) && cs.Abs() == old(cs.Abs()).(arena := h.1)
  {
    hide DecEntry, DecWord, AddEntry, DecAll, Behind;
    var n := DecWord(bs);
    if n.Short? { return None; }
    if n.value > MAX_HIS { return Some((false, n.rest)); }
    ghost var read: seq<Entry> := [];
    var rest := n.rest;
    var i := 0;
    BehindNothing(DecAll(DecEntry, n.value, n.rest));
    while i < n.value
      invariant i <= n.value && Behind(read, DecAll(DecEntry, n.value - i, rest)) == DecAll(DecEntry, n.value, n.rest)
      invariant cs.Abs() == old(cs.Abs()).(arena := AddEntries(old(cs.arena), read))
    {
      BehindStep(read, DecEntry, n.value - i, rest);
      ghost var q := DecEntry(rest);
      var e := ReadEntry(cs, rest);
      if e.None? { return None; }
      AddEntriesAppend(old(cs.arena), read, q.value);
      read, rest := read + [q.value], e.value;
      i := i + 1;
    }
    BehindStep(read, DecEntry, 0, rest);
    r := Some((true, rest));
  }

  lemma {:induction false} AddEntriesAppend(h: Arena, es: seq<Entry>, e: Entry)
    ensures AddEntries(h, es + [e]) == AddEntry(AddEntries(h, es), e)
    decreases |es|
  {
    if es == [] {
      assert es + [e] == [e] && [e][1..] == [];
      assert AddEntries(AddEntry(h, e), [e][1..]) == AddEntry(h, e);
    } else {
      assert (es + [e])[1..] == es[1..] + [e];
      AddEntriesAppend(AddEntry(h, es[0]), es[1..], e);
    }
  }

  method ReadStack(cs: CS, bs: seq<byte>) returns (r: Option<(bool, seq<byte>)>)
    modifies cs
    ensures match DecStack(old(cs.saved), bs)
            case Short => r == None
            case Parsed(st, rest) => r == Some((st.0, rest)) && cs.Abs() == old(cs.Abs()).(saved := st.1)
  {
    hide DecIdx, DecWord;
    var n := DecWord(bs);
    if n.Short? { return None; }
    if n.value > MAX_STACK { return Some((false, n.rest)); }
    var xs := ReadAll(DecIdx, n.value, n.rest);
    if xs.Short? { return None; }
    cs.saved := cs.saved + xs.value;
    r := Some((true, xs.rest));
  }

  /** ReadFromDisk. None: the file ended too early. */
  method ReadFromDisk(cs: CS, bs: seq<byte>) returns (r: Option<(bool, seq<byte>)>)
    modifies cs
    ensures match DecState(old(cs.Abs()), bs)
            case Short => r == None
            case Parsed(s, rest) => r == Some((s.0, rest)) && cs.Abs() == s.1
  {
    hide DecHistory, DecStack, DecWord;
    var depth := DecWord(bs);
    if depth.Short? { return None; }
    cs.mainDepth := depth.value;
    var h := ReadHistory(cs, depth.rest);
    if h.None? { return None; }
    var st := ReadStack(cs, h.value.1);
    if st.None? { return None; }
    r := Some((h.value.0 && st.value.0, st.value.1));
  }

  /** Written by one tracker and read by a new one: within the limits everything that was
      recorded is there again, and what follows in the file is left alone. */
  method DumpAndRestore(cs: CS, rest: seq<byte>) returns (copy: CS, ok: bool, left: seq<byte>)
    requires Inv(cs.Abs()) && FitsState(cs.Abs())
    requires |cs.arena.Keys| <= MAX_HIS && |cs.saved| <= MAX_STACK
    ensures fresh(copy) && ok && left == rest
    ensures copy.Abs() == cs.Abs().(stack := [])
  {
    hide FitsState, EncState, DecState, Inv;
    var bytes := WriteToDisk(cs);
    copy := new CS();
    InvStack(cs.Abs());
    StateRoundTrip(cs.Abs(), INITIAL, rest);
    var r := ReadFromDisk(copy, bytes + rest);
    ok, left := r.value.0, r.value.1;
  }
}
