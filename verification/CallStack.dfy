/** The shadow call stack (common/callstack.cpp): activations live in an append-only arena
    keyed by location; the live stack, the saved stack and the callee lists hold indices. */
module CallStack {
  import opened Common

  // ---------------------------------------------------------------- data

  /** act_idx_t: position of an activation in the arena. */
  datatype Idx = Idx(loc: Loc, pos: nat)

  /** The value an unset return or system-call field carries. */
  const NAS: nat := 0x0f0f_0f0f_0f0f_0f0f

  datatype Ret = Ret(loc: Loc, val: nat)

  datatype Syscall = Syscall(loc: Loc, eret: nat, vret: nat, id: nat)

  function NewSyscall(loc: Loc): Syscall { Syscall(loc, 0xffff_ffff_ffff_ffff, NAS, NAS) }

  datatype Activation = Activation(index: Idx, sp: nat, loc: Loc, ret: Ret, callees: seq<Idx>,
                                   syscalls: seq<Syscall>, memory: seq<(nat, nat)>)

  function NewActivation(index: Idx, sp: nat, loc: Loc): Activation {
    Activation(index, sp, loc, Ret(Loc(NOIMG_SEQNO, 0), NAS), [], [], [])
  }

  type Arena = map<Loc, seq<Activation>>

  predicate ValidIdx(h: Arena, x: Idx) { x.loc in h && x.pos < |h[x.loc]| }

  function Get(h: Arena, x: Idx): Activation
    requires ValidIdx(h, x)
  {
    h[x.loc][x.pos]
  }

  function Put(h: Arena, x: Idx, a: Activation): Arena
    requires ValidIdx(h, x)
  {
    h[x.loc := h[x.loc][x.pos := a]]
  }

  datatype State = State(mainDepth: nat, arena: Arena, stack: seq<Idx>, saved: seq<Idx>)

  // ---------------------------------------------------------------- events

  datatype Event =
    | Call(sp: nat, target: Loc)
    | Main(sp: nat)
    | Return(sp: nat, ret: Ret, maps: seq<(nat, nat)>)   // maps: the process's memory map at that moment
    | SyscallLocation(loc: Loc)
    | SyscallEnter(id: nat)
    | SyscallExit(vret: nat)
    | SaveStack

  function Top(s: State): Idx
    requires s.stack != []
  {
    s.stack[|s.stack| - 1]
  }

  predicate StackValid(h: Arena, stack: seq<Idx>) { forall k :: 0 <= k < |stack| ==> ValidIdx(h, stack[k]) }

  /** AdjustStack: frames at or below the stack pointer were left by a longjmp. */
  function Adjust(h: Arena, stack: seq<Idx>, sp: nat): (r: seq<Idx>)
    requires StackValid(h, stack)
    ensures r <= stack
  {
    if stack == [] || sp < Get(h, stack[|stack| - 1]).sp then stack
    else Adjust(h, stack[..|stack| - 1], sp)
  }

  /** The arena index the next activation at a location gets. */
  function NextIdx(h: Arena, loc: Loc): Idx {
    Idx(loc, if loc in h then |h[loc]| else 0)
  }

  function AddToHistory(h: Arena, a: Activation): Arena {
    h[a.loc := (if a.loc in h then h[a.loc] else []) + [a]]
  }

  lemma AddKeeps(h: Arena, a: Activation, x: Idx)
    requires ValidIdx(h, x)
    ensures ValidIdx(AddToHistory(h, a), x) && Get(AddToHistory(h, a), x) == Get(h, x)
  {}

  /** CreateActivation: a new activation, callee of the frame on top, and new top itself. */
  function Create(h: Arena, stack: seq<Idx>, sp: nat, loc: Loc): (Arena, seq<Idx>)
    requires StackValid(h, stack)
  {
    var x := NextIdx(h, loc);
    var h1 := AddToHistory(h, NewActivation(x, sp, loc));
    if stack == [] then (h1, [x]) else
      var caller := stack[|stack| - 1];
      AddKeeps(h, NewActivation(x, sp, loc), caller);
      var a := Get(h1, caller);
      (Put(h1, caller, a.(callees := a.callees + [x])), stack + [x])
  }

  /** When an event may happen: calls come from known images, the other events need a frame
      (the tool asserts it, and exits on a return that empties the stack). */
  predicate Enabled(s: State, e: Event)
    requires StackValid(s.arena, s.stack)
  {
    match e
    case Call(_, target) => target.imgno != NOIMG_SEQNO
    case Main(_) => true
    case Return(sp, _, _) => s.stack != [] && Adjust(s.arena, s.stack, sp) != []
    case SyscallLocation(_) => s.stack != []
    case SyscallEnter(_) => s.stack != [] && Get(s.arena, Top(s)).syscalls != []
    case SyscallExit(_) => s.stack != [] && Get(s.arena, Top(s)).syscalls != []
    case SaveStack => true
  }

  function LastSyscall(a: Activation, sc: Syscall): Activation
    requires a.syscalls != []
  {
    a.(syscalls := a.syscalls[|a.syscalls| - 1 := sc])
  }

  function Step(s: State, e: Event): State
    requires StackValid(s.arena, s.stack) && Enabled(s, e)
  {
    match e
    case Call(sp, target) =>
      var (h, st) := Create(s.arena, Adjust(s.arena, s.stack, sp), sp, target);
      s.(arena := h, stack := st)
    case Main(sp) =>
      var st := Adjust(s.arena, s.stack, sp);
      s.(stack := st, mainDepth := |st|)
    case Return(sp, ret, maps) =>
      var st := Adjust(s.arena, s.stack, sp);
      var x := st[|st| - 1];
      var a := Get(s.arena, x);
      var a1 := a.(ret := ret, memory := if x in s.saved then a.memory + maps else a.memory);
      s.(arena := Put(s.arena, x, a1), stack := st[..|st| - 1])
    case SyscallLocation(loc) =>
      var a := Get(s.arena, Top(s));
      s.(arena := Put(s.arena, Top(s), a.(syscalls := a.syscalls + [NewSyscall(loc)])))
    case SyscallEnter(id) =>
      var a := Get(s.arena, Top(s));
      s.(arena := Put(s.arena, Top(s), LastSyscall(a, a.syscalls[|a.syscalls| - 1].(id := id))))
    case SyscallExit(vret) =>
      var a := Get(s.arena, Top(s));
      s.(arena := Put(s.arena, Top(s), LastSyscall(a, a.syscalls[|a.syscalls| - 1].(vret := vret))))
    case SaveStack => s.(saved := s.stack)
  }

  // ---------------------------------------------------------------- the invariant

  /** Arena entry (loc, i) carries index (loc, i); no location has an empty list. */
  predicate Indexed(h: Arena) {
    forall loc :: loc in h ==> ListIndexed(loc, h[loc])
  }

  predicate ListIndexed(loc: Loc, acts: seq<Activation>) {
    |acts| > 0 && forall i :: 0 <= i < |acts| ==> acts[i].index == Idx(loc, i) && acts[i].loc == loc
  }

  /** Every callee exists and was entered with a stack pointer below its caller's. */
  ghost predicate CalleesBelow(h: Arena) {
    forall x, k :: ValidIdx(h, x) && 0 <= k < |Get(h, x).callees| ==>
      ValidIdx(h, Get(h, x).callees[k]) && Get(h, Get(h, x).callees[k]).sp < Get(h, x).sp
  }

  /** An activation is in at most one place of all callee lists. */
  ghost predicate OneCaller(h: Arena) {
    forall x, y, k, l ::
      (ValidIdx(h, x) && ValidIdx(h, y) && 0 <= k < |Get(h, x).callees| && 0 <= l < |Get(h, y).callees|
       && Get(h, x).callees[k] == Get(h, y).callees[l])
      ==> x == y && k == l
  }

  ghost predicate Forest(h: Arena) { Indexed(h) && CalleesBelow(h) && OneCaller(h) }

  /** A stack of valid frames, each a callee of the one below it. */
  predicate Chain(h: Arena, stack: seq<Idx>) {
    && StackValid(h, stack)
    && forall k :: 0 <= k < |stack| - 1 ==> stack[k + 1] in Get(h, stack[k]).callees
  }

  predicate Descending(h: Arena, stack: seq<Idx>)
    requires StackValid(h, stack)
  {
    forall k, l :: 0 <= k < l < |stack| ==> Get(h, stack[l]).sp < Get(h, stack[k]).sp
  }

  ghost predicate Inv(s: State) {
    && Forest(s.arena)
    && Chain(s.arena, s.stack) && Descending(s.arena, s.stack)
    && Chain(s.arena, s.saved) && Descending(s.arena, s.saved)
  }

  const INITIAL: State := State(0xffff_ffff_ffff_ffff, map[], [], [])

  // ---------------------------------------------------------------- runs

  ghost predicate Runs(s: State, es: seq<Event>)
    decreases |es|
  {
    es == [] || (StackValid(s.arena, s.stack) && Enabled(s, es[0]) && Runs(Step(s, es[0]), es[1..]))
  }

  ghost function RunAll(s: State, es: seq<Event>): State
    requires Runs(s, es)
    decreases |es|
  {
    if es == [] then s else RunAll(Step(s, es[0]), es[1..])
  }

  // ---------------------------------------------------------------- AdjustStack

  /** AdjustStack leaves exactly the frames with a larger stack pointer. */
  lemma {:induction false} AdjustExact(h: Arena, stack: seq<Idx>, sp: nat)
    requires StackValid(h, stack) && Descending(h, stack)
    ensures var r := Adjust(h, stack, sp);
            forall k :: 0 <= k < |stack| ==> (k < |r| <==> Get(h, stack[k]).sp > sp)
  {
    if stack != [] {
      var n := |stack| - 1;
      if sp < Get(h, stack[n]).sp {
        forall k | 0 <= k < |stack| ensures Get(h, stack[k]).sp > sp {
          assert k < n ==> Get(h, stack[n]).sp < Get(h, stack[k]).sp;
        }
      } else {
        AdjustExact(h, stack[..n], sp);
      }
    }
  }

  lemma PrefixKeeps(h: Arena, stack: seq<Idx>, prefix: seq<Idx>)
    requires Chain(h, stack) && Descending(h, stack) && prefix <= stack
    ensures Chain(h, prefix) && Descending(h, prefix)
  {}

  // ---------------------------------------------------------------- every step keeps the invariant

  /** b extends a: entries stay, with the same place and stack pointer and at least the callees. */
  ghost predicate Extends(a: Arena, b: Arena) {
    forall x :: ValidIdx(a, x) ==>
      ValidIdx(b, x) && Get(b, x).sp == Get(a, x).sp && Get(a, x).callees <= Get(b, x).callees
  }

  lemma ChainStays(a: Arena, b: Arena, stack: seq<Idx>)
    requires Extends(a, b) && Chain(a, stack) && Descending(a, stack)
    ensures Chain(b, stack) && Descending(b, stack)
  {
    forall k | 0 <= k < |stack| ensures ValidIdx(b, stack[k]) && Get(b, stack[k]).sp == Get(a, stack[k]).sp {
      assert ValidIdx(a, stack[k]);
    }
    forall k | 0 <= k < |stack| - 1 ensures stack[k + 1] in Get(b, stack[k]).callees {
      assert ValidIdx(a, stack[k]);
    }
  }

  lemma PutGet(h: Arena, x: Idx, a: Activation)
    requires ValidIdx(h, x)
    ensures forall y :: ValidIdx(Put(h, x, a), y) <==> ValidIdx(h, y)
    ensures forall y :: ValidIdx(h, y) ==> Get(Put(h, x, a), y) == if y == x then a else Get(h, y)
  {}

  /** Updating what a frame recorded, but not its place, stack pointer or callees. */
  lemma UpdateKeeps(h: Arena, x: Idx, a: Activation)
    requires Forest(h) && ValidIdx(h, x)
    requires a.index == x && a.loc == x.loc && a.sp == Get(h, x).sp && a.callees == Get(h, x).callees
    ensures Forest(Put(h, x, a)) && Extends(h, Put(h, x, a))
  {
    PutGet(h, x, a);
    var b := Put(h, x, a);
    forall loc | loc in b ensures ListIndexed(loc, b[loc]) {
      assert loc in h && ListIndexed(loc, h[loc]);
    }
    assert CalleesBelow(b);
    assert OneCaller(b);
  }

  lemma AddGet(h: Arena, a: Activation)
    requires a.index == NextIdx(h, a.loc)
    ensures forall y :: ValidIdx(AddToHistory(h, a), y) <==> ValidIdx(h, y) || y == a.index
    ensures forall y :: ValidIdx(AddToHistory(h, a), y) ==> Get(AddToHistory(h, a), y) == if y == a.index then a else Get(h, y)
    ensures !ValidIdx(h, a.index)
  {}

  /** A new activation is nobody's callee yet and has none itself. */
  lemma AddKeepsForest(h: Arena, a: Activation)
    requires Forest(h) && a.index == NextIdx(h, a.loc) && a.callees == []
    ensures Forest(AddToHistory(h, a)) && Extends(h, AddToHistory(h, a))
    ensures forall x, k :: ValidIdx(AddToHistory(h, a), x) && 0 <= k < |Get(AddToHistory(h, a), x).callees| ==>
              Get(AddToHistory(h, a), x).callees[k] != a.index
  {
    AddGet(h, a);
    var b := AddToHistory(h, a);
    forall loc | loc in b ensures ListIndexed(loc, b[loc]) {
      assert loc in h ==> ListIndexed(loc, h[loc]);
    }
    forall x, k | ValidIdx(b, x) && 0 <= k < |Get(b, x).callees|
      ensures ValidIdx(b, Get(b, x).callees[k]) && Get(b, Get(b, x).callees[k]).sp < Get(b, x).sp
      ensures Get(b, x).callees[k] != a.index
    {
      assert x != a.index;
      assert ValidIdx(h, x) && ValidIdx(h, Get(h, x).callees[k]);
    }
    forall x, y, k, l | ValidIdx(b, x) && ValidIdx(b, y) && 0 <= k < |Get(b, x).callees| && 0 <= l < |Get(b, y).callees|
      && Get(b, x).callees[k] == Get(b, y).callees[l]
      ensures x == y && k == l
    {
      assert x != a.index && y != a.index;
      assert ValidIdx(h, x) && ValidIdx(h, y);
    }
  }

  /** Registering it with its caller, whose stack pointer is larger. */
  lemma CalleeKeepsForest(h: Arena, caller: Idx, x: Idx)
    requires Forest(h) && ValidIdx(h, caller) && ValidIdx(h, x) && Get(h, x).sp < Get(h, caller).sp
    requires forall y, k :: ValidIdx(h, y) && 0 <= k < |Get(h, y).callees| ==> Get(h, y).callees[k] != x
    ensures var a := Get(h, caller);
            var b := Put(h, caller, a.(callees := a.callees + [x]));
            Forest(b) && Extends(h, b)
  {
    var a := Get(h, caller);
    var a1 := a.(callees := a.callees + [x]);
    var b := Put(h, caller, a1);
    PutGet(h, caller, a1);
    forall loc | loc in b ensures ListIndexed(loc, b[loc]) {
      assert loc in h && ListIndexed(loc, h[loc]);
    }
    forall y, k | ValidIdx(b, y) && 0 <= k < |Get(b, y).callees|
      ensures ValidIdx(b, Get(b, y).callees[k]) && Get(b, Get(b, y).callees[k]).sp < Get(b, y).sp
    {
      if y != caller || k < |a.callees| {
        assert Get(b, y).callees[k] == Get(h, y).callees[k];
        assert ValidIdx(h, Get(h, y).callees[k]);
      }
    }
    forall y, z, k, l | ValidIdx(b, y) && ValidIdx(b, z) && 0 <= k < |Get(b, y).callees| && 0 <= l < |Get(b, z).callees|
      && Get(b, y).callees[k] == Get(b, z).callees[l]
      ensures y == z && k == l
    {
      var newY := y == caller && k == |a.callees|;
      var newZ := z == caller && l == |a.callees|;
      assert newY || Get(b, y).callees[k] == Get(h, y).callees[k];
      assert newZ || Get(b, z).callees[l] == Get(h, z).callees[l];
    }
  }

  lemma CreateKeeps(h: Arena, stack: seq<Idx>, sp: nat, loc: Loc)
    requires Forest(h) && Chain(h, stack) && Descending(h, stack)
    requires forall k :: 0 <= k < |stack| ==> sp < Get(h, stack[k]).sp
    ensures var (b, st) := Create(h, stack, sp, loc);
            Forest(b) && Extends(h, b) && Chain(b, st) && Descending(b, st)
  {
    hide Forest, Extends;
    var x := NextIdx(h, loc);
    var a := NewActivation(x, sp, loc);
    var h1 := AddToHistory(h, a);
    AddGet(h, a);
    AddKeepsForest(h, a);
    ChainStays(h, h1, stack);
    if stack != [] {
      var caller := stack[|stack| - 1];
      var c := Get(h1, caller);
      var c1 := c.(callees := c.callees + [x]);
      CalleeKeepsForest(h1, caller, x);
      PutGet(h1, caller, c1);
      var b := Put(h1, caller, c1);
      ChainStays(h1, b, stack);
      ExtendsTransitive(h, h1, b);
      assert Create(h, stack, sp, loc) == (b, stack + [x]);
    }
  }

  lemma ExtendsTransitive(a: Arena, b: Arena, c: Arena)
    requires Extends(a, b) && Extends(b, c)
    ensures Extends(a, c)
  {
    forall x | ValidIdx(a, x)
      ensures ValidIdx(c, x) && Get(c, x).sp == Get(a, x).sp && Get(a, x).callees <= Get(c, x).callees
    {
      assert ValidIdx(b, x);
    }
  }

  /** Any mix of calls, returns, longjmps, system calls and snapshots keeps the invariant,
      and the arena only grows. */
  lemma StepKeeps(s: State, e: Event)
    requires Inv(s) && Enabled(s, e)
    ensures Inv(Step(s, e)) && Extends(s.arena, Step(s, e).arena)
  {
    hide Forest, Extends, Put;
    match e
    case Call(sp, target) =>
      var st := Adjust(s.arena, s.stack, sp);
      AdjustExact(s.arena, s.stack, sp);
      PrefixKeeps(s.arena, s.stack, st);
      CreateKeeps(s.arena, st, sp, target);
      ChainStays(s.arena, Step(s, e).arena, s.saved);
    case Main(sp) =>
      PrefixKeeps(s.arena, s.stack, Adjust(s.arena, s.stack, sp));
      ExtendsSelf(s.arena);
    case Return(sp, ret, maps) =>
      var st := Adjust(s.arena, s.stack, sp);
      var x := st[|st| - 1];
      var a := Get(s.arena, x);
      PrefixKeeps(s.arena, s.stack, st[..|st| - 1]);
      FrameUpdated(s, x, a.(ret := ret, memory := if x in s.saved then a.memory + maps else a.memory), st[..|st| - 1]);
    case SyscallLocation(loc) =>
      var a := Get(s.arena, Top(s));
      FrameUpdated(s, Top(s), a.(syscalls := a.syscalls + [NewSyscall(loc)]), s.stack);
    case SyscallEnter(id) =>
      var a := Get(s.arena, Top(s));
      FrameUpdated(s, Top(s), LastSyscall(a, a.syscalls[|a.syscalls| - 1].(id := id)), s.stack);
    case SyscallExit(vret) =>
      var a := Get(s.arena, Top(s));
      FrameUpdated(s, Top(s), LastSyscall(a, a.syscalls[|a.syscalls| - 1].(vret := vret)), s.stack);
    case SaveStack =>
      ExtendsSelf(s.arena);
  }

  lemma ExtendsSelf(h: Arena)
    ensures Extends(h, h)
  {}

  lemma FrameUpdated(s: State, x: Idx, a: Activation, stack: seq<Idx>)
    requires Inv(s) && ValidIdx(s.arena, x) && stack <= s.stack
    requires a.index == Get(s.arena, x).index && a.loc == Get(s.arena, x).loc
    requires a.sp == Get(s.arena, x).sp && a.callees == Get(s.arena, x).callees
    ensures Inv(s.(arena := Put(s.arena, x, a), stack := stack)) && Extends(s.arena, Put(s.arena, x, a))
  {
    hide Extends, CalleesBelow, OneCaller;
    assert a.index == x && a.loc == x.loc;
    UpdateKeeps(s.arena, x, a);
    PrefixKeeps(s.arena, s.stack, stack);
    ChainStays(s.arena, Put(s.arena, x, a), stack);
    ChainStays(s.arena, Put(s.arena, x, a), s.saved);
  }

  lemma InitialInv()
    ensures Inv(INITIAL)
  {}

  /** Every reachable state satisfies the invariant, for every sequence of events. */
  lemma {:induction false} RunKeeps(s: State, es: seq<Event>)
    requires Inv(s) && Runs(s, es)
    ensures Inv(RunAll(s, es)) && Extends(s.arena, RunAll(s, es).arena)
    decreases |es|
  {
    hide Inv, Step, Extends;
    if es == [] {
      ExtendsSelf(s.arena);
    } else {
      StepKeeps(s, es[0]);
      RunKeeps(Step(s, es[0]), es[1..]);
      ExtendsTransitive(s.arena, Step(s, es[0]).arena, RunAll(s, es).arena);
    }
  }

  lemma Reachable(es: seq<Event>)
    requires Runs(INITIAL, es)
    ensures Inv(RunAll(INITIAL, es))
  {
    InitialInv();
    RunKeeps(INITIAL, es);
  }
}
