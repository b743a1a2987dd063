/** What each event does to the call stack, said of the state before and after it. */
module CallEffects {
  import opened Common
  import opened CallStack

  /** The live frame with the least stack pointer. */
  ghost predicate Innermost(h: Arena, stack: seq<Idx>, x: Idx) {
    && ValidIdx(h, x) && x in stack
    && forall y :: y in stack ==> ValidIdx(h, y) && (y != x ==> Get(h, x).sp < Get(h, y).sp)
  }

  /** kept are the frames above stack pointer sp. */
  ghost predicate Kept(h: Arena, stack: seq<Idx>, sp: nat, kept: seq<Idx>) {
    && StackValid(h, stack) && kept <= stack
    && forall k :: 0 <= k < |stack| ==> (k < |kept| <==> Get(h, stack[k]).sp > sp)
  }

  /** Activation x, and nothing else in the arena, becomes a. */
  ghost predicate Becomes(before: Arena, after: Arena, x: Idx, a: Activation) {
    && ValidIdx(before, x)
    && (forall y :: ValidIdx(after, y) <==> ValidIdx(before, y))
    && (forall y :: ValidIdx(before, y) ==> Get(after, y) == if y == x then a else Get(before, y))
  }

  /** A new activation x, registered with caller when there is one. */
  ghost predicate Enters(before: Arena, after: Arena, stack: seq<Idx>, x: Idx, a: Activation) {
    && !ValidIdx(before, x)
    && (forall y :: ValidIdx(after, y) <==> ValidIdx(before, y) || y == x)
    && ValidIdx(after, x) && Get(after, x) == a
    && forall y :: ValidIdx(before, y) ==>
         Get(after, y) == if Innermost(before, stack, y) then Get(before, y).(callees := Get(before, y).callees + [x])
                          else Get(before, y)
  }

  ghost predicate Effect(s: State, e: Event, t: State) {
    match e
    case Call(sp, target) =>
      exists kept, x :: Entered(s, t, sp, target, kept, x)
    case Main(sp) =>
      exists kept :: Kept(s.arena, s.stack, sp, kept) && t == s.(stack := kept, mainDepth := |kept|)
    case Return(sp, ret, maps) =>
      exists x :: Returned(s, t, sp, ret, maps, x)
    case SaveStack => t == s.(saved := s.stack)
    case _ => exists x :: Recorded(s, t, x) && Change(e, Get(s.arena, x), Get(t.arena, x))
  }

  /** Only the innermost frame changes. */
  ghost predicate Recorded(s: State, t: State, x: Idx) {
    && Innermost(s.arena, s.stack, x) && ValidIdx(s.arena, x) && ValidIdx(t.arena, x)
    && Becomes(s.arena, t.arena, x, Get(t.arena, x))
    && t == s.(arena := t.arena)
  }

  /** What an event records in a frame: one more system call, of which only the location is known; the
      number of the last one; its result. */
  predicate Change(e: Event, a: Activation, b: Activation) {
    var n := |a.syscalls|;
    match e
    case SyscallLocation(loc) =>
      b == a.(syscalls := a.syscalls + [Syscall(loc, 0xffff_ffff_ffff_ffff, 0x0f0f_0f0f_0f0f_0f0f, 0x0f0f_0f0f_0f0f_0f0f)])
    case SyscallEnter(id) => n > 0 && b == a.(syscalls := a.syscalls[..n - 1] + [a.syscalls[n - 1].(id := id)])
    case SyscallExit(vret) => n > 0 && b == a.(syscalls := a.syscalls[..n - 1] + [a.syscalls[n - 1].(vret := vret)])
    case _ => false
  }

  /** A call: frames at or below sp are gone; the new frame is at the target, below the rest. */
  ghost predicate Entered(s: State, t: State, sp: nat, target: Loc, kept: seq<Idx>, x: Idx) {
    && Kept(s.arena, s.stack, sp, kept)
    && t == s.(arena := t.arena, stack := kept + [x])
    && x.loc == target
    && Enters(s.arena, t.arena, kept, x,
              Activation(x, sp, target, Ret(Loc(NOIMG_SEQNO, 0), 0x0f0f_0f0f_0f0f_0f0f), [], [], []))
  }

  /** A return: of the frames above sp the innermost one gets the value returned, and the memory map
      if it is in the saved stack; and it is the one that leaves. */
  ghost predicate Returned(s: State, t: State, sp: nat, ret: Ret, maps: seq<(nat, nat)>, x: Idx) {
    && ValidIdx(s.arena, x)
    && Kept(s.arena, s.stack, sp, t.stack + [x])
    && Innermost(s.arena, t.stack + [x], x)
    && t == s.(arena := t.arena, stack := t.stack)
    && Becomes(s.arena, t.arena, x,
               Get(s.arena, x).(ret := ret, memory := if x in s.saved then Get(s.arena, x).memory + maps else Get(s.arena, x).memory))
  }

  // ---------------------------------------------------------------- every step has its effect

  lemma TopIsInnermost(h: Arena, stack: seq<Idx>)
    requires StackValid(h, stack) && Descending(h, stack) && stack != []
    ensures Innermost(h, stack, stack[|stack| - 1])
    ensures forall y :: Innermost(h, stack, y) ==> y == stack[|stack| - 1]
  {}

  lemma PutBecomes(h: Arena, x: Idx, a: Activation)
    requires ValidIdx(h, x)
    ensures Becomes(h, Put(h, x, a), x, a)
  {
    PutGet(h, x, a);
  }

  lemma CreateEnters(h: Arena, stack: seq<Idx>, sp: nat, loc: Loc)
    requires StackValid(h, stack) && Descending(h, stack)
    ensures var (b, st) := Create(h, stack, sp, loc);
            var x := NextIdx(h, loc);
            && st == stack + [x] && x.loc == loc
            && Enters(h, b, stack, x, NewActivation(x, sp, loc))
  {
    hide Put, CallStack.AddToHistory;
    var x := NextIdx(h, loc);
    var a := NewActivation(x, sp, loc);
    AddGet(h, a);
    if stack != [] {
      TopIsInnermost(h, stack);
      var caller := stack[|stack| - 1];
      var h1 := CallStack.AddToHistory(h, a);
      PutGet(h1, caller, Get(h1, caller).(callees := Get(h1, caller).callees + [x]));
    }
  }

  lemma InvParts(s: State)
    requires Inv(s)
    ensures Chain(s.arena, s.stack) && Descending(s.arena, s.stack) && StackValid(s.arena, s.stack)
  {}

  lemma KeptFrames(s: State, sp: nat)
    requires Inv(s)
    ensures StackValid(s.arena, s.stack)
    ensures var st := Adjust(s.arena, s.stack, sp);
            Kept(s.arena, s.stack, sp, st) && StackValid(s.arena, st) && Descending(s.arena, st)
  {
    hide Inv;
    InvParts(s);
    AdjustExact(s.arena, s.stack, sp);
    PrefixKeeps(s.arena, s.stack, Adjust(s.arena, s.stack, sp));
  }

  lemma LastReplaced(a: Activation, sc: Syscall)
    requires a.syscalls != []
    ensures LastSyscall(a, sc) == a.(syscalls := a.syscalls[..|a.syscalls| - 1] + [sc])
  {}

  lemma RecordEffect(s: State, e: Event)
    requires Inv(s) && Enabled(s, e) && (e.SyscallLocation? || e.SyscallEnter? || e.SyscallExit?)
    ensures Effect(s, e, Step(s, e))
  {
    hide Inv, Put, Recorded, LastSyscall;
    InvParts(s);
    var a := Get(s.arena, s.stack[|s.stack| - 1]);
    match e
    case SyscallLocation(loc) =>
      TopUpdated(s, a.(syscalls := a.syscalls + [NewSyscall(loc)]));
    case SyscallEnter(id) =>
      LastReplaced(a, a.syscalls[|a.syscalls| - 1].(id := id));
      TopUpdated(s, LastSyscall(a, a.syscalls[|a.syscalls| - 1].(id := id)));
    case SyscallExit(vret) =>
      LastReplaced(a, a.syscalls[|a.syscalls| - 1].(vret := vret));
      TopUpdated(s, LastSyscall(a, a.syscalls[|a.syscalls| - 1].(vret := vret)));
  }

  /** Every step has its effect. */
  lemma StepEffect(s: State, e: Event)
    requires Inv(s) && Enabled(s, e)
    ensures Effect(s, e, Step(s, e))
  {
    hide Inv, Put, Recorded, Becomes, Innermost, Kept, Enters, Create, Adjust;
    InvParts(s);
    var t := Step(s, e);
    match e
    case Call(sp, target) =>
      KeptFrames(s, sp);
      var st := Adjust(s.arena, s.stack, sp);
      CreateEnters(s.arena, st, sp, target);
      assert Entered(s, t, sp, target, st, NextIdx(s.arena, target));
    case Main(sp) =>
      KeptFrames(s, sp);
    case Return(sp, ret, maps) =>
      KeptFrames(s, sp);
      var st := Adjust(s.arena, s.stack, sp);
      TopIsInnermost(s.arena, st);
      var x := st[|st| - 1];
      var a := Get(s.arena, x);
      PutBecomes(s.arena, x, a.(ret := ret, memory := if x in s.saved then a.memory + maps else a.memory));
      assert t.stack + [x] == st;
      assert Returned(s, t, sp, ret, maps, x);
    case SaveStack =>
    case _ => RecordEffect(s, e);
  }

  /** An update of the frame on top. */
  lemma TopUpdated(s: State, b: Activation)
    requires Inv(s) && s.stack != []
    ensures var x := s.stack[|s.stack| - 1];
            && ValidIdx(s.arena, x) && Recorded(s, s.(arena := Put(s.arena, x, b)), x) && Get(Put(s.arena, x, b), x) == b
  {
    hide Inv, Put, Becomes, Innermost;
    InvParts(s);
    TopIsInnermost(s.arena, s.stack);
    PutBecomes(s.arena, s.stack[|s.stack| - 1], b);
    PutGet(s.arena, s.stack[|s.stack| - 1], b);
  }

  // ---------------------------------------------------------------- the effect determines the step

  /** Arenas without empty lists are equal when they have equal entries. */
  lemma SameEntries(a: Arena, b: Arena)
    requires Indexed(a) && Indexed(b)
    requires forall y :: ValidIdx(a, y) <==> ValidIdx(b, y)
    requires forall y :: ValidIdx(a, y) ==> Get(a, y) == Get(b, y)
    ensures a == b
  {
    forall loc | loc in a || loc in b ensures loc in a && loc in b && a[loc] == b[loc] {
      assert loc in a ==> ListIndexed(loc, a[loc]);
      assert loc in b ==> ListIndexed(loc, b[loc]);
      assert ValidIdx(a, Idx(loc, 0)) && ValidIdx(b, Idx(loc, 0));
      SameList(a, b, loc);
    }
  }

  lemma SameList(a: Arena, b: Arena, loc: Loc)
    requires loc in a && loc in b && a[loc] != [] && b[loc] != []
    requires forall y :: ValidIdx(a, y) <==> ValidIdx(b, y)
    requires forall y :: ValidIdx(a, y) ==> Get(a, y) == Get(b, y)
    ensures a[loc] == b[loc]
  {
    assert ValidIdx(a, Idx(loc, |a[loc]| - 1)) && ValidIdx(b, Idx(loc, |b[loc]| - 1));
    forall i | 0 <= i < |a[loc]| ensures a[loc][i] == b[loc][i] {
      assert ValidIdx(a, Idx(loc, i)) && Get(a, Idx(loc, i)) == a[loc][i];
    }
  }

  lemma OneBecomes(before: Arena, a: Arena, b: Arena, x: Idx, v: Activation)
    requires Becomes(before, a, x, v) && Becomes(before, b, x, v) && Indexed(a) && Indexed(b)
    ensures a == b
  {
    SameEntries(a, b);
  }

  lemma OneEnters(before: Arena, a: Arena, b: Arena, stack: seq<Idx>, x: Idx, v: Activation)
    requires Enters(before, a, stack, x, v) && Enters(before, b, stack, x, v) && Indexed(a) && Indexed(b)
    ensures a == b
  {
    SameEntries(a, b);
  }

  /** A new activation comes last in the list of its location. */
  lemma NewComesLast(before: Arena, after: Arena, stack: seq<Idx>, x: Idx, v: Activation)
    requires Enters(before, after, stack, x, v)
    ensures x == NextIdx(before, x.loc)
  {
    if x.pos > 0 {
      assert ValidIdx(after, Idx(x.loc, x.pos - 1));
      assert ValidIdx(before, Idx(x.loc, x.pos - 1));
    }
  }

  lemma OneKept(h: Arena, stack: seq<Idx>, sp: nat, a: seq<Idx>, b: seq<Idx>)
    requires Kept(h, stack, sp, a) && Kept(h, stack, sp, b)
    ensures a == b
  {
    assert |a| < |stack| ==> Get(h, stack[|a|]).sp <= sp;
    assert |b| < |stack| ==> Get(h, stack[|b|]).sp <= sp;
    assert a == stack[..|a|] && b == stack[..|b|];
  }

  lemma OneInnermost(h: Arena, stack: seq<Idx>, x: Idx, y: Idx)
    requires Innermost(h, stack, x) && Innermost(h, stack, y)
    ensures x == y
  {}

  /** A step is determined by its effect. */
  lemma EffectDetermines(s: State, e: Event, t: State, u: State)
    requires Effect(s, e, t) && Effect(s, e, u) && Indexed(t.arena) && Indexed(u.arena)
    ensures t == u
  {
    hide Innermost, Kept, Becomes, Enters, Indexed;
    match e
    case Call(sp, target) =>
      var a, x :| Entered(s, t, sp, target, a, x);
      var b, y :| Entered(s, u, sp, target, b, y);
      OneKept(s.arena, s.stack, sp, a, b);
      NewComesLast(s.arena, t.arena, a, x, Get(t.arena, x)) by { EnteredIs(s, t, sp, target, a, x); }
      NewComesLast(s.arena, u.arena, b, y, Get(u.arena, y)) by { EnteredIs(s, u, sp, target, b, y); }
      OneEnters(s.arena, t.arena, u.arena, a, x, Activation(x, sp, target, Ret(Loc(NOIMG_SEQNO, 0), 0x0f0f_0f0f_0f0f_0f0f), [], [], []));
    case Main(sp) =>
      var a :| Kept(s.arena, s.stack, sp, a) && t == s.(stack := a, mainDepth := |a|);
      var b :| Kept(s.arena, s.stack, sp, b) && u == s.(stack := b, mainDepth := |b|);
      OneKept(s.arena, s.stack, sp, a, b);
    case Return(sp, ret, maps) =>
      var x :| Returned(s, t, sp, ret, maps, x);
      var y :| Returned(s, u, sp, ret, maps, y);
      OneKept(s.arena, s.stack, sp, t.stack + [x], u.stack + [y]);
      assert t.stack == (t.stack + [x])[..|t.stack|] == u.stack && x == (t.stack + [x])[|t.stack|] == y;
      var a := Get(s.arena, x);
      OneBecomes(s.arena, t.arena, u.arena, x, a.(ret := ret, memory := if x in s.saved then a.memory + maps else a.memory));
    case SyscallLocation(loc) =>
      SameRecorded(s, e, t, u);
    case SyscallEnter(id) =>
      SameRecorded(s, e, t, u);
    case SyscallExit(vret) =>
      SameRecorded(s, e, t, u);
    case SaveStack =>
  }

  lemma EnteredIs(s: State, t: State, sp: nat, target: Loc, kept: seq<Idx>, x: Idx)
    requires Entered(s, t, sp, target, kept, x)
    ensures ValidIdx(t.arena, x) && Enters(s.arena, t.arena, kept, x, Get(t.arena, x))
  {}

  lemma SameRecorded(s: State, e: Event, t: State, u: State)
    requires Effect(s, e, t) && Effect(s, e, u) && Indexed(t.arena) && Indexed(u.arena)
    requires e.SyscallLocation? || e.SyscallEnter? || e.SyscallExit?
    ensures t == u
  {
    hide Innermost, Becomes, Indexed;
    var x :| Recorded(s, t, x) && Change(e, Get(s.arena, x), Get(t.arena, x));
    var y :| Recorded(s, u, y) && Change(e, Get(s.arena, y), Get(u.arena, y));
    OneInnermost(s.arena, s.stack, x, y);
    OneBecomes(s.arena, t.arena, u.arena, x, Get(t.arena, x));
  }
}
