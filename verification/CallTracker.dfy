/** The tracker object itself (class CS, common/callstack.cpp): the events and the queries as
    they run, each against the step or the query it stands for. */
module CallTracker {
  import opened Options
  import opened Common
  import opened CallStack
  import opened CallQueries
  import CallCollect
  import opened CallEffects

  class CS {
    var mainDepth: nat
    var arena: Arena
    var stack: seq<Idx>
    var saved: seq<Idx>

    function Abs(): State
      reads this
    {
      State(mainDepth, arena, stack, saved)
    }

    constructor ()
      ensures Abs() == INITIAL && Inv(Abs())
    {
      mainDepth := 0xffff_ffff_ffff_ffff;
      arena, stack, saved := map[], [], [];
      new;
      InitialInv();
    }

    // ---------------------------------------------------------------- parts of the events

    /** Frames at or below sp are popped one by one; the last one too. */
    method AdjustStack(sp: nat)
      requires StackValid(arena, stack)
      modifies this
      ensures Abs() == old(Abs()).(stack := Adjust(old(arena), old(stack), sp))
    {
      if |stack| == 0 { return; }
      while sp >= Get(arena, stack[|stack| - 1]).sp
        invariant stack != [] && stack <= old(stack)
        invariant Abs() == old(Abs()).(stack := stack)
        invariant Adjust(arena, stack, sp) == Adjust(arena, old(stack), sp)
        decreases |stack|
      {
        if |stack| == 1 {
          stack := [];
          return;
        }
        stack := stack[..|stack| - 1];
      }
    }

    method AddToHistory(a: Activation)
      modifies this
      ensures Abs() == old(Abs()).(arena := CallStack.AddToHistory(old(arena), a))
    {
      if a.loc !in arena {
        arena := arena[a.loc := []];
      }
      arena := arena[a.loc := arena[a.loc] + [a]];
      assert arena == CallStack.AddToHistory(old(arena), a);
    }

    method CreateActivation(sp: nat, loc: Loc)
      requires StackValid(arena, stack) && loc.imgno != NOIMG_SEQNO
      modifies this
      ensures Abs() == old(Abs()).(arena := Create(old(arena), old(stack), sp, loc).0,
                                   stack := Create(old(arena), old(stack), sp, loc).1)
    {
      var x := NextIdx(arena, loc);
      var a := NewActivation(x, sp, loc);
      AddToHistory(a);
      if |stack| > 0 {
        var caller := stack[|stack| - 1];
        AddKeeps(old(arena), a, caller);
        arena := Put(arena, caller, Get(arena, caller).(callees := Get(arena, caller).callees + [x]));
      }
      stack := stack + [x];
    }

    method IsInSavedStack(x: Idx) returns (b: bool)
      ensures b <==> x in saved
    {
      var i := 0;
      while i < |saved|
        invariant i <= |saved| && x !in saved[..i]
      {
        if saved[i] == x { return true; }
        i := i + 1;
      }
      assert saved[..i] == saved;
      b := false;
    }

    // ---------------------------------------------------------------- events

    method ProcessCall(sp: nat, target: Loc)
      requires Inv(Abs()) && target.imgno != NOIMG_SEQNO
      modifies this
      ensures Abs() == Step(old(Abs()), Call(sp, target)) && Inv(Abs())
      ensures Effect(old(Abs()), Call(sp, target), Abs())
    {
      hide Effect, Inv, Create;
      InvStack(Abs());
      StepKeeps(Abs(), Call(sp, target));
      StepEffect(Abs(), Call(sp, target));
      AdjustStack(sp);
      CreateActivation(sp, target);
    }

    method ProcessMain(sp: nat)
      requires Inv(Abs())
      modifies this
      ensures Abs() == Step(old(Abs()), Main(sp)) && Inv(Abs())
      ensures Effect(old(Abs()), Main(sp), Abs())
    {
      hide Effect, Inv;
      InvStack(Abs());
      StepKeeps(Abs(), Main(sp));
      StepEffect(Abs(), Main(sp));
      AdjustStack(sp);
      mainDepth := |stack|;
    }

    /** A return. When the stack pointer shows that every frame is gone the tool gives up:
        it exits with an empty stack. */
    method ProcessReturn(sp: nat, ret: Ret, maps: seq<(nat, nat)>) returns (exits: bool)
      requires Inv(Abs()) && stack != []
      modifies this
      ensures StackValid(old(arena), old(stack))
      ensures exits <==> forall k :: 0 <= k < |old(stack)| ==> Get(old(arena), old(stack)[k]).sp <= sp
      ensures exits ==> Abs() == old(Abs()).(stack := [])
      ensures !exits ==> Enabled(old(Abs()), Return(sp, ret, maps))
      ensures !exits ==> Abs() == Step(old(Abs()), Return(sp, ret, maps)) && Inv(Abs())
      ensures !exits ==> Effect(old(Abs()), Return(sp, ret, maps), Abs())
    {
      hide Effect, Inv, Put;
      InvStack(Abs());
      AdjustExact(arena, stack, sp);
      AdjustStack(sp);
      if |stack| == 0 {
        return true;
      }
      StepKeeps(old(Abs()), Return(sp, ret, maps));
      StepEffect(old(Abs()), Return(sp, ret, maps));
      var x := stack[|stack| - 1];
      assert x == old(stack)[|stack| - 1];
      var a := Get(arena, x).(ret := ret);
      if |saved| > 0 {
        var inSaved := IsInSavedStack(x);
        if inSaved {
          a := a.(memory := a.memory + maps);
        }
      }
      arena := Put(arena, x, a);
      stack := stack[..|stack| - 1];
      exits := false;
      assert Get(old(arena), old(stack)[|stack|]).sp > sp;
    }

    method ProcessSyscallLocation(loc: Loc)
      requires Inv(Abs()) && stack != []
      modifies this
      ensures Enabled(old(Abs()), SyscallLocation(loc))
      ensures Abs() == Step(old(Abs()), SyscallLocation(loc)) && Inv(Abs())
      ensures Effect(old(Abs()), SyscallLocation(loc), Abs())
    {
      hide Effect, Inv, Put;
      InvStack(Abs());
      StepKeeps(Abs(), SyscallLocation(loc));
      StepEffect(Abs(), SyscallLocation(loc));
      var x := stack[|stack| - 1];
      var a := Get(arena, x);
      arena := Put(arena, x, a.(syscalls := a.syscalls + [NewSyscall(loc)]));
    }

    method ProcessSyscallEnter(id: nat)
      requires Inv(Abs()) && Enabled(Abs(), SyscallEnter(id))
      modifies this
      ensures Abs() == Step(old(Abs()), SyscallEnter(id)) && Inv(Abs())
      ensures Effect(old(Abs()), SyscallEnter(id), Abs())
    {
      hide Effect, Inv, Put;
      InvStack(Abs());
      StepKeeps(Abs(), SyscallEnter(id));
      StepEffect(Abs(), SyscallEnter(id));
      var x := stack[|stack| - 1];
      var a := Get(arena, x);
      var n := |a.syscalls|;
      arena := Put(arena, x, a.(syscalls := a.syscalls[n - 1 := a.syscalls[n - 1].(id := id)]));
    }

    method ProcessSyscallExit(vret: nat)
      requires Inv(Abs()) && Enabled(Abs(), SyscallExit(vret))
      modifies this
      ensures Abs() == Step(old(Abs()), SyscallExit(vret)) && Inv(Abs())
      ensures Effect(old(Abs()), SyscallExit(vret), Abs())
    {
      hide Effect, Inv, Put;
      InvStack(Abs());
      StepKeeps(Abs(), SyscallExit(vret));
      StepEffect(Abs(), SyscallExit(vret));
      var x := stack[|stack| - 1];
      var a := Get(arena, x);
      var n := |a.syscalls|;
      arena := Put(arena, x, a.(syscalls := a.syscalls[n - 1 := a.syscalls[n - 1].(vret := vret)]));
    }

    method SaveStack()
      requires Inv(Abs())
      modifies this
      ensures Abs() == Step(old(Abs()), Event.SaveStack) && Inv(Abs())
      ensures Effect(old(Abs()), Event.SaveStack, Abs())
    {
      hide Effect, Inv;
      InvStack(Abs());
      StepKeeps(Abs(), Event.SaveStack);
      StepEffect(Abs(), Event.SaveStack);
      saved := stack;
    }

    // ---------------------------------------------------------------- queries

    function IsIdxValid(x: Idx): (b: bool)
      reads this
      ensures b <==> ValidIdx(arena, x)
    {
      !(x.loc !in arena || x.pos >= |arena[x.loc]|)
    }

    /** HasSyscall, loop and recursion. */
    method HasSyscall(x: Idx, skip: Option<Idx>) returns (b: bool)
      requires Indexed(arena) && Below(arena) && ValidIdx(arena, x)
      ensures b == Has(arena, x, skip)
      decreases Get(arena, x).sp
    {
      hide Below;
      var a := Get(arena, x);
      if |a.syscalls| > 0 {
        return true;
      }
      Own(arena, x);
      var i := 0;
      while i < |a.callees|
        invariant i <= |a.callees|
        invariant Has(arena, x, skip) <==> HasIn(arena, a.callees[i..], skip, a.sp)
      {
        var y := a.callees[i];
        assert a.callees[i..][0] == y && a.callees[i..][1..] == a.callees[i + 1..];
        if IsIdxValid(y) && Some(y) != skip {
          var inner := HasSyscall(y, None);
          if inner { return true; }
        }
        i := i + 1;
      }
      b := false;
    }

    /** GetSyscalls: appends what the subtree recorded to the caller's list, each activation once. */
    method GetSyscalls(x: Idx, skip: Option<Idx>, found: seq<Syscall>) returns (r: seq<Syscall>)
      requires Indexed(arena) && Below(arena) && ValidIdx(arena, x)
      ensures r == found + Collect(arena, x, skip)
      ensures Forest(arena) ==>
                exists ys :: CallCollect.Lists(arena, x, skip, ys) && r == found + CallCollect.CallsOf(arena, ys)
      decreases Get(arena, x).sp
    {
      hide Below, Collect, CollectIn, Forest, CallCollect.Lists, CallCollect.CallsOf;
      var a := Get(arena, x);
      r := found;
      var i := 0;
      while i < |a.syscalls|
        invariant i <= |a.syscalls| && r == found + a.syscalls[..i]
      {
        r := r + [a.syscalls[i]];
        i := i + 1;
      }
      Own(arena, x);
      CollectParts(arena, x, skip);
      assert r == found + a.syscalls;
      i := 0;
      while i < |a.callees|
        invariant i <= |a.callees|
        invariant r + CollectIn(arena, a.callees[i..], skip, a.sp) == found + Collect(arena, x, skip)
      {
        var y := a.callees[i];
        CollectNext(arena, a.callees[i..], skip, a.sp);
        assert a.callees[i..][1..] == a.callees[i + 1..];
        if IsIdxValid(y) && Some(y) != skip {
          r := GetSyscalls(y, None, r);
        }
        i := i + 1;
      }
      if Forest(arena) {
        ghost var ys := CallCollect.CollectsSubtree(arena, x, skip);
      }
    }

    /** GetRPCandidateIdx: the search from the innermost saved frame outwards finds the deepest
        frame whose call subtree recorded a system call. */
    method GetRPCandidateIdx() returns (r: int)
      requires Inv(Abs())
      ensures -1 <= r < |saved|
      ensures r >= 0 ==> SubtreeCalls(arena, saved[r])
      ensures forall i :: r < i < |saved| ==> !SubtreeCalls(arena, saved[i])
      ensures r == -1 <==> saved == [] || !SubtreeCalls(arena, saved[0])
    {
      hide Inv, Below, SubtreeCalls, Has;
      CandidateIdx(Abs());
      InvStack(Abs());
      var size := |saved|;
      var i := size - 1;
      while i >= 0
        invariant -1 <= i < size == |saved|
        invariant CandidateBelow(arena, saved, |saved|) == CandidateBelow(arena, saved, i + 1)
      {
        var calls;
        if i != size - 1 {
          calls := HasSyscall(saved[i], Some(saved[i + 1]));
        } else {
          calls := HasSyscall(saved[i], None);
        }
        if calls { return i; }
        i := i - 1;
      }
      r := -1;
    }
  }

  lemma InvStack(s: State)
    requires Inv(s)
    ensures StackValid(s.arena, s.stack) && Descending(s.arena, s.stack)
    ensures StackValid(s.arena, s.saved) && Indexed(s.arena)
  {}

  lemma CollectParts(h: Arena, x: Idx, skip: Option<Idx>)
    requires Indexed(h) && Below(h) && ValidIdx(h, x)
    ensures ListBelow(h, Get(h, x).callees, Get(h, x).sp)
    ensures Collect(h, x, skip) == Get(h, x).syscalls + CollectIn(h, Get(h, x).callees[0..], skip, Get(h, x).sp)
    ensures CollectIn(h, [], skip, Get(h, x).sp) == []
  {
    assert Get(h, x).callees[0..] == Get(h, x).callees;
  }

  lemma CollectNext(h: Arena, list: seq<Idx>, skip: Option<Idx>, bound: nat)
    requires Indexed(h) && Below(h) && ListBelow(h, list, bound) && list != []
    ensures CollectIn(h, list, skip, bound)
         == (if Some(list[0]) != skip then Collect(h, list[0], None) else []) + CollectIn(h, list[1..], skip, bound)
  {}
}
