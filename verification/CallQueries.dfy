/** Queries over the call forest: which frames made system calls (common/callstack.cpp). */
module CallQueries {
  import opened Options
  import opened CallStack

  // ---------------------------------------------------------------- the recursive queries

  /** HasSyscall: the activation or one of its callees, except skip, leads to a system call.
      The recursion ends because stack pointers fall along callee edges. */
  predicate Has(h: Arena, x: Idx, skip: Option<Idx>)
    requires Indexed(h) && Below(h) && ValidIdx(h, x)
    decreases Get(h, x).sp, |Get(h, x).callees| + 1
  {
    Get(h, x).syscalls != [] || HasIn(h, Get(h, x).callees, skip, Get(h, x).sp)
  }

  predicate HasIn(h: Arena, list: seq<Idx>, skip: Option<Idx>, bound: nat)
    requires Indexed(h) && Below(h) && ListBelow(h, list, bound)
    decreases bound, |list|
  {
    list != [] &&
    ((Some(list[0]) != skip && Has(h, list[0], None)) || HasIn(h, list[1..], skip, bound))
  }

  /** GetSyscalls: the system calls of the activation and then those of its callees, in order. */
  function Collect(h: Arena, x: Idx, skip: Option<Idx>): seq<Syscall>
    requires Indexed(h) && Below(h) && ValidIdx(h, x)
    decreases Get(h, x).sp, |Get(h, x).callees| + 1
  {
    Get(h, x).syscalls + CollectIn(h, Get(h, x).callees, skip, Get(h, x).sp)
  }

  function CollectIn(h: Arena, list: seq<Idx>, skip: Option<Idx>, bound: nat): seq<Syscall>
    requires Indexed(h) && Below(h) && ListBelow(h, list, bound)
    decreases bound, |list|
  {
    if list == [] then []
    else (if Some(list[0]) != skip then Collect(h, list[0], None) else []) + CollectIn(h, list[1..], skip, bound)
  }

  predicate ListBelow(h: Arena, list: seq<Idx>, bound: nat) {
    forall k :: 0 <= k < |list| ==> ValidIdx(h, list[k]) && Get(h, list[k]).sp < bound
  }

  /** CalleesBelow over the finitely many entries of the arena. */
  predicate Below(h: Arena) {
    forall loc | loc in h :: forall i :: 0 <= i < |h[loc]| ==> ListBelow(h, h[loc][i].callees, h[loc][i].sp)
  }

  lemma ForestBelow(h: Arena)
    requires Forest(h)
    ensures Below(h)
  {
    forall loc, i | loc in h && 0 <= i < |h[loc]| ensures ListBelow(h, h[loc][i].callees, h[loc][i].sp) {
      assert ValidIdx(h, Idx(loc, i)) && Get(h, Idx(loc, i)) == h[loc][i];
    }
  }

  // ---------------------------------------------------------------- what they mean

  /** A walk down the call forest. */
  ghost predicate Walk(h: Arena, p: seq<Idx>) {
    p != [] && Chain(h, p)
  }

  /** Activation y belongs to the subtree of x: a walk leads from x to y. */
  ghost predicate InSubtree(h: Arena, x: Idx, y: Idx) {
    exists p :: Walk(h, p) && p[0] == x && p[|p| - 1] == y
  }

  /** Some activation in the subtree of x recorded a system call. */
  ghost predicate SubtreeCalls(h: Arena, x: Idx) {
    exists y :: InSubtree(h, x, y) && ValidIdx(h, y) && Get(h, y).syscalls != []
  }

  lemma {:induction false} HasInIff(h: Arena, list: seq<Idx>, skip: Option<Idx>, bound: nat)
    requires Indexed(h) && Below(h) && ListBelow(h, list, bound)
    ensures HasIn(h, list, skip, bound) <==>
            exists k :: 0 <= k < |list| && Some(list[k]) != skip && Has(h, list[k], None)
    decreases |list|
  {
    hide Below, Has;
    if list != [] {
      HasInIff(h, list[1..], skip, bound);
      if HasIn(h, list[1..], skip, bound) {
        var k :| 0 <= k < |list[1..]| && Some(list[1..][k]) != skip && Has(h, list[1..][k], None);
        assert list[k + 1] == list[1..][k];
      }
      if k :| 0 <= k < |list| && Some(list[k]) != skip && Has(h, list[k], None) {
        assert k > 0 ==> list[k] == list[1..][k - 1];
      }
    }
  }

  lemma Own(h: Arena, x: Idx)
    requires Indexed(h) && Below(h) && ValidIdx(h, x)
    ensures ListBelow(h, Get(h, x).callees, Get(h, x).sp)
  {}

  /** HasSyscall without an exception holds exactly when the subtree recorded a system call. */
  lemma {:induction false} HasFindsWalk(h: Arena, x: Idx) returns (p: seq<Idx>)
    requires Indexed(h) && Below(h) && ValidIdx(h, x) && Has(h, x, None)
    ensures Walk(h, p) && p[0] == x && Get(h, p[|p| - 1]).syscalls != []
    decreases Get(h, x).sp
  {
    hide Below;
    p := [x];
    Own(h, x);
    if Get(h, x).syscalls == [] {
      var list := Get(h, x).callees;
      HasInIff(h, list, None, Get(h, x).sp);
      var k :| 0 <= k < |list| && Has(h, list[k], None);
      var q := HasFindsWalk(h, list[k]);
      p := [x] + q;
      forall i | 0 <= i < |p| - 1 ensures p[i + 1] in Get(h, p[i]).callees {
        assert i > 0 ==> p[i] == q[i - 1] && p[i + 1] == q[i - 1 + 1];
      }
    }
  }

  lemma {:induction false} WalkGivesHas(h: Arena, p: seq<Idx>)
    requires Indexed(h) && Below(h) && Walk(h, p) && Get(h, p[|p| - 1]).syscalls != []
    ensures Has(h, p[0], None)
    decreases |p|
  {
    hide Below;
    if |p| > 1 {
      var q := p[1..];
      forall i | 0 <= i < |q| - 1 ensures q[i + 1] in Get(h, q[i]).callees {
        assert p[i + 1 + 1] in Get(h, p[i + 1]).callees;
      }
      WalkGivesHas(h, q);
      Own(h, p[0]);
      HasInIff(h, Get(h, p[0]).callees, None, Get(h, p[0]).sp);
      assert p[0 + 1] in Get(h, p[0]).callees;
      var k :| 0 <= k < |Get(h, p[0]).callees| && Get(h, p[0]).callees[k] == p[1];
    }
  }

  lemma HasIffSubtreeCalls(h: Arena, x: Idx)
    requires Indexed(h) && Below(h) && ValidIdx(h, x)
    ensures Has(h, x, None) <==> SubtreeCalls(h, x)
  {
    hide Has;
    if Has(h, x, None) {
      var p := HasFindsWalk(h, x);
      assert InSubtree(h, x, p[|p| - 1]);
    }
    if SubtreeCalls(h, x) {
      var y :| InSubtree(h, x, y) && ValidIdx(h, y) && Get(h, y).syscalls != [];
      var p :| Walk(h, p) && p[0] == x && p[|p| - 1] == y;
      WalkGivesHas(h, p);
    }
  }

  /** HasSyscall holds exactly when GetSyscalls collects something. */
  lemma {:induction false} HasIffCollects(h: Arena, x: Idx, skip: Option<Idx>)
    requires Indexed(h) && Below(h) && ValidIdx(h, x)
    ensures Has(h, x, skip) <==> Collect(h, x, skip) != []
    decreases Get(h, x).sp, |Get(h, x).callees| + 1
  {
    Own(h, x);
    HasInIffCollects(h, Get(h, x).callees, skip, Get(h, x).sp);
  }

  lemma {:induction false} HasInIffCollects(h: Arena, list: seq<Idx>, skip: Option<Idx>, bound: nat)
    requires Indexed(h) && Below(h) && ListBelow(h, list, bound)
    ensures HasIn(h, list, skip, bound) <==> CollectIn(h, list, skip, bound) != []
    decreases bound, |list|
  {
    hide Below;
    if list != [] {
      HasIffCollects(h, list[0], None);
      HasInIffCollects(h, list[1..], skip, bound);
    }
  }

  /** A frame's subtree is its own part plus the subtree of the next frame on the stack. */
  lemma OwnPartPlusNext(h: Arena, x: Idx, y: Idx)
    requires Indexed(h) && Below(h) && ValidIdx(h, x) && y in Get(h, x).callees
    ensures ValidIdx(h, y)
    ensures Has(h, x, None) <==> Has(h, x, Some(y)) || Has(h, y, None)
  {
    hide Below;
    var list, bound := Get(h, x).callees, Get(h, x).sp;
    Own(h, x);
    HasInIff(h, list, None, bound);
    HasInIff(h, list, Some(y), bound);
    var k :| 0 <= k < |list| && list[k] == y;
  }

  // ---------------------------------------------------------------- the rescue-point candidate

  /** The query GetRPCandidateIdx makes at frame i of a saved stack. */
  predicate OwnPart(h: Arena, saved: seq<Idx>, i: nat)
    requires Indexed(h) && Below(h) && StackValid(h, saved) && i < |saved|
  {
    Has(h, saved[i], if i + 1 < |saved| then Some(saved[i + 1]) else None)
  }

  /** The search from frame n - 1 down to the root. */
  function CandidateBelow(h: Arena, saved: seq<Idx>, n: nat): int
    requires Indexed(h) && Below(h) && StackValid(h, saved) && n <= |saved|
  {
    if n == 0 then -1 else if OwnPart(h, saved, n - 1) then n - 1 else CandidateBelow(h, saved, n - 1)
  }

  /** Subtrees of saved frames are nested: a frame's subtree calls when the next one's does. */
  lemma {:induction false} Nested(h: Arena, saved: seq<Idx>, i: nat, j: nat)
    requires Indexed(h) && Below(h) && Chain(h, saved) && i <= j < |saved|
    ensures Has(h, saved[j], None) ==> Has(h, saved[i], None)
    decreases j - i
  {
    hide Below, Has;
    if i < j {
      Nested(h, saved, i + 1, j);
      OwnPartPlusNext(h, saved[i], saved[i + 1]);
    }
  }

  lemma {:induction false} CandidateIsDeepest(h: Arena, saved: seq<Idx>, n: nat)
    requires Indexed(h) && Below(h) && Chain(h, saved) && n <= |saved|
    requires forall i :: n <= i < |saved| ==> !Has(h, saved[i], None)
    ensures var r := CandidateBelow(h, saved, n);
            && -1 <= r < n
            && (r >= 0 ==> Has(h, saved[r], None))
            && (forall i :: r < i < |saved| ==> !Has(h, saved[i], None))
  {
    hide Below, Has;
    if n > 0 {
      if n < |saved| {
        OwnPartPlusNext(h, saved[n - 1], saved[n]);
      }
      if !OwnPart(h, saved, n - 1) {
        CandidateIsDeepest(h, saved, n - 1);
      }
    }
  }

  /** GetRPCandidateIdx yields the deepest saved frame whose whole call subtree contains a
      recorded system call; it yields -1 exactly when there is no saved frame or the root
      frame's subtree has none. It may be asked in any state that satisfies the invariant,
      long after SaveStack, while execution went on. */
  lemma CandidateIdx(s: State)
    requires Inv(s)
    ensures Below(s.arena)
    ensures var r := CandidateBelow(s.arena, s.saved, |s.saved|);
            && -1 <= r < |s.saved|
            && (r >= 0 ==> SubtreeCalls(s.arena, s.saved[r]))
            && (forall i :: r < i < |s.saved| ==> !SubtreeCalls(s.arena, s.saved[i]))
            && (r == -1 <==> s.saved == [] || !SubtreeCalls(s.arena, s.saved[0]))
  {
    hide Below, Has, SubtreeCalls, CandidateBelow;
    var h, saved := s.arena, s.saved;
    ForestBelow(h);
    CandidateIsDeepest(h, saved, |saved|);
    var r := CandidateBelow(h, saved, |saved|);
    forall i | 0 <= i < |saved| ensures Has(h, saved[i], None) <==> SubtreeCalls(h, saved[i]) {
      HasIffSubtreeCalls(h, saved[i]);
    }
    if saved != [] && r >= 0 {
      Nested(h, saved, 0, r);
    }
  }
}
