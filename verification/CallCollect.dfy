/** What GetSyscalls collects, in terms of the call forest: the system calls of every activation in the
    subtree, each activation once. */
module CallCollect {
  import opened Options
  import opened CallStack
  import opened CallQueries

  /** The activations below x, callers before callees, without the callee skip of x. */
  function Preorder(h: Arena, x: Idx, skip: Option<Idx>): seq<Idx>
    requires Indexed(h) && Below(h) && ValidIdx(h, x)
    decreases Get(h, x).sp, |Get(h, x).callees| + 1
  {
    [x] + PreorderIn(h, Get(h, x).callees, skip, Get(h, x).sp)
  }

  function PreorderIn(h: Arena, list: seq<Idx>, skip: Option<Idx>, bound: nat): seq<Idx>
    requires Indexed(h) && Below(h) && ListBelow(h, list, bound)
    decreases bound, |list|
  {
    if list == [] then []
    else (if Some(list[0]) != skip then Preorder(h, list[0], None) else []) + PreorderIn(h, list[1..], skip, bound)
  }

  /** The system calls the activations of a list recorded, in its order. */
  function CallsOf(h: Arena, ys: seq<Idx>): seq<Syscall>
    requires StackValid(h, ys)
  {
    if ys == [] then [] else CallsOf(h, ys[..|ys| - 1]) + Get(h, ys[|ys| - 1]).syscalls
  }

  /** y lies in the subtree of x, not counting the callee skip of x. */
  ghost predicate Under(h: Arena, x: Idx, skip: Option<Idx>, y: Idx) {
    y == x || (ValidIdx(h, x) && UnderOneOf(h, Get(h, x).callees, skip, y))
  }

  ghost predicate UnderOneOf(h: Arena, list: seq<Idx>, skip: Option<Idx>, y: Idx) {
    exists k :: 0 <= k < |list| && Some(list[k]) != skip && InSubtree(h, list[k], y)
  }

  lemma {:induction false} CallsAppend(h: Arena, a: seq<Idx>, b: seq<Idx>)
    requires StackValid(h, a) && StackValid(h, b)
    ensures CallsOf(h, a + b) == CallsOf(h, a) + CallsOf(h, b)
  {
    hide ValidIdx;
    if b == [] {
      assert a + b == a;
    } else {
      hide CallsOf, Get;
      var n := |b| - 1;
      CallsAppend(h, a, b[..n]);
      LastCalls(h, b[..n], b[n]);
      assert b[..n] + [b[n]] == b;
      Longer(h, a, b[..n], b[n]);
    }
  }

  lemma Longer(h: Arena, a: seq<Idx>, b: seq<Idx>, y: Idx)
    requires StackValid(h, a) && StackValid(h, b) && ValidIdx(h, y) && CallsOf(h, a + b) == CallsOf(h, a) + CallsOf(h, b)
    ensures StackValid(h, a + (b + [y])) && CallsOf(h, a + (b + [y])) == CallsOf(h, a) + (CallsOf(h, b) + Get(h, y).syscalls)
  {
    hide ValidIdx, CallsOf, Get;
    LastCalls(h, a + b, y);
    assert a + (b + [y]) == (a + b) + [y];
  }

  lemma LastCalls(h: Arena, a: seq<Idx>, y: Idx)
    requires StackValid(h, a) && ValidIdx(h, y)
    ensures StackValid(h, a + [y]) && CallsOf(h, a + [y]) == CallsOf(h, a) + Get(h, y).syscalls
  {
    hide ValidIdx;
    assert (a + [y])[..|a|] == a;
  }

  lemma OneCalls(h: Arena, x: Idx)
    requires ValidIdx(h, x)
    ensures CallsOf(h, [x]) == Get(h, x).syscalls
  {
    assert CallsOf(h, [x]) == CallsOf(h, [x][..0]) + Get(h, x).syscalls;
  }

  // ---------------------------------------------------------------- membership

  lemma {:induction false} SubtreeStep(h: Arena, x: Idx, y: Idx)
    requires ValidIdx(h, x)
    ensures InSubtree(h, x, y) <==> Under(h, x, None, y)
  {
    if InSubtree(h, x, y) && x != y {
      var p :| Walk(h, p) && p[0] == x && p[|p| - 1] == y;
      assert p[0 + 1] in Get(h, p[0]).callees;
      var k :| 0 <= k < |Get(h, x).callees| && Get(h, x).callees[k] == p[1];
      var q := p[1..];
      forall i | 0 <= i < |q| - 1 ensures q[i + 1] in Get(h, q[i]).callees {
        assert p[i + 1 + 1] in Get(h, p[i + 1]).callees;
      }
      assert Walk(h, q) && q[0] == p[1] && q[|q| - 1] == y;
    }
    if x == y {
      assert Walk(h, [x]) && [x][0] == x;
    } else if Under(h, x, None, y) {
      var k :| 0 <= k < |Get(h, x).callees| && InSubtree(h, Get(h, x).callees[k], y);
      var q :| Walk(h, q) && q[0] == Get(h, x).callees[k] && q[|q| - 1] == y;
      var p := [x] + q;
      forall i | 0 <= i < |p| - 1 ensures p[i + 1] in Get(h, p[i]).callees {
        assert i > 0 ==> p[i] == q[i - 1] && p[i + 1] == q[i - 1 + 1];
      }
      assert Walk(h, p) && p[0] == x && p[|p| - 1] == y;
    }
  }

  lemma {:induction false} PreorderIs(h: Arena, x: Idx, skip: Option<Idx>)
    requires Indexed(h) && Below(h) && ValidIdx(h, x)
    ensures var ys := Preorder(h, x, skip);
            && StackValid(h, ys) && Collect(h, x, skip) == CallsOf(h, ys)
            && forall y :: y in ys <==> Under(h, x, skip, y)
    decreases Get(h, x).sp, |Get(h, x).callees| + 1
  {
    hide Below, UnderOneOf, CallsOf, CollectIn, PreorderIn;
    Own(h, x);
    var list, bound := Get(h, x).callees, Get(h, x).sp;
    PreorderInIs(h, list, skip, bound);
    OneCalls(h, x);
    CallsAppend(h, [x], PreorderIn(h, list, skip, bound));
  }

  lemma {:induction false} PreorderInIs(h: Arena, list: seq<Idx>, skip: Option<Idx>, bound: nat)
    requires Indexed(h) && Below(h) && ListBelow(h, list, bound)
    ensures var ys := PreorderIn(h, list, skip, bound);
            && StackValid(h, ys) && CollectIn(h, list, skip, bound) == CallsOf(h, ys)
            && forall y :: y in ys <==> UnderOneOf(h, list, skip, y)
    decreases bound, |list|
  {
    hide Below, InSubtree, Under;
    if list != [] {
      var first := if Some(list[0]) != skip then Preorder(h, list[0], None) else [];
      PreorderIs(h, list[0], None);
      PreorderInIs(h, list[1..], skip, bound);
      CallsAppend(h, first, PreorderIn(h, list[1..], skip, bound));
      forall y ensures UnderOneOf(h, list, skip, y) <==>
                       (Some(list[0]) != skip && Under(h, list[0], None, y)) || UnderOneOf(h, list[1..], skip, y)
      {
        SubtreeStep(h, list[0], y);
        ConsUnder(h, list, skip, y);
      }
    }
  }

  lemma ConsUnder(h: Arena, list: seq<Idx>, skip: Option<Idx>, y: Idx)
    requires list != []
    ensures UnderOneOf(h, list, skip, y) <==>
            (Some(list[0]) != skip && InSubtree(h, list[0], y)) || UnderOneOf(h, list[1..], skip, y)
  {
    hide InSubtree;
    if UnderOneOf(h, list[1..], skip, y) {
      var k :| 0 <= k < |list[1..]| && Some(list[1..][k]) != skip && InSubtree(h, list[1..][k], y);
      assert list[k + 1] == list[1..][k];
    }
    if k :| 0 <= k < |list| && Some(list[k]) != skip && InSubtree(h, list[k], y) {
      assert k > 0 ==> list[k] == list[1..][k - 1];
    }
  }

  // ---------------------------------------------------------------- each activation once

  predicate Distinct(ys: seq<Idx>) { forall i, j :: 0 <= i < j < |ys| ==> ys[i] != ys[j] }

  lemma {:induction false} WalkFalls(h: Arena, p: seq<Idx>)
    requires CalleesBelow(h) && Walk(h, p)
    ensures Get(h, p[|p| - 1]).sp <= Get(h, p[0]).sp
    decreases |p|
  {
    var n := |p| - 1;
    if n > 0 {
      Shorter(h, p);
      WalkFalls(h, p[..n]);
      assert p[n - 1 + 1] in Get(h, p[n - 1]).callees;
      var k :| 0 <= k < |Get(h, p[n - 1]).callees| && Get(h, p[n - 1]).callees[k] == p[n];
    }
  }

  lemma Shorter(h: Arena, p: seq<Idx>)
    requires Walk(h, p) && |p| > 1
    ensures Walk(h, p[..|p| - 1])
  {
    var q := p[..|p| - 1];
    forall i | 0 <= i < |q| - 1 ensures q[i + 1] in Get(h, q[i]).callees {
      assert p[i + 1] in Get(h, p[i]).callees;
    }
  }

  lemma CallerIs(h: Arena, x: Idx, y: Idx, z: Idx)
    requires OneCaller(h) && ValidIdx(h, x) && ValidIdx(h, y) && z in Get(h, x).callees && z in Get(h, y).callees
    ensures x == y
  {
    var k :| 0 <= k < |Get(h, x).callees| && Get(h, x).callees[k] == z;
    var l :| 0 <= l < |Get(h, y).callees| && Get(h, y).callees[l] == z;
  }

  /** Of two activations above a third one, one is above the other. */
  lemma {:induction false} AboveSame(h: Arena, p: seq<Idx>, q: seq<Idx>)
    requires OneCaller(h) && Walk(h, p) && Walk(h, q) && p[|p| - 1] == q[|q| - 1]
    ensures InSubtree(h, p[0], q[0]) || InSubtree(h, q[0], p[0])
    decreases |p|
  {
    if |p| > 1 && |q| > 1 {
      var m, n := |p| - 2, |q| - 2;
      assert p[m + 1] in Get(h, p[m]).callees && q[n + 1] in Get(h, q[n]).callees;
      CallerIs(h, p[m], q[n], p[m + 1]);
      Shorter(h, p);
      Shorter(h, q);
      AboveSame(h, p[..m + 1], q[..n + 1]);
    }
  }

  /** No callee of x is below another one. */
  lemma CalleeNotBelow(h: Arena, x: Idx, a: Idx, b: Idx)
    requires Forest(h) && ValidIdx(h, x) && a in Get(h, x).callees && b in Get(h, x).callees && InSubtree(h, a, b)
    ensures a == b
  {
    hide OneCaller, Indexed;
    var p :| Walk(h, p) && p[0] == a && p[|p| - 1] == b;
    if |p| > 1 {
      var m := |p| - 2;
      assert p[m + 1] in Get(h, p[m]).callees;
      CallerIs(h, x, p[m], b);
      Shorter(h, p);
      WalkFalls(h, p[..m + 1]);
      assert false;
    }
  }

  /** The subtrees of two callees have nothing in common. */
  lemma SubtreesApart(h: Arena, x: Idx, i: nat, j: nat, y: Idx)
    requires Forest(h) && ValidIdx(h, x) && i < j < |Get(h, x).callees|
    ensures !(InSubtree(h, Get(h, x).callees[i], y) && InSubtree(h, Get(h, x).callees[j], y))
  {
    hide InSubtree, CalleesBelow, Indexed;
    var a, b := Get(h, x).callees[i], Get(h, x).callees[j];
    if InSubtree(h, a, y) && InSubtree(h, b, y) {
      Related(h, a, b, y);
      if InSubtree(h, a, b) {
        CalleeNotBelow(h, x, a, b);
      } else {
        CalleeNotBelow(h, x, b, a);
      }
      assert false;
    }
  }

  lemma Related(h: Arena, a: Idx, b: Idx, y: Idx)
    requires OneCaller(h) && InSubtree(h, a, y) && InSubtree(h, b, y)
    ensures InSubtree(h, a, b) || InSubtree(h, b, a)
  {
    hide OneCaller;
    var p :| Walk(h, p) && p[0] == a && p[|p| - 1] == y;
    var q :| Walk(h, q) && q[0] == b && q[|q| - 1] == y;
    AboveSame(h, p, q);
  }

  lemma DistinctParts(a: seq<Idx>, b: seq<Idx>)
    requires Distinct(a) && Distinct(b) && forall y :: y in a ==> y !in b
    ensures Distinct(a + b)
  {
    var c := a + b;
    forall i, j | 0 <= i < j < |c| ensures c[i] != c[j] {
      if i < |a| <= j {
        assert c[i] in a && c[j] in b;
      }
    }
  }

  lemma NotOwnCallee(h: Arena, x: Idx, skip: Option<Idx>)
    requires Forest(h) && ValidIdx(h, x)
    ensures !UnderOneOf(h, Get(h, x).callees, skip, x)
  {
    hide OneCaller, Indexed;
    if k :| 0 <= k < |Get(h, x).callees| && InSubtree(h, Get(h, x).callees[k], x) {
      var p :| Walk(h, p) && p[0] == Get(h, x).callees[k] && p[|p| - 1] == x;
      WalkFalls(h, p);
      assert false;
    }
  }

  lemma {:induction false} PreorderDistinct(h: Arena, x: Idx, skip: Option<Idx>)
    requires Forest(h) && Below(h) && ValidIdx(h, x)
    ensures Distinct(Preorder(h, x, skip))
    decreases Get(h, x).sp, |Get(h, x).callees| + 1
  {
    hide Below, OneCaller, CalleesBelow, UnderOneOf, PreorderIn, CollectIn;
    Own(h, x);
    var list := Get(h, x).callees;
    assert list[0..] == list;
    PreorderInDistinct(h, x, 0, skip);
    PreorderInIs(h, list, skip, Get(h, x).sp);
    NotOwnCallee(h, x, skip);
    DistinctParts([x], PreorderIn(h, list, skip, Get(h, x).sp));
  }

  /** From callee i of x on. */
  lemma {:induction false} PreorderInDistinct(h: Arena, x: Idx, i: nat, skip: Option<Idx>)
    requires Forest(h) && Below(h) && ValidIdx(h, x) && i <= |Get(h, x).callees|
    requires ListBelow(h, Get(h, x).callees[i..], Get(h, x).sp)
    ensures Distinct(PreorderIn(h, Get(h, x).callees[i..], skip, Get(h, x).sp))
    decreases Get(h, x).sp, |Get(h, x).callees| - i
  {
    hide Below, Forest, InSubtree;
    ForestIndexed(h);
    var list, bound := Get(h, x).callees[i..], Get(h, x).sp;
    if list != [] {
      var first := if Some(list[0]) != skip then Preorder(h, list[0], None) else [];
      var rest := PreorderIn(h, list[1..], skip, bound);
      assert list[1..] == Get(h, x).callees[i + 1..];
      PreorderInDistinct(h, x, i + 1, skip);
      PreorderDistinct(h, list[0], None);
      PreorderIs(h, list[0], None);
      PreorderInIs(h, list[1..], skip, bound);
      forall y | y in first ensures y !in rest {
        SubtreeStep(h, list[0], y);
        NotInRest(h, x, i, skip, y);
      }
      DistinctParts(first, rest);
    }
  }

  lemma ForestIndexed(h: Arena)
    requires Forest(h)
    ensures Indexed(h)
  {}

  lemma NotInRest(h: Arena, x: Idx, i: nat, skip: Option<Idx>, y: Idx)
    requires Forest(h) && ValidIdx(h, x) && i < |Get(h, x).callees| && InSubtree(h, Get(h, x).callees[i], y)
    ensures !UnderOneOf(h, Get(h, x).callees[i + 1..], skip, y)
  {
    hide InSubtree, Forest;
    var rest := Get(h, x).callees[i + 1..];
    if k :| 0 <= k < |rest| && InSubtree(h, rest[k], y) {
      SubtreesApart(h, x, i, i + 1 + k, y);
    }
  }

  /** ys lists the subtree of x without that of skip, each activation once. */
  ghost predicate Lists(h: Arena, x: Idx, skip: Option<Idx>, ys: seq<Idx>) {
    && Distinct(ys) && StackValid(h, ys)
    && forall y :: y in ys <==> Under(h, x, skip, y)
  }

  /** GetSyscalls collects the system calls of exactly the activations in the subtree, each activation
      once and those of one activation in their order. */
  lemma CollectsSubtree(h: Arena, x: Idx, skip: Option<Idx>) returns (ys: seq<Idx>)
    requires Forest(h) && Below(h) && ValidIdx(h, x)
    ensures Lists(h, x, skip, ys) && Collect(h, x, skip) == CallsOf(h, ys)
    ensures ys != [] && ys[0] == x && (skip == None ==> forall y :: y in ys <==> InSubtree(h, x, y))
  {
    hide Below, InSubtree, Under, Collect, CallsOf, OneCaller, CalleesBelow;
    ys := Preorder(h, x, skip);
    PreorderIs(h, x, skip);
    PreorderDistinct(h, x, skip);
    forall y | skip == None ensures y in ys <==> InSubtree(h, x, y) {
      SubtreeStep(h, x, y);
    }
  }
}
