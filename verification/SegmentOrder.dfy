/** The order in which the writer lays out segments (elfio.hpp, get_ordered_segments). */
module SegmentOrder {

  /** What the ordering looks at in a segment; id tells the segments apart. */
  datatype Item = Item(id: nat, secs: seq<nat>, offset: nat, offsetSet: bool)

  // ---------------------------------------------------------------- inclusion of section lists

  /** std::includes(big, small): one pass over both lists. */
  predicate Includes(big: seq<nat>, small: seq<nat>)
    decreases |big|
  {
    if small == [] then true
    else if big == [] || small[0] < big[0] then false
    else if big[0] < small[0] then Includes(big[1..], small)
    else Includes(big[1..], small[1..])
  }

  predicate IsSubsequenceOf(a: seq<nat>, b: seq<nat>) {
    |a| < |b| && Includes(b, a)
  }

  predicate Increasing(s: seq<nat>) { forall i, j :: 0 <= i < j < |s| ==> s[i] < s[j] }

  function Elements(s: seq<nat>): set<nat> { set x | x in s }

  lemma IncreasingTail(s: seq<nat>)
    requires Increasing(s) && s != []
    ensures Increasing(s[1..]) && forall x :: x in s[1..] ==> s[0] < x
    ensures Elements(s) == {s[0]} + Elements(s[1..])
  {
    assert s == [s[0]] + s[1..];
  }

  /** On sorted duplicate-free lists, which std::includes requires, the pass decides inclusion. */
  lemma {:induction false} IncludesIsSubset(big: seq<nat>, small: seq<nat>)
    requires Increasing(big) && Increasing(small)
    ensures Includes(big, small) <==> Elements(small) <= Elements(big)
    decreases |big|
  {
    if small == [] {
    } else if big == [] {
      assert small[0] in Elements(small) && small[0] !in Elements(big);
    } else {
      IncreasingTail(big);
      IncreasingTail(small);
      if small[0] < big[0] {
        assert small[0] in Elements(small) && small[0] !in Elements(big);
      } else if big[0] < small[0] {
        IncludesIsSubset(big[1..], small);
        assert big[0] !in Elements(small);
      } else {
        IncludesIsSubset(big[1..], small[1..]);
        assert big[0] !in Elements(small[1..]);
      }
    }
  }

  lemma {:induction false} ElementsCount(s: seq<nat>)
    requires Increasing(s)
    ensures |Elements(s)| == |s|
  {
    if s != [] {
      IncreasingTail(s);
      ElementsCount(s[1..]);
      assert s[0] !in Elements(s[1..]);
    }
  }

  /** The writer's test is proper inclusion of the section sets. */
  lemma SubsequenceIsProperSubset(a: seq<nat>, b: seq<nat>)
    requires Increasing(a) && Increasing(b)
    ensures IsSubsequenceOf(a, b) <==> Elements(a) < Elements(b)
  {
    IncludesIsSubset(b, a);
    ElementsCount(a);
    ElementsCount(b);
    if Elements(a) < Elements(b) {
      CardinalityGrows(Elements(a), Elements(b));
    } else if |a| < |b| {
      assert Elements(a) != Elements(b);
    }
  }

  lemma CardinalityGrows(a: set<nat>, b: set<nat>)
    requires a < b
    ensures |a| < |b|
  {
    assert b == a + (b - a);
    var x :| x in b - a;
    assert |b| == |a| + |b - a|;
  }

  // ---------------------------------------------------------------- bringing offset 0 to the front

  function Swap(wl: seq<Item>, i: nat, j: nat): (r: seq<Item>)
    requires i < |wl| && j < |wl|
    ensures |r| == |wl|
  {
    wl[i := wl[j]][j := wl[i]]
  }

  /** The pre-pass from position i on. */
  function ZeroPass(wl: seq<Item>, i: nat, nextSlot: nat): (r: seq<Item>)
    requires nextSlot <= i <= |wl|
    ensures |r| == |wl|
    decreases |wl| - i
  {
    if i == |wl| then wl
    else if i != nextSlot && wl[i].offsetSet && wl[i].offset == 0 then
      var slot := if wl[nextSlot].offset == 0 then nextSlot + 1 else nextSlot;
      ZeroPass(Swap(wl, i, slot), i + 1, slot + 1)
    else ZeroPass(wl, i + 1, nextSlot)
  }

  lemma SwapPermutes(wl: seq<Item>, i: nat, j: nat)
    requires i < |wl| && j < |wl|
    ensures multiset(Swap(wl, i, j)) == multiset(wl)
  {}

  lemma {:induction false} ZeroPassPermutes(wl: seq<Item>, i: nat, nextSlot: nat)
    requires nextSlot <= i <= |wl|
    ensures multiset(ZeroPass(wl, i, nextSlot)) == multiset(wl)
    decreases |wl| - i
  {
    hide Swap;
    if i == |wl| {
    } else if i != nextSlot && wl[i].offsetSet && wl[i].offset == 0 {
      var slot := if wl[nextSlot].offset == 0 then nextSlot + 1 else nextSlot;
      SwapPermutes(wl, i, slot);
      ZeroPassPermutes(Swap(wl, i, slot), i + 1, slot + 1);
    } else {
      ZeroPassPermutes(wl, i + 1, nextSlot);
    }
  }

  predicate AllSet(wl: seq<Item>) { forall i :: 0 <= i < |wl| ==> wl[i].offsetSet }

  predicate ZerosFirst(wl: seq<Item>) {
    forall i, j :: 0 <= i < j < |wl| && wl[j].offset == 0 ==> wl[i].offset == 0
  }

  /** When every segment has an offset, those at offset 0 end up in front of all others. */
  lemma {:induction false} ZeroPassSorts(wl: seq<Item>, i: nat, nextSlot: nat)
    requires nextSlot <= i <= |wl| && AllSet(wl)
    requires forall k :: 0 <= k < nextSlot ==> wl[k].offset == 0
    requires forall k :: nextSlot < k < i ==> wl[k].offset != 0
    ensures ZerosFirst(ZeroPass(wl, i, nextSlot))
    decreases |wl| - i
  {
    if i == |wl| {
    } else if i != nextSlot && wl[i].offset == 0 {
      var slot := if wl[nextSlot].offset == 0 then nextSlot + 1 else nextSlot;
      var next := Swap(wl, i, slot);
      assert slot != i ==> wl[slot].offset != 0;
      ZeroPassSorts(next, i + 1, slot + 1);
    } else {
      ZeroPassSorts(wl, i + 1, nextSlot);
    }
  }

  /** A segment that was loaded from, or laid out at, offset 0. */
  predicate SetZero(x: Item) { x.offsetSet && x.offset == 0 }

  /** What the pre-pass is for: all such segments stand before all others. */
  predicate SetZerosFirst(wl: seq<Item>) {
    forall i, j :: 0 <= i < j < |wl| && SetZero(wl[j]) ==> SetZero(wl[i])
  }

  /** The other segments met so far wait in a queue. Every further segment at offset 0 sends the
      front of the queue to its back; the pass stalls when that front is a new segment, whose offset
      field is 0 but not set. The first such exchange is free after an odd number of leading segments
      at offset 0. */
  predicate Stalls(queue: seq<Item>, rest: seq<Item>, free: bool)
    requires queue != [] || rest == [] || !SetZero(rest[0])
    decreases |rest|
  {
    if rest == [] then false
    else if !SetZero(rest[0]) then Stalls(queue + [rest[0]], rest[1..], free)
    else (!free && queue[0].offset == 0) || Stalls(queue[1..] + [queue[0]], rest[1..], false)
  }

  lemma {:induction false} SlotsKept(wl: seq<Item>, i: nat, nextSlot: nat, k: nat)
    requires k < nextSlot <= i <= |wl|
    ensures ZeroPass(wl, i, nextSlot)[k] == wl[k]
    decreases |wl| - i
  {
    if i == |wl| {
    } else if i != nextSlot && SetZero(wl[i]) {
      var slot := if wl[nextSlot].offset == 0 then nextSlot + 1 else nextSlot;
      SlotsKept(Swap(wl, i, slot), i + 1, slot + 1, k);
    } else {
      SlotsKept(wl, i + 1, nextSlot, k);
    }
  }

  /** The worklist in the middle of the pass. */
  predicate Queued(wl: seq<Item>, front: seq<Item>, queue: seq<Item>, rest: seq<Item>, free: bool) {
    && wl == front + queue + rest
    && (forall k :: 0 <= k < |front| ==> SetZero(front[k]))
    && (forall k :: 0 <= k < |queue| ==> !SetZero(queue[k]))
    && (free ==> front != [])
    && (queue != [] || rest == [] || !SetZero(rest[0]))
  }

  lemma Exchanged(wl: seq<Item>, front: seq<Item>, queue: seq<Item>, rest: seq<Item>, free: bool)
    requires Queued(wl, front, queue, rest, free) && queue != [] && rest != [] && SetZero(rest[0])
    ensures Queued(Swap(wl, |front| + |queue|, |front|), front + [rest[0]], queue[1..] + [queue[0]], rest[1..], false)
  {
    var n, next := |front|, Swap(wl, |front| + |queue|, |front|);
    assert wl[n] == queue[0] && wl[n + |queue|] == rest[0];
    assert next == (front + [rest[0]]) + (queue[1..] + [queue[0]]) + rest[1..];
  }

  lemma {:induction false} PassByQueue(wl: seq<Item>, front: seq<Item>, queue: seq<Item>, rest: seq<Item>, free: bool)
    requires Queued(wl, front, queue, rest, free)
    ensures SetZerosFirst(ZeroPass(wl, |front| + |queue|, if free then |front| - 1 else |front|)) <==> !Stalls(queue, rest, free)
    decreases |rest|
  {
    hide Swap, SetZerosFirst, Queued;
    var i, slot := |front| + |queue|, if free then |front| - 1 else |front|;
    if rest == [] {
      AtEnd(wl, front, queue, free);
    } else if !SetZero(rest[0]) {
      OneMoreWaits(wl, front, queue, rest, free);
      PassByQueue(wl, front, queue + [rest[0]], rest[1..], free);
    } else {
      NextZero(wl, front, queue, rest, free);
      if free || queue[0].offset != 0 {
        Exchanged(wl, front, queue, rest, free);
        PassByQueue(Swap(wl, i, |front|), front + [rest[0]], queue[1..] + [queue[0]], rest[1..], false);
      } else {
        Stalled(wl, front, queue, rest);
      }
    }
  }

  lemma AtEnd(wl: seq<Item>, front: seq<Item>, queue: seq<Item>, free: bool)
    requires Queued(wl, front, queue, [], free)
    ensures |wl| == |front| + |queue| && SetZerosFirst(wl)
  {}

  lemma OneMoreWaits(wl: seq<Item>, front: seq<Item>, queue: seq<Item>, rest: seq<Item>, free: bool)
    requires Queued(wl, front, queue, rest, free) && rest != [] && !SetZero(rest[0])
    ensures Queued(wl, front, queue + [rest[0]], rest[1..], free)
    ensures |wl| == |front| + |queue| + |rest| && wl[|front| + |queue|] == rest[0]
  {
    assert rest == [rest[0]] + rest[1..];
  }

  lemma NextZero(wl: seq<Item>, front: seq<Item>, queue: seq<Item>, rest: seq<Item>, free: bool)
    requires Queued(wl, front, queue, rest, free) && rest != [] && SetZero(rest[0])
    ensures queue != [] && |wl| == |front| + |queue| + |rest| && wl[|front| + |queue|] == rest[0] && wl[|front|] == queue[0]
    ensures free ==> front != [] && SetZero(wl[|front| - 1])
  {}

  lemma Stalled(wl: seq<Item>, front: seq<Item>, queue: seq<Item>, rest: seq<Item>)
    requires Queued(wl, front, queue, rest, false) && rest != [] && SetZero(rest[0]) && queue[0].offset == 0
    ensures !SetZerosFirst(ZeroPass(wl, |front| + |queue|, |front|))
  {
    var n, i := |front|, |front| + |queue|;
    NextZero(wl, front, queue, rest, false);
    var next := Swap(wl, i, n + 1);
    var r := ZeroPass(next, i + 1, n + 2);
    SlotsKept(next, i + 1, n + 2, n);
    SlotsKept(next, i + 1, n + 2, n + 1);
    assert r[n] == queue[0] && r[n + 1] == rest[0];
    assert r == ZeroPass(wl, i, n);
  }

  /** Leading segments at offset 0 stay, two by two. */
  lemma {:induction false} LeadingZeros(wl: seq<Item>, n: nat, i: nat)
    requires i <= n <= |wl| && i % 2 == 0 && forall k :: 0 <= k < n ==> SetZero(wl[k])
    ensures ZeroPass(wl, i, i) == ZeroPass(wl, n, if n % 2 == 1 then n - 1 else n)
    decreases n - i
  {
    if i + 2 <= n {
      assert Swap(wl, i + 1, i + 1) == wl;
      assert ZeroPass(wl, i, i) == ZeroPass(wl, i + 1, i);
      assert ZeroPass(wl, i + 1, i) == ZeroPass(wl, i + 2, i + 2);
      LeadingZeros(wl, n, i + 2);
    } else if i + 1 == n {
      assert ZeroPass(wl, i, i) == ZeroPass(wl, i + 1, i);
    }
  }

  /** For every worklist, of n leading segments at offset 0 and the rest: exactly when the pre-pass
      puts all segments at offset 0 first. */
  lemma ZeroPassExactly(wl: seq<Item>, n: nat)
    requires n <= |wl| && (forall k :: 0 <= k < n ==> SetZero(wl[k])) && (n < |wl| ==> !SetZero(wl[n]))
    ensures SetZerosFirst(ZeroPass(wl, 0, 0)) <==> !Stalls([], wl[n..], n % 2 == 1)
  {
    hide SetZerosFirst, Stalls, ZeroPass;
    LeadingZeros(wl, n, 0);
    assert wl == wl[..n] + [] + wl[n..];
    PassByQueue(wl, wl[..n], [], wl[n..], n % 2 == 1);
  }

  /** New segments do no harm behind the last segment at offset 0. */
  lemma {:induction false} NeverStalls(queue: seq<Item>, rest: seq<Item>, free: bool)
    requires queue != [] || rest == [] || !SetZero(rest[0])
    requires forall i, j :: 0 <= i < |queue| && 0 <= j < |rest| && SetZero(rest[j]) ==> queue[i].offset != 0
    requires forall i, j :: 0 <= i < j < |rest| && SetZero(rest[j]) ==> rest[i].offsetSet || rest[i].offset != 0
    ensures !Stalls(queue, rest, free)
    decreases |rest|
  {
    if rest != [] {
      forall j | 0 <= j < |rest[1..]| ensures rest[1..][j] == rest[j + 1] {}
      if !SetZero(rest[0]) {
        NeverStalls(queue + [rest[0]], rest[1..], free);
      } else {
        assert queue[0].offset != 0;
        NeverStalls(queue[1..] + [queue[0]], rest[1..], false);
      }
    }
  }

  /** A new segment in front of the first segment at offset 0 stalls it, unless an odd number of
      such segments leads the worklist: in the smallest case the new segment stays in front. Segments
      are appended when they are added, so this takes a save that was refused after it had placed
      the later of two new segments at offset 0, and another save. */
  lemma UnsetBlocksFront(a: Item, b: Item)
    requires !a.offsetSet && a.offset == 0 && SetZero(b)
    ensures ZeroPass([a, b], 0, 0) == [a, b] && !SetZerosFirst(ZeroPass([a, b], 0, 0))
    ensures SetZerosFirst(ZeroPass([b, a, b], 0, 0))
  {
    assert [a, b][1..] == [b] && [a, b][0..] == [a, b];
    assert ZeroPass([a, b], 2, 2) == [a, b];
    assert Swap([a, b], 1, 1) == [a, b];
    assert ZeroPass([a, b], 1, 0) == ZeroPass(Swap([a, b], 1, 1), 2, 2);
    assert SetZero([a, b][1]) && !SetZero([a, b][0]);
    ZeroPassExactly([b, a, b], 1);
    assert [b, a, b][1..] == [a, b];
    assert [] + [a] == [a];
    assert !Stalls([a], [b], true);
    assert !Stalls([], [a, b], true);
  }

  // ---------------------------------------------------------------- rotating the worklist

  /** Position of the first segment with the longest section list. */
  function FirstLongest(wl: seq<Item>): (k: nat)
    requires wl != []
    ensures k < |wl|
    ensures forall j :: 0 <= j < |wl| ==> |wl[j].secs| <= |wl[k].secs|
    ensures forall j :: 0 <= j < k ==> |wl[j].secs| < |wl[k].secs|
  {
    var n := |wl| - 1;
    if n == 0 then 0 else
      var k := FirstLongest(wl[..n]);
      assert forall j :: 0 <= j < n ==> wl[..n][j] == wl[j];
      if |wl[n].secs| > |wl[k].secs| then n else k
  }

  predicate Blocked(seg: Item, rest: seq<Item>) {
    exists i :: 0 <= i < |rest| && IsSubsequenceOf(seg.secs, rest[i].secs)
  }

  lemma RotationAdvances(wl: seq<Item>)
    requires wl != [] && Blocked(wl[0], wl[1..])
    ensures FirstLongest(wl[1..] + [wl[0]]) < FirstLongest(wl)
  {
    var k := FirstLongest(wl);
    var next := wl[1..] + [wl[0]];
    var i :| 0 <= i < |wl[1..]| && IsSubsequenceOf(wl[0].secs, wl[1..][i].secs);
    assert |wl[0].secs| < |wl[i + 1].secs|;
    assert k > 0 && next[k - 1] == wl[k];
  }

  /** The worklist loop. The measure is the length of the worklist and then the distance of
      the first longest segment from its front: a segment is only put back while some longer
      one waits, and that one comes closer. */
  function Rotate(wl: seq<Item>, res: seq<Item>): seq<Item>
    decreases |wl|, if wl == [] then 0 else FirstLongest(wl)
  {
    if wl == [] then res
    else if Blocked(wl[0], wl[1..]) then
      RotationAdvances(wl);
      Rotate(wl[1..] + [wl[0]], res)
    else Rotate(wl[1..], res + [wl[0]])
  }

  function Ordered(segs: seq<Item>): seq<Item> {
    Rotate(ZeroPass(segs, 0, 0), [])
  }

  /** No segment stands before one whose section list properly includes its own. */
  predicate NoneBeforeSuperset(res: seq<Item>) {
    forall i, j :: 0 <= i < j < |res| ==> !IsSubsequenceOf(res[i].secs, res[j].secs)
  }

  lemma {:induction false} RotatePermutes(wl: seq<Item>, res: seq<Item>)
    ensures multiset(Rotate(wl, res)) == multiset(res) + multiset(wl)
    decreases |wl|, if wl == [] then 0 else FirstLongest(wl)
  {
    hide Blocked;
    if wl != [] {
      assert wl == [wl[0]] + wl[1..];
      if Blocked(wl[0], wl[1..]) {
        RotationAdvances(wl);
        RotatePermutes(wl[1..] + [wl[0]], res);
      } else {
        RotatePermutes(wl[1..], res + [wl[0]]);
      }
    }
  }

  /** Nothing in res is properly included in anything of wl. */
  predicate Clear(res: seq<Item>, wl: seq<Item>) {
    forall i, k :: 0 <= i < |res| && 0 <= k < |wl| ==> !IsSubsequenceOf(res[i].secs, wl[k].secs)
  }

  lemma {:induction false} RotateOrders(wl: seq<Item>, res: seq<Item>)
    requires NoneBeforeSuperset(res) && Clear(res, wl)
    ensures NoneBeforeSuperset(Rotate(wl, res))
    decreases |wl|, if wl == [] then 0 else FirstLongest(wl)
  {
    hide IsSubsequenceOf;
    if wl != [] {
      var rest := wl[1..];
      if Blocked(wl[0], rest) {
        RotationAdvances(wl);
        assert Clear(res, rest + [wl[0]]);
        RotateOrders(rest + [wl[0]], res);
      } else {
        assert forall k :: 0 <= k < |rest| ==> !IsSubsequenceOf(wl[0].secs, rest[k].secs);
        assert Clear(res + [wl[0]], rest);
        RotateOrders(rest, res + [wl[0]]);
      }
    }
  }

  /** Ordering ends on every input, returns every segment once, and puts none before a
      segment that properly includes it. */
  lemma OrderedIsSound(segs: seq<Item>)
    ensures multiset(Ordered(segs)) == multiset(segs)
    ensures NoneBeforeSuperset(Ordered(segs))
    ensures AllSet(segs) ==> ZerosFirst(ZeroPass(segs, 0, 0))
  {
    ZeroPassPermutes(segs, 0, 0);
    RotatePermutes(ZeroPass(segs, 0, 0), []);
    RotateOrders(ZeroPass(segs, 0, 0), []);
    if AllSet(segs) {
      ZeroPassSorts(segs, 0, 0);
    }
  }

  // ---------------------------------------------------------------- segments at offset 0 in the result

  /** No segment at offset 0 stands before one that properly includes it. */
  predicate Free(wl: seq<Item>) {
    forall i, j :: 0 <= i < j < |wl| && SetZero(wl[i]) ==> !IsSubsequenceOf(wl[i].secs, wl[j].secs)
  }

  predicate AllSetZero(res: seq<Item>) { forall i :: 0 <= i < |res| ==> SetZero(res[i]) }

  predicate NoSetZero(wl: seq<Item>) { forall i :: 0 <= i < |wl| ==> !SetZero(wl[i]) }

  /** What has left the worklist starts with the segments at offset 0, and so does the rest. */
  predicate LeavingZerosFirst(res: seq<Item>, wl: seq<Item>) {
    (AllSetZero(res) && SetZerosFirst(wl) && Free(wl)) || (SetZerosFirst(res) && NoSetZero(wl))
  }

  lemma RestZerosFirst(res: seq<Item>, wl: seq<Item>)
    requires wl != [] && LeavingZerosFirst(res, wl)
    ensures LeavingZerosFirst(res + [wl[0]], wl[1..])
    ensures Blocked(wl[0], wl[1..]) ==> LeavingZerosFirst(res, wl[1..] + [wl[0]])
  {
    hide IsSubsequenceOf;
  }

  lemma {:induction false} RotateZerosFirst(wl: seq<Item>, res: seq<Item>)
    requires LeavingZerosFirst(res, wl)
    ensures SetZerosFirst(Rotate(wl, res))
    decreases |wl|, if wl == [] then 0 else FirstLongest(wl)
  {
    hide Blocked, LeavingZerosFirst;
    if wl == [] {
      NothingLeft(res);
    } else {
      RestZerosFirst(res, wl);
      if Blocked(wl[0], wl[1..]) {
        RotationAdvances(wl);
        RotateZerosFirst(wl[1..] + [wl[0]], res);
      } else {
        RotateZerosFirst(wl[1..], res + [wl[0]]);
      }
    }
  }

  lemma NothingLeft(res: seq<Item>)
    requires LeavingZerosFirst(res, [])
    ensures SetZerosFirst(res)
  {}

  /** No segment at offset 0 is properly included in another segment. */
  predicate Independent(segs: seq<Item>) {
    forall i, j :: 0 <= i < |segs| && 0 <= j < |segs| && SetZero(segs[i]) ==> !IsSubsequenceOf(segs[i].secs, segs[j].secs)
  }

  lemma PassIndependent(segs: seq<Item>)
    requires Independent(segs)
    ensures Free(ZeroPass(segs, 0, 0))
  {
    hide IsSubsequenceOf;
    var wl := ZeroPass(segs, 0, 0);
    ZeroPassPermutes(segs, 0, 0);
    forall k | 0 <= k < |wl| ensures wl[k] in segs {
      assert wl[k] in multiset(wl);
    }
  }

  /** The segments loaded from, or laid out at, offset 0 come first in the order. n of them lead segs. */
  lemma OrderedZerosFirst(segs: seq<Item>, n: nat)
    requires n <= |segs| && (forall k :: 0 <= k < n ==> SetZero(segs[k])) && (n < |segs| ==> !SetZero(segs[n]))
    requires Independent(segs) && !Stalls([], segs[n..], n % 2 == 1)
    ensures SetZerosFirst(Ordered(segs))
  {
    hide SetZerosFirst, Stalls, ZeroPass, Free, Independent;
    ZeroPassExactly(segs, n);
    PassIndependent(segs);
    RotateZerosFirst(ZeroPass(segs, 0, 0), []);
  }

  /** So when every segment has an offset, as after loading or a save. */
  lemma LoadedZerosFirst(segs: seq<Item>)
    requires AllSet(segs) && Independent(segs)
    ensures ZerosFirst(Ordered(segs))
  {
    hide ZeroPass, Free, Independent;
    ZeroPassSorts(segs, 0, 0);
    ZeroPassPermutes(segs, 0, 0);
    SetKept(segs, ZeroPass(segs, 0, 0));
    PassIndependent(segs);
    RotateZerosFirst(ZeroPass(segs, 0, 0), []);
    RotatePermutes(ZeroPass(segs, 0, 0), []);
    SetKept(segs, Ordered(segs));
  }

  lemma SetKept(segs: seq<Item>, wl: seq<Item>)
    requires AllSet(segs) && multiset(wl) == multiset(segs)
    ensures AllSet(wl) && (ZerosFirst(wl) <==> SetZerosFirst(wl))
  {
    forall k | 0 <= k < |wl| ensures wl[k].offsetSet {
      assert wl[k] in multiset(wl);
      assert wl[k] in segs;
    }
  }

  /** Segment x stands before segment y, at some places. */
  predicate Before(wl: seq<Item>, x: Item, y: Item) {
    exists i, j :: 0 <= i < j < |wl| && wl[i] == x && wl[j] == y
  }

  /** x is properly included in no segment of wl. */
  predicate Outermost(x: Item, wl: seq<Item>) {
    forall j :: 0 <= j < |wl| ==> !IsSubsequenceOf(x.secs, wl[j].secs)
  }

  /** An outermost segment leaves the worklist before whatever stands behind it. */
  lemma {:induction false} OutermostOvertakes(wl: seq<Item>, res: seq<Item>, i: nat, j: nat)
    requires i < j < |wl| && Outermost(wl[i], wl)
    ensures Before(Rotate(wl, res), wl[i], wl[j])
    decreases |wl|, FirstLongest(wl)
  {
    hide Outermost, Before, Blocked, FirstLongest, Rotate;
    NextRotation(wl, res);
    StillOutermost(wl[i], wl, wl[1..]);
    StillOutermost(wl[i], wl, wl[1..] + [wl[0]]);
    OutermostLeaves(wl, i);
    if Blocked(wl[0], wl[1..]) {
      OutermostOvertakes(wl[1..] + [wl[0]], res, i - 1, j - 1);
    } else if i == 0 {
      RestFollows(wl[1..], res + [wl[0]], wl[0], wl[j], |res|, j - 1);
    } else {
      OutermostOvertakes(wl[1..], res + [wl[0]], i - 1, j - 1);
    }
  }

  lemma StillOutermost(x: Item, wl: seq<Item>, next: seq<Item>)
    requires Outermost(x, wl) && wl != [] && (next == wl[1..] || next == wl[1..] + [wl[0]])
    ensures Outermost(x, next)
  {
    hide IsSubsequenceOf;
  }

  lemma OutermostLeaves(wl: seq<Item>, i: nat)
    requires i < |wl| && Outermost(wl[i], wl)
    ensures Blocked(wl[0], wl[1..]) ==> i != 0
  {
    hide IsSubsequenceOf;
  }

  /** What has left stays in front of what is left. */
  lemma {:induction false} RestFollows(wl: seq<Item>, res: seq<Item>, x: Item, y: Item, i: nat, j: nat)
    requires i < |res| && res[i] == x && j < |wl| && wl[j] == y
    ensures Before(Rotate(wl, res), x, y)
    decreases |wl|, FirstLongest(wl)
  {
    hide Blocked;
    if Blocked(wl[0], wl[1..]) {
      RotationAdvances(wl);
      RestFollows(wl[1..] + [wl[0]], res, x, y, i, if j == 0 then |wl| - 1 else j - 1);
    } else if j == 0 {
      LeftStays(wl[1..], res + [wl[0]]);
      var r := Rotate(wl, res);
      assert r[i] == (res + [wl[0]])[i] && r[|res|] == (res + [wl[0]])[|res|];
    } else {
      RestFollows(wl[1..], res + [wl[0]], x, y, i, j - 1);
    }
  }

  lemma {:induction false} LeftStays(wl: seq<Item>, res: seq<Item>)
    ensures res <= Rotate(wl, res)
    decreases |wl|, if wl == [] then 0 else FirstLongest(wl)
  {
    hide Blocked;
    if wl != [] {
      if Blocked(wl[0], wl[1..]) {
        RotationAdvances(wl);
        LeftStays(wl[1..] + [wl[0]], res);
      } else {
        LeftStays(wl[1..], res + [wl[0]]);
      }
    }
  }

  /** A segment in front of one that includes it is put back behind the outermost segments. */
  lemma {:induction false} PutBackBehind(wl: seq<Item>, res: seq<Item>, i: nat, j: nat, k: nat)
    requires i < j < |wl| && i < k < |wl| && IsSubsequenceOf(wl[i].secs, wl[j].secs) && Outermost(wl[k], wl)
    ensures Before(Rotate(wl, res), wl[k], wl[i])
    decreases |wl|, FirstLongest(wl)
  {
    hide Outermost, Before, IsSubsequenceOf, Blocked, FirstLongest, Rotate;
    NextRotation(wl, res);
    StillOutermost(wl[k], wl, wl[1..]);
    StillOutermost(wl[k], wl, wl[1..] + [wl[0]]);
    if i == 0 {
      FrontBlocked(wl, j);
      OutermostOvertakes(wl[1..] + [wl[0]], res, k - 1, |wl| - 1);
    } else if Blocked(wl[0], wl[1..]) {
      PutBackBehind(wl[1..] + [wl[0]], res, i - 1, j - 1, k - 1);
    } else {
      PutBackBehind(wl[1..], res + [wl[0]], i - 1, j - 1, k - 1);
    }
  }

  lemma NextRotation(wl: seq<Item>, res: seq<Item>)
    requires wl != []
    ensures Blocked(wl[0], wl[1..]) ==> FirstLongest(wl[1..] + [wl[0]]) < FirstLongest(wl)
    ensures Rotate(wl, res) == if Blocked(wl[0], wl[1..]) then Rotate(wl[1..] + [wl[0]], res) else Rotate(wl[1..], res + [wl[0]])
  {
    hide Blocked;
    if Blocked(wl[0], wl[1..]) {
      RotationAdvances(wl);
    }
  }

  lemma FrontBlocked(wl: seq<Item>, j: nat)
    requires 0 < j < |wl| && IsSubsequenceOf(wl[0].secs, wl[j].secs)
    ensures Blocked(wl[0], wl[1..])
  {
    hide IsSubsequenceOf;
    assert wl[1..][j - 1] == wl[j];
  }

  /** Exactly when the rotation keeps the segments at offset 0 in front, unless all outermost segments
      are at offset 0: when none of them stands before one that properly includes it. */
  lemma RotationExactly(wl: seq<Item>, k: nat)
    requires SetZerosFirst(wl) && k < |wl| && !SetZero(wl[k]) && Outermost(wl[k], wl)
    ensures SetZerosFirst(Rotate(wl, [])) <==> Free(wl)
  {
    hide Outermost, IsSubsequenceOf;
    if Free(wl) {
      RotateZerosFirst(wl, []);
    } else {
      var i, j :| 0 <= i < j < |wl| && SetZero(wl[i]) && IsSubsequenceOf(wl[i].secs, wl[j].secs);
      PutBackBehind(wl, [], i, j, k);
    }
  }

  // ---------------------------------------------------------------- orders that stay

  lemma {:induction false} NoneBlocked(wl: seq<Item>, res: seq<Item>)
    requires NoneBeforeSuperset(wl)
    ensures Rotate(wl, res) == res + wl
    decreases |wl|
  {
    hide IsSubsequenceOf;
    if wl != [] {
      assert !Blocked(wl[0], wl[1..]);
      NoneBlocked(wl[1..], res + [wl[0]]);
      assert res + [wl[0]] + wl[1..] == res + wl;
    }
  }

  /** When no segment properly includes another, the order is what the pre-pass leaves. */
  lemma OrderedFlat(segs: seq<Item>, n: nat)
    requires n <= |segs| && (forall k :: 0 <= k < n ==> SetZero(segs[k])) && (n < |segs| ==> !SetZero(segs[n]))
    requires forall i :: 0 <= i < |segs| ==> Outermost(segs[i], segs)
    ensures Ordered(segs) == ZeroPass(segs, 0, 0)
    ensures SetZerosFirst(Ordered(segs)) <==> !Stalls([], segs[n..], n % 2 == 1)
  {
    hide SetZerosFirst, Stalls, ZeroPass, IsSubsequenceOf;
    ZeroPassExactly(segs, n);
    ZeroPassPermutes(segs, 0, 0);
    var wl := ZeroPass(segs, 0, 0);
    forall k | 0 <= k < |wl| ensures wl[k] in segs {
      assert wl[k] in multiset(wl);
    }
    NoneBlocked(wl, []);
  }

  lemma {:induction false} NoMoreZeros(wl: seq<Item>, i: nat, nextSlot: nat)
    requires nextSlot <= i <= |wl| && forall k :: i <= k < |wl| ==> !SetZero(wl[k])
    ensures ZeroPass(wl, i, nextSlot) == wl
    decreases |wl| - i
  {
    if i < |wl| {
      NoMoreZeros(wl, i + 1, nextSlot);
    }
  }

  /** Segments that are in such an order already keep it: ordering the order again changes nothing. */
  lemma OrderStays(segs: seq<Item>, n: nat)
    requires n <= |segs| && (forall k :: 0 <= k < n ==> SetZero(segs[k])) && (forall k :: n <= k < |segs| ==> !SetZero(segs[k]))
    requires NoneBeforeSuperset(segs)
    ensures Ordered(segs) == segs
  {
    hide ZeroPass, NoneBeforeSuperset, SetZero;
    LeadingZeros(segs, n, 0);
    NoMoreZeros(segs, n, if n % 2 == 1 then n - 1 else n);
    NoneBlocked(segs, []);
  }

  /** The order as segment numbers, when id is the position in the object. */
  function Order(segs: seq<Item>): (order: seq<nat>)
    ensures |order| == |Ordered(segs)|
  {
    var res := Ordered(segs);
    seq(|res|, k requires 0 <= k < |res| => res[k].id)
  }

  predicate Numbered(segs: seq<Item>) { forall i :: 0 <= i < |segs| ==> segs[i].id == i }

  lemma {:induction false} OccursTwice(s: seq<Item>, a: nat, b: nat)
    requires a < b < |s| && s[a] == s[b]
    ensures multiset(s)[s[a]] >= 2
  {
    assert s == s[..b] + s[b..];
    assert s[a] in s[..b] && s[b] in s[b..];
  }

  lemma {:induction false} OccursOnce(s: seq<Item>, v: Item)
    requires forall a, b :: 0 <= a < b < |s| ==> s[a].id != s[b].id
    ensures multiset(s)[v] <= 1
  {
    if s != [] {
      var n := |s| - 1;
      assert s == s[..n] + [s[n]];
      OccursOnce(s[..n], v);
      if v == s[n] {
        assert v !in s[..n];
      }
    }
  }

  lemma OrderPicks(segs: seq<Item>)
    requires Numbered(segs)
    ensures |Order(segs)| == |Ordered(segs)|
    ensures forall p :: 0 <= p < |Order(segs)| ==> Order(segs)[p] < |segs| && segs[Order(segs)[p]] == Ordered(segs)[p]
  {
    hide Ordered;
    OrderedIsSound(segs);
    var res := Ordered(segs);
    forall p | 0 <= p < |res| ensures res[p].id < |segs| && segs[res[p].id] == res[p] {
      assert res[p] in multiset(res);
      assert res[p] in segs;
    }
  }

  /** Every segment number occurs exactly once, none before a properly larger segment. */
  lemma OrderIsPermutation(segs: seq<Item>)
    requires Numbered(segs)
    ensures var order := Order(segs);
            && (forall p :: 0 <= p < |order| ==> order[p] < |segs|)
            && (forall p, q :: 0 <= p < q < |order| ==> order[p] != order[q])
            && (forall k :: 0 <= k < |segs| ==> k in order)
            && (forall p, q :: 0 <= p < q < |order| ==> !IsSubsequenceOf(segs[order[p]].secs, segs[order[q]].secs))
  {
    hide Ordered, IsSubsequenceOf;
    OrderedIsSound(segs);
    OrderPicks(segs);
    var res := Ordered(segs);
    var order := Order(segs);
    forall p, q | 0 <= p < q < |res| ensures order[p] != order[q] {
      if order[p] == order[q] {
        OccursTwice(res, p, q);
        OccursOnce(segs, res[p]);
      }
    }
    forall k | 0 <= k < |segs| ensures k in order {
      assert segs[k] in multiset(segs);
      assert segs[k] in res;
      var p :| 0 <= p < |res| && res[p] == segs[k];
      assert order[p] == k;
    }
  }

  /** In the order of segment numbers, those at offset 0 come first. */
  lemma OrderZerosFirst(segs: seq<Item>)
    requires Numbered(segs) && AllSet(segs) && Independent(segs)
    ensures var order := Order(segs);
            && (forall p :: 0 <= p < |order| ==> order[p] < |segs|)
            && forall p, q :: 0 <= p < q < |order| && segs[order[q]].offset == 0 ==> segs[order[p]].offset == 0
  {
    hide Ordered;
    OrderPicks(segs);
    LoadedZerosFirst(segs);
  }

  // ---------------------------------------------------------------- the loops

  /** The pre-pass. */
  method BringZerosToFront(segs: seq<Item>) returns (worklist: seq<Item>)
    ensures worklist == ZeroPass(segs, 0, 0)
  {
    hide Swap;
    worklist := segs;
    var nextSlot := 0;
    var i := 0;
    while i < |worklist|
      invariant |worklist| == |segs| && nextSlot <= i <= |worklist|
      invariant ZeroPass(worklist, i, nextSlot) == ZeroPass(segs, 0, 0)
    {
      if i != nextSlot && worklist[i].offsetSet && worklist[i].offset == 0 {
        if worklist[nextSlot].offset == 0 {
          nextSlot := nextSlot + 1;
        }
        worklist := Swap(worklist, i, nextSlot);
        nextSlot := nextSlot + 1;
      }
      i := i + 1;
    }
  }

  /** The search for a segment that includes seg. */
  method IsBlocked(seg: Item, worklist: seq<Item>) returns (blocked: bool)
    ensures blocked <==> Blocked(seg, worklist)
  {
    hide IsSubsequenceOf;
    var i := 0;
    while i < |worklist|
      invariant 0 <= i <= |worklist|
      invariant forall k :: 0 <= k < i ==> !IsSubsequenceOf(seg.secs, worklist[k].secs)
    {
      if IsSubsequenceOf(seg.secs, worklist[i].secs) {
        break;
      }
      i := i + 1;
    }
    blocked := i < |worklist|;
  }

  method GetOrderedSegments(segs: seq<Item>) returns (res: seq<Item>)
    ensures res == Ordered(segs)
  {
    hide Blocked;
    var worklist := BringZerosToFront(segs);
    res := [];
    while worklist != []
      invariant Rotate(worklist, res) == Ordered(segs)
      decreases |worklist|, if worklist == [] then 0 else FirstLongest(worklist)
    {
      var seg := worklist[0];
      ghost var before := worklist;
      worklist := worklist[1..];
      var blocked := IsBlocked(seg, worklist);
      if blocked {
        RotationAdvances(before);
        worklist := worklist + [seg];
      } else {
        res := res + [seg];
      }
    }
  }
}
