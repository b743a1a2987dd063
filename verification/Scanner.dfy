/** get_consequent_edges (identification/tools/identifier.cpp): one pass over the sorted edges
    cuts each thread's edges into runs of consecutive positions. */
module Scanner {
  import opened Edges
  import opened OrderedKeys
  import opened Differ

  const MAX_EDG_PACK: nat := 10

  type Entry = (Info, Edge)
  type Pack = seq<Edge>
  type Packs = map<int, seq<Pack>>

  // ---------------------------------------------------------------- the specification

  predicate Joins(a: Info, b: Info) { b.tid == a.tid && b.pos == a.pos + 1 }

  /** The edges of one thread. */
  function Of(es: seq<Entry>, t: int): (s: seq<Entry>)
    ensures forall k :: 0 <= k < |s| ==> s[k].0.tid == t
  {
    if es == [] then [] else
      Of(es[..|es| - 1], t) + (if es[|es| - 1].0.tid == t then [es[|es| - 1]] else [])
  }

  /** The split into maximal runs of consecutive positions. */
  function Runs(s: seq<Entry>): (rs: seq<seq<Entry>>)
    ensures forall k :: 0 <= k < |rs| ==> rs[k] != []
    ensures s != [] ==> rs != [] && s[|s| - 1] == rs[|rs| - 1][|rs[|rs| - 1]| - 1]
  {
    if s == [] then [] else
      var n := |s| - 1;
      var rs := Runs(s[..n]);
      if n > 0 && Joins(s[n - 1].0, s[n].0) then rs[..|rs| - 1] + [rs[|rs| - 1] + [s[n]]] else rs + [[s[n]]]
  }

  /** The runs of two edges or more. */
  function Long(rs: seq<seq<Entry>>): seq<seq<Entry>> {
    if rs == [] then [] else
      Long(rs[..|rs| - 1]) + (if |rs[|rs| - 1]| > 1 then [rs[|rs| - 1]] else [])
  }

  function Strip(r: seq<Entry>): (p: Pack)
    ensures |p| == |r|
  {
    seq(|r|, k requires 0 <= k < |r| => r[k].1)
  }

  function StripAll(rs: seq<seq<Entry>>): (ps: seq<Pack>)
    ensures |ps| == |rs|
  {
    seq(|rs|, k requires 0 <= k < |rs| => Strip(rs[k]))
  }

  function Take<T>(s: seq<T>): seq<T> { if |s| > MAX_EDG_PACK then s[..MAX_EDG_PACK] else s }

  /** What is wanted for one thread: the first runs of at least two edges. */
  function PackList(s: seq<Entry>): seq<Pack> { StripAll(Take(Long(Runs(s)))) }

  /** A thread is a key exactly when it has such a run, and then gets its list. */
  ghost predicate IsScan(es: seq<Entry>, m: Packs) {
    forall t :: (t in m <==> PackList(Of(es, t)) != []) && (t in m ==> m[t] == PackList(Of(es, t)))
  }

  // ---------------------------------------------------------------- what the split means

  function Flatten(rs: seq<seq<Entry>>): seq<Entry> {
    if rs == [] then [] else Flatten(rs[..|rs| - 1]) + rs[|rs| - 1]
  }

  predicate Consecutive(r: seq<Entry>) { forall k :: 0 <= k < |r| - 1 ==> Joins(r[k].0, r[k + 1].0) }

  /** A split into nonempty runs of consecutive positions, none of which could be longer. */
  predicate MaximalSplit(s: seq<Entry>, rs: seq<seq<Entry>>) {
    && Flatten(rs) == s
    && (forall k :: 0 <= k < |rs| ==> rs[k] != [] && Consecutive(rs[k]))
    && (forall k :: 0 <= k < |rs| - 1 ==> Breaks(rs[k], rs[k + 1]))
  }

  predicate Breaks(a: seq<Entry>, b: seq<Entry>) { a != [] && b != [] && !Joins(a[|a| - 1].0, b[0].0) }

  lemma FlattenAppend(rs: seq<seq<Entry>>, r: seq<Entry>)
    ensures Flatten(rs + [r]) == Flatten(rs) + r
  {
    assert (rs + [r])[..|rs|] == rs;
  }

  /** The last element of a split is the last element of its last run. */
  lemma SplitEnd(s: seq<Entry>, rs: seq<seq<Entry>>)
    requires MaximalSplit(s, rs) && s != []
    ensures rs != [] && s == Flatten(rs[..|rs| - 1]) + rs[|rs| - 1]
    ensures rs[|rs| - 1][|rs[|rs| - 1]| - 1] == s[|s| - 1]
  {}

  lemma ExtendSplit(s: seq<Entry>, rs: seq<seq<Entry>>, x: Entry)
    requires MaximalSplit(s, rs) && s != [] && Joins(s[|s| - 1].0, x.0)
    ensures rs != [] && MaximalSplit(s + [x], rs[..|rs| - 1] + [rs[|rs| - 1] + [x]])
  {
    hide Flatten, Joins;
    SplitEnd(s, rs);
    var m := |rs| - 1;
    var r := rs[m] + [x];
    var ss := rs[..m] + [r];
    FlattenAppend(rs[..m], r);
    assert Flatten(rs[..m]) + (rs[m] + [x]) == s + [x];
    forall k | 0 <= k < |r| - 1 ensures Joins(r[k].0, r[k + 1].0) {
      if k < |rs[m]| - 1 { assert Joins(rs[m][k].0, rs[m][k + 1].0); }
    }
    forall k | 0 <= k < |ss| - 1 ensures Breaks(ss[k], ss[k + 1]) {
      assert Breaks(rs[k], rs[k + 1]);
    }
  }

  lemma StartRun(s: seq<Entry>, rs: seq<seq<Entry>>, x: Entry)
    requires MaximalSplit(s, rs) && (s == [] || !Joins(s[|s| - 1].0, x.0))
    ensures MaximalSplit(s + [x], rs + [[x]])
  {
    hide Flatten, Joins;
    var ss := rs + [[x]];
    FlattenAppend(rs, [x]);
    assert Consecutive([x]);
    forall k | 0 <= k < |ss| - 1 ensures Breaks(ss[k], ss[k + 1]) {
      if k < |rs| - 1 {
        assert Breaks(rs[k], rs[k + 1]);
      } else {
        if s == [] { FlattenEmpty(rs); }
        SplitEnd(s, rs);
      }
    }
  }

  lemma FlattenEmpty(rs: seq<seq<Entry>>)
    requires Flatten(rs) == [] && forall k :: 0 <= k < |rs| ==> rs[k] != []
    ensures rs == []
  {}

  lemma {:induction false} RunsSplit(s: seq<Entry>)
    ensures MaximalSplit(s, Runs(s))
  {
    hide MaximalSplit, Joins;
    if s == [] {
      EmptySplit();
    } else {
      var n := |s| - 1;
      RunsSplit(s[..n]);
      assert s == s[..n] + [s[n]];
      if n > 0 && Joins(s[n - 1].0, s[n].0) {
        ExtendSplit(s[..n], Runs(s[..n]), s[n]);
      } else {
        StartRun(s[..n], Runs(s[..n]), s[n]);
      }
    }
  }

  lemma EmptySplit()
    ensures MaximalSplit([], [])
  {}

  /** Taking the last entry off a split. */
  lemma ShortenSplit(s: seq<Entry>, rs: seq<seq<Entry>>) returns (ss: seq<seq<Entry>>)
    requires MaximalSplit(s, rs) && s != []
    ensures MaximalSplit(s[..|s| - 1], ss)
    ensures |s| > 1 && Joins(s[|s| - 2].0, s[|s| - 1].0) ==>
              ss != [] && rs == ss[..|ss| - 1] + [ss[|ss| - 1] + [s[|s| - 1]]]
    ensures |s| == 1 || !Joins(s[|s| - 2].0, s[|s| - 1].0) ==> rs == ss + [[s[|s| - 1]]]
  {
    hide Flatten, Joins;
    SplitEnd(s, rs);
    var n, m := |s| - 1, |rs| - 1;
    var r, front := rs[m], Flatten(rs[..m]);
    if |r| == 1 {
      ss := rs[..m];
      assert s[..n] == front;
      assert r == [s[n]];
      forall k | 0 <= k < |ss| - 1 ensures Breaks(ss[k], ss[k + 1]) {
        assert Breaks(rs[k], rs[k + 1]);
      }
      if n > 0 {
        SplitEnd(s[..n], ss);
        assert Breaks(rs[m - 1], rs[m - 1 + 1]);
      }
    } else {
      var cut := r[..|r| - 1];
      ss := rs[..m] + [cut];
      FlattenAppend(rs[..m], cut);
      assert s[..n] == front + cut;
      assert Joins(r[|r| - 2].0, r[|r| - 2 + 1].0);
      assert s[n - 1] == r[|r| - 2];
      forall k | 0 <= k < |ss| - 1 ensures Breaks(ss[k], ss[k + 1]) {
        assert Breaks(rs[k], rs[k + 1]);
      }
      assert r == cut + [s[n]];
      assert ss[..m] == rs[..m];
    }
  }

  lemma EmptyOnly(rs: seq<seq<Entry>>)
    requires MaximalSplit([], rs)
    ensures rs == []
  {
    FlattenEmpty(rs);
  }

  /** There is only one such split. */
  lemma {:induction false} SplitUnique(s: seq<Entry>, rs: seq<seq<Entry>>)
    requires MaximalSplit(s, rs)
    ensures rs == Runs(s)
    decreases |s|
  {
    hide MaximalSplit, Joins;
    if s == [] {
      EmptyOnly(rs);
    } else {
      var ss := ShortenSplit(s, rs);
      SplitUnique(s[..|s| - 1], ss);
      assert s[..|s| - 1] != [] ==> s[..|s| - 1][|s| - 2] == s[|s| - 2];
    }
  }

  // ---------------------------------------------------------------- the scan

  /** The long runs before the current one, and the current one. */
  function Done(s: seq<Entry>): seq<seq<Entry>>
    requires s != []
  {
    Long(Runs(s)[..|Runs(s)| - 1])
  }

  function Current(s: seq<Entry>): seq<Entry>
    requires s != []
  {
    Runs(s)[|Runs(s)| - 1]
  }

  lemma LongIs(s: seq<Entry>)
    requires s != []
    ensures Long(Runs(s)) == Done(s) + (if |Current(s)| > 1 then [Current(s)] else [])
  {}

  lemma Grow(s: seq<Entry>, e: Entry)
    requires s != []
    ensures s + [e] != []
    ensures Joins(s[|s| - 1].0, e.0) ==> Done(s + [e]) == Done(s) && Current(s + [e]) == Current(s) + [e]
    ensures !Joins(s[|s| - 1].0, e.0) ==> Done(s + [e]) == Long(Runs(s)) && Current(s + [e]) == [e]
  {
    var u := s + [e];
    assert u[..|s|] == s;
    var rs := Runs(s);
    if Joins(s[|s| - 1].0, e.0) {
      assert Runs(u) == rs[..|rs| - 1] + [rs[|rs| - 1] + [e]];
      assert Runs(u)[..|rs| - 1] == rs[..|rs| - 1];
    } else {
      assert Runs(u) == rs + [[e]];
      assert Runs(u)[..|rs|] == rs;
    }
  }

  lemma Start(e: Entry)
    ensures Done([e]) == [] && Current([e]) == [e]
  {
    assert Runs([e]) == Runs([]) + [[e]];
  }

  lemma OfNext(es: seq<Entry>, i: nat, t: int)
    requires i < |es|
    ensures Of(es[..i + 1], t) == Of(es[..i], t) + (if es[i].0.tid == t then [es[i]] else [])
  {
    assert es[..i + 1][..i] == es[..i];
  }

  /** Edges sorted by thread, threads numbered from 0. */
  ghost predicate ByThread(es: seq<Entry>) {
    && (forall i :: 0 <= i < |es| ==> es[i].0.tid >= 0)
    && (forall i, j :: 0 <= i < j < |es| ==> es[i].0.tid <= es[j].0.tid)
  }

  lemma {:induction false} OfLater(es: seq<Entry>, i: nat, t: int)
    requires ByThread(es) && i <= |es| && (i > 0 ==> es[i - 1].0.tid < t)
    ensures Of(es[..i], t) == []
  {
    if i > 0 {
      OfLater(es, i - 1, t);
      OfNext(es, i - 1, t);
    }
  }

  lemma StripAppend(rs: seq<seq<Entry>>, r: seq<Entry>)
    ensures StripAll(rs + [r]) == StripAll(rs) + [Strip(r)]
  {}

  /** Everything the scan knows after i edges, the last of thread t; s is what t had so far. */
  ghost predicate Scanned(es: seq<Entry>, i: nat, vec: Pack, packs: seq<Pack>, nomore: int, threads: Packs)
    requires 1 <= i <= |es|
  {
    var t := es[i - 1].0.tid;
    var s := Of(es[..i], t);
    && s != [] && s[|s| - 1] == es[i - 1]
    && nomore <= t
    && OneThread(s, t, vec, packs, nomore, threads)
    && Others(es[..i], t, threads)
  }

  /** The threads before t have their lists, and those behind none yet. */
  ghost predicate Others(es: seq<Entry>, t: int, threads: Packs) {
    && (forall u :: u in threads ==> u <= t)
    && (forall u :: u < t ==> (u in threads <==> PackList(Of(es, u)) != []))
    && (forall u :: u < t && u in threads ==> threads[u] == PackList(Of(es, u)))
  }

  lemma OthersStay(es: seq<Entry>, i: nat, threads: Packs, after: Packs)
    requires i < |es| && Others(es[..i], es[i].0.tid, threads)
    requires after == threads || (es[i].0.tid in after && after == threads[es[i].0.tid := after[es[i].0.tid]])
    ensures Others(es[..i + 1], es[i].0.tid, after)
  {
    hide Of, PackList;
    forall u | u < es[i].0.tid ensures Of(es[..i + 1], u) == Of(es[..i], u) { OfNext(es, i, u); }
  }

  ghost predicate OneThread(s: seq<Entry>, t: int, vec: Pack, packs: seq<Pack>, nomore: int, threads: Packs)
    requires s != []
  {
    if |Done(s)| < MAX_EDG_PACK then
      packs == StripAll(Done(s)) && vec == Strip(Current(s)) && nomore != t && t !in threads
    else
      packs == [] && |vec| == 1 && nomore == t && t in threads && threads[t] == StripAll(Done(s)[..MAX_EDG_PACK])
  }

  lemma JoinStep(es: seq<Entry>, i: nat, vec: Pack, packs: seq<Pack>, nomore: int, threads: Packs)
    requires 1 <= i < |es| && Scanned(es, i, vec, packs, nomore, threads)
    requires nomore != es[i].0.tid && Joins(es[i - 1].0, es[i].0)
    ensures Scanned(es, i + 1, vec + [es[i].1], packs, nomore, threads)
  {
    hide Runs, Of, Long, PackList, StripAll, Done, Current;
    var t, e := es[i].0.tid, es[i];
    var s := Of(es[..i], t);
    OfNext(es, i, t);
    Grow(s, e);
    forall u | u < t ensures Of(es[..i + 1], u) == Of(es[..i], u) { OfNext(es, i, u); }
    assert Strip(Current(s)) + [e.1] == Strip(Current(s) + [e]);
  }

  /** Closing the current run: what the scan holds for thread t afterwards. */
  lemma Close(s: seq<Entry>, t: int, vec: Pack, packs: seq<Pack>, nomore: int, threads: Packs)
    requires s != [] && OneThread(s, t, vec, packs, nomore, threads)
    ensures var all := Long(Runs(s));
            var closed := if |vec| > 1 then packs + [vec] else packs;
            if nomore == t then
              |vec| == 1 && packs == [] && |all| >= MAX_EDG_PACK && t in threads && threads[t] == StripAll(all[..MAX_EDG_PACK])
            else
              closed == StripAll(all) && |all| <= MAX_EDG_PACK && t !in threads
              && (|all| == MAX_EDG_PACK ==> |vec| > 1)
  {
    hide Runs, Done, Current, Long;
    LongIs(s);
    if |Done(s)| < MAX_EDG_PACK {
      if |Current(s)| > 1 { StripAppend(Done(s), Current(s)); }
      else { assert Done(s) + [] == Done(s); }
    } else {
      assert Long(Runs(s))[..MAX_EDG_PACK] == Done(s)[..MAX_EDG_PACK];
    }
  }

  /** A thread's final answer in terms of what Close leaves. */
  lemma Finished(s: seq<Entry>)
    ensures PackList(s) == StripAll(if |Long(Runs(s))| > MAX_EDG_PACK then Long(Runs(s))[..MAX_EDG_PACK] else Long(Runs(s)))
    ensures PackList(s) != [] <==> Long(Runs(s)) != []
  {}

  /** An edge of the same thread that does not continue the run. */
  lemma BreakStep(es: seq<Entry>, i: nat, vec: Pack, packs: seq<Pack>, nomore: int, threads: Packs)
    requires 1 <= i < |es| && Scanned(es, i, vec, packs, nomore, threads)
    requires es[i].0.tid == es[i - 1].0.tid && (nomore == es[i].0.tid || !Joins(es[i - 1].0, es[i].0))
    ensures var t := es[i].0.tid;
            var closed := if |vec| > 1 then packs + [vec] else packs;
            if |vec| > 1 && |closed| == MAX_EDG_PACK then Scanned(es, i + 1, [es[i].1], [], t, threads[t := closed])
            else Scanned(es, i + 1, [es[i].1], closed, nomore, threads)
  {
    hide Runs, Of, Long, PackList, StripAll, Done, Current, OneThread, Others;
    var t, e := es[i].0.tid, es[i];
    var closed := if |vec| > 1 then packs + [vec] else packs;
    OfNext(es, i, t);
    BreakThread(Of(es[..i], t), e, t, vec, packs, nomore, threads);
    OthersStay(es, i, threads, threads);
    OthersStay(es, i, threads, threads[t := closed]);
  }

  /** The same for the thread alone. */
  lemma BreakThread(s: seq<Entry>, e: Entry, t: int, vec: Pack, packs: seq<Pack>, nomore: int, threads: Packs)
    requires s != [] && OneThread(s, t, vec, packs, nomore, threads) && e.0.tid == t && s[|s| - 1].0.tid == t
    requires nomore == t || !Joins(s[|s| - 1].0, e.0)
    ensures var closed := if |vec| > 1 then packs + [vec] else packs;
            if |vec| > 1 && |closed| == MAX_EDG_PACK then OneThread(s + [e], t, [e.1], [], t, threads[t := closed])
            else OneThread(s + [e], t, [e.1], closed, nomore, threads)
  {
    hide Runs, Long, StripAll, Done, Current;
    Grow(s, e);
    Close(s, t, vec, packs, nomore, threads);
    LongIs(s);
    assert Strip([e]) == [e.1];
    TakeAll(Long(Runs(s)));
  }

  lemma TakeAll(rs: seq<seq<Entry>>)
    ensures |rs| == MAX_EDG_PACK ==> rs[..MAX_EDG_PACK] == rs
  {}

  /** Every thread up to t has its list. */
  ghost predicate Stored(es: seq<Entry>, t: int, threads: Packs) {
    && (forall u :: u in threads ==> u <= t)
    && (forall u :: u <= t ==> (u in threads <==> PackList(Of(es, u)) != []))
    && (forall u :: u in threads ==> threads[u] == PackList(Of(es, u)))
  }

  lemma CloseThread(es: seq<Entry>, i: nat, vec: Pack, packs: seq<Pack>, nomore: int, threads: Packs)
    requires 1 <= i <= |es| && Scanned(es, i, vec, packs, nomore, threads)
    ensures var t := es[i - 1].0.tid;
            var closed := if |vec| > 1 then packs + [vec] else packs;
            Stored(es[..i], t, if closed != [] then threads[t := closed] else threads)
    ensures nomore <= es[i - 1].0.tid
  {
    hide Runs, Of, Long, PackList, StripAll, Done, Current;
    var t := es[i - 1].0.tid;
    var s := Of(es[..i], t);
    Close(s, t, vec, packs, nomore, threads);
    Finished(s);
    TakeAll(Long(Runs(s)));
  }

  lemma EnterThread(es: seq<Entry>, i: nat, nomore: int, threads: Packs)
    requires ByThread(es) && 1 <= i < |es| && nomore <= es[i - 1].0.tid && es[i].0.tid != es[i - 1].0.tid
    requires Stored(es[..i], es[i - 1].0.tid, threads)
    ensures Scanned(es, i + 1, [es[i].1], [], nomore, threads)
  {
    hide Runs, Of, Long, PackList, StripAll, Done, Current;
    var t, v, e := es[i - 1].0.tid, es[i].0.tid, es[i];
    OfLater(es, i, v);
    OfNext(es, i, v);
    Start(e);
    assert Of(es[..i + 1], v) == [e];
    StripNothing();
    assert Strip([e]) == [e.1];
    forall u | u < v
      ensures u in threads <==> PackList(Of(es[..i + 1], u)) != []
      ensures u in threads ==> threads[u] == PackList(Of(es[..i + 1], u))
    {
      OfNext(es, i, u);
      assert Of(es[..i + 1], u) == Of(es[..i], u);
      if t < u {
        OfLater(es, i, u);
        NoPacks();
      }
    }
    assert OneThread([e], v, [e.1], [], nomore, threads);
  }

  /** The first edge of the next thread. */
  lemma ThreadStep(es: seq<Entry>, i: nat, vec: Pack, packs: seq<Pack>, nomore: int, threads: Packs)
    requires ByThread(es) && 1 <= i < |es| && Scanned(es, i, vec, packs, nomore, threads)
    requires es[i].0.tid != es[i - 1].0.tid
    ensures var t := es[i - 1].0.tid;
            var closed := if |vec| > 1 then packs + [vec] else packs;
            if |vec| > 1 && |closed| == MAX_EDG_PACK then Scanned(es, i + 1, [es[i].1], [], t, threads[t := closed])
            else Scanned(es, i + 1, [es[i].1], [], nomore, if closed != [] then threads[t := closed] else threads)
  {
    hide Scanned, Stored, ByThread;
    var t := es[i - 1].0.tid;
    var closed := if |vec| > 1 then packs + [vec] else packs;
    CloseThread(es, i, vec, packs, nomore, threads);
    if |vec| > 1 && |closed| == MAX_EDG_PACK {
      EnterThread(es, i, t, threads[t := closed]);
    } else {
      EnterThread(es, i, nomore, if closed != [] then threads[t := closed] else threads);
    }
  }

  lemma StripNothing()
    ensures StripAll([]) == []
  {}

  lemma NoPacks()
    ensures PackList([]) == []
  {}

  /** The scan is over: the last thread's packs are stored. */
  lemma LastStep(es: seq<Entry>, vec: Pack, packs: seq<Pack>, nomore: int, threads: Packs)
    requires ByThread(es) && es != [] && Scanned(es, |es|, vec, packs, nomore, threads)
    ensures var t := es[|es| - 1].0.tid;
            var closed := if |vec| > 1 then packs + [vec] else packs;
            IsScan(es, if closed != [] then threads[t := closed] else threads)
  {
    hide Scanned, Runs, Of, Long, PackList, StripAll;
    var n := |es|;
    assert es[..n] == es;
    var t := es[n - 1].0.tid;
    CloseThread(es, n, vec, packs, nomore, threads);
    forall u | u > t ensures PackList(Of(es, u)) == [] {
      OfLater(es, n, u);
      NoPacks();
    }
  }

  /** get_consequent_edges. Every list is stored under a thread that has none yet. */
  method GetConsequentEdges(filtered: Sorted) returns (threads: Packs)
    requires forall i :: i in filtered ==> i.tid >= 0
    ensures Total(InfoLess) && IsScan(Items(InfoLess, filtered), threads)
  {
    hide Scanned, IsScan, Items, Total, Lists;
    InfosTotal();
    var es := Items(InfoLess, filtered);
    ItemsByThread(filtered);
    threads := map[];
    if |es| == 0 {
      NothingToScan();
      return;
    }
    var packs: seq<Pack> := [];
    var vec := [es[0].1];
    var nomore := -1;
    var prev := es[0].0;
    var i := 1;
    FirstStep(es);
    while i < |es|
      invariant 1 <= i <= |es| && prev == es[i - 1].0
      invariant Scanned(es, i, vec, packs, nomore, threads)
    {
      var (info, edge) := es[i];
      if nomore != info.tid && info.tid == prev.tid && info.pos == prev.pos + 1 {
        JoinStep(es, i, vec, packs, nomore, threads);
        vec := vec + [edge];
      } else {
        if info.tid == prev.tid { BreakStep(es, i, vec, packs, nomore, threads); }
        else { ThreadStep(es, i, vec, packs, nomore, threads); }
        ClosesFree(es, i, vec, packs, nomore, threads);
        if |vec| > 1 {
          packs := packs + [vec];
          if |packs| == MAX_EDG_PACK {
            assert prev.tid !in threads;
            threads := threads[prev.tid := packs];
            packs := [];
            nomore := prev.tid;
          }
        }
        vec := [edge];
        if info.tid != prev.tid && packs != [] {
          assert prev.tid !in threads;
          threads := threads[prev.tid := packs];
          packs := [];
        }
      }
      prev := info;
      i := i + 1;
    }
    LastStep(es, vec, packs, nomore, threads);
    ClosesFree(es, i, vec, packs, nomore, threads);
    if |vec| > 1 {
      packs := packs + [vec];
    }
    if |packs| > 0 {
      assert prev.tid !in threads;
      threads := threads[prev.tid := packs];
    }
  }

  /** When there is something to store for the current thread, nothing is stored yet. */
  lemma ClosesFree(es: seq<Entry>, i: nat, vec: Pack, packs: seq<Pack>, nomore: int, threads: Packs)
    requires 1 <= i <= |es| && Scanned(es, i, vec, packs, nomore, threads)
    ensures |vec| > 1 || packs != [] ==> es[i - 1].0.tid !in threads
  {}

  lemma FirstStep(es: seq<Entry>)
    requires es != [] && es[0].0.tid >= 0
    ensures Scanned(es, 1, [es[0].1], [], -1, map[])
  {
    hide Runs, Long, PackList;
    assert es[..1] == [es[0]] && es[..0] == [];
    var t := es[0].0.tid;
    OfNext(es, 0, t);
    assert Of(es[..1], t) == [es[0]];
    Start(es[0]);
    assert Strip([es[0]]) == [es[0].1];
    forall u | u < t ensures PackList(Of(es[..1], u)) == [] {
      OfNext(es, 0, u);
      NoPacks();
    }
  }

  lemma NothingToScan()
    ensures IsScan([], map[])
  {}

  lemma ItemsByThread(filtered: Sorted)
    requires Total(InfoLess) && forall i :: i in filtered ==> i.tid >= 0
    ensures ByThread(Items(InfoLess, filtered))
  {
    hide Items, Total, Lists;
    var es := Items(InfoLess, filtered);
    forall i | 0 <= i < |es| ensures es[i].0.tid >= 0 {
      ListsAt(es, filtered, i);
    }
    forall i, j | 0 <= i < j < |es| ensures es[i].0.tid <= es[j].0.tid {
      ItemsIncrease(InfoLess, filtered, i, j);
    }
  }
}
