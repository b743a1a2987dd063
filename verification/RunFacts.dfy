/** What the packs of one thread are, in terms of the set of positions of its edges. */
module RunFacts {
  import opened Edges
  import opened OrderedKeys
  import opened Differ
  import opened Scanner

  /** The edges of one thread, by strictly ascending position. */
  ghost predicate ByPosition(s: seq<Entry>) {
    forall i, j :: 0 <= i < j < |s| ==> s[i].0.tid == s[j].0.tid && s[i].0.pos < s[j].0.pos
  }

  ghost predicate HasPos(s: seq<Entry>, p: int) { exists k :: 0 <= k < |s| && s[k].0.pos == p }

  /** Whole runs, cut out of the positions: consecutive, with nothing before and nothing behind. */
  ghost predicate WholeRun(s: seq<Entry>, r: seq<Entry>) {
    && r != [] && (forall j :: 0 <= j < |r| ==> r[j] in s && r[j].0.pos == r[0].0.pos + j)
    && !HasPos(s, r[0].0.pos - 1) && !HasPos(s, r[0].0.pos + |r|)
  }

  predicate InOrder(rs: seq<seq<Entry>>) {
    forall k, l :: 0 <= k < l < |rs| ==> Before(rs[k], rs[l])
  }

  lemma PrefixPos(s: seq<Entry>, e: Entry, p: int)
    ensures HasPos(s + [e], p) <==> HasPos(s, p) || e.0.pos == p
  {
    if HasPos(s, p) {
      var k :| 0 <= k < |s| && s[k].0.pos == p;
      assert (s + [e])[k].0.pos == p;
    }
    assert (s + [e])[|s|] == e;
  }

  lemma LastIsLargest(s: seq<Entry>, p: int)
    requires ByPosition(s) && s != [] && HasPos(s, p)
    ensures p <= s[|s| - 1].0.pos
  {}

  /** The last run of s ends with the last edge of s. */
  ghost predicate AllWhole(s: seq<Entry>, rs: seq<seq<Entry>>) {
    && (forall k :: 0 <= k < |rs| ==> WholeRun(s, rs[k]))
    && InOrder(rs)
    && (forall p: int :: HasPos(s, p) ==> exists k :: 0 <= k < |rs| && Covers(rs[k], p))
  }

  predicate Covers(r: seq<Entry>, p: int) { r != [] && r[0].0.pos <= p < r[0].0.pos + |r| }

  lemma StaysWhole(s: seq<Entry>, e: Entry, r: seq<Entry>)
    requires WholeRun(s, r) && e.0.pos != r[0].0.pos - 1 && e.0.pos != r[0].0.pos + |r|
    ensures WholeRun(s + [e], r)
  {
    PrefixPos(s, e, r[0].0.pos - 1);
    PrefixPos(s, e, r[0].0.pos + |r|);
  }

  lemma EndOf(s: seq<Entry>, r: seq<Entry>)
    requires WholeRun(s, r) && ByPosition(s)
    ensures HasPos(s, r[0].0.pos + |r| - 1)
    ensures s != [] && r[0].0.pos + |r| - 1 <= s[|s| - 1].0.pos
  {
    assert r[|r| - 1] in s;
    var k :| 0 <= k < |s| && s[k] == r[|r| - 1];
    LastIsLargest(s, s[k].0.pos);
  }

  lemma {:induction false} RunsWhole(s: seq<Entry>)
    requires ByPosition(s)
    ensures AllWhole(s, Runs(s))
  {
    hide AllWhole;
    if s == [] {
      NothingWhole();
    } else {
      RunsWhole(s[..|s| - 1]);
      WholeStep(s);
    }
  }

  lemma WholeStep(s: seq<Entry>)
    requires s != [] && ByPosition(s) && AllWhole(s[..|s| - 1], Runs(s[..|s| - 1]))
    ensures AllWhole(s, Runs(s))
  {
    hide AllWhole, Runs, ByPosition;
    var n := |s| - 1;
    var s1, e := s[..n], s[n];
    assert s == s1 + [e];
    RunsNext(s1, e);
    LastTwo(s1, e);
    if s1 != [] && Joins(s1[n - 1].0, e.0) {
      ExtendWhole(s1, Runs(s1), e);
    } else {
      StartWhole(s1, Runs(s1), e);
    }
  }

  lemma LastTwo(s: seq<Entry>, e: Entry)
    requires ByPosition(s + [e])
    ensures s != [] ==> s[|s| - 1].0.tid == e.0.tid && s[|s| - 1].0.pos < e.0.pos
  {
    if s != [] {
      assert (s + [e])[|s| - 1] == s[|s| - 1] && (s + [e])[|s|] == e;
    }
  }

  lemma RunsNext(s: seq<Entry>, e: Entry)
    ensures Runs(s + [e]) == if s != [] && Joins(s[|s| - 1].0, e.0)
                             then Runs(s)[..|Runs(s)| - 1] + [Runs(s)[|Runs(s)| - 1] + [e]]
                             else Runs(s) + [[e]]
  {
    assert (s + [e])[..|s|] == s;
  }

  lemma NothingWhole()
    ensures AllWhole([], [])
  {}

  /** The last run of a split, one edge longer. */
  lemma ExtendWhole(s: seq<Entry>, rs: seq<seq<Entry>>, e: Entry)
    requires AllWhole(s, rs) && s != [] && rs != [] && ByPosition(s + [e]) && s[|s| - 1] == rs[|rs| - 1][|rs[|rs| - 1]| - 1]
    requires Joins(s[|s| - 1].0, e.0)
    ensures AllWhole(s + [e], rs[..|rs| - 1] + [rs[|rs| - 1] + [e]])
  {
    hide HasPos, WholeRun;
    var m := |rs| - 1;
    var r := rs[m] + [e];
    var ss := rs[..m] + [r];
    assert WholeRun(s, rs[m]);
    LongerWhole(s, rs[m], e);
    forall k | 0 <= k < |ss| ensures WholeRun(s + [e], ss[k]) {
      if k < m {
        assert WholeRun(s, rs[k]);
        WholeFirst(s, rs[k]);
        StaysWhole(s, e, rs[k]);
      }
    }
    forall p: int | HasPos(s + [e], p) ensures exists k :: 0 <= k < |ss| && Covers(ss[k], p) {
      PrefixPos(s, e, p);
      if HasPos(s, p) {
        var k :| 0 <= k < |rs| && Covers(rs[k], p);
        assert Covers(ss[k], p);
      } else {
        assert Covers(ss[m], p);
      }
    }
  }

  lemma WholeFirst(s: seq<Entry>, r: seq<Entry>)
    requires WholeRun(s, r)
    ensures r != [] && r[|r| - 1].0.pos == r[0].0.pos + |r| - 1
  {}

  lemma LongerWhole(s: seq<Entry>, r: seq<Entry>, e: Entry)
    requires WholeRun(s, r) && s != [] && ByPosition(s + [e]) && s[|s| - 1] == r[|r| - 1] && Joins(s[|s| - 1].0, e.0)
    ensures WholeRun(s + [e], r + [e]) && e.0.pos == r[0].0.pos + |r| && r[0].0.pos == (r + [e])[0].0.pos
  {
    PrefixPos(s, e, r[0].0.pos - 1);
    PrefixPos(s, e, r[0].0.pos + |r| + 1);
    assert (s + [e])[|s|] == e;
  }

  /** A new run behind the others. */
  lemma StartWhole(s: seq<Entry>, rs: seq<seq<Entry>>, e: Entry)
    requires AllWhole(s, rs) && ByPosition(s + [e]) && (s == [] || e.0.pos > s[|s| - 1].0.pos + 1)
    ensures AllWhole(s + [e], rs + [[e]])
  {
    hide HasPos, WholeRun;
    var ss := rs + [[e]];
    assert ByPosition(s) by { assert forall i :: 0 <= i < |s| ==> (s + [e])[i] == s[i]; }
    AloneWhole(s, e);
    forall k | 0 <= k < |ss| ensures WholeRun(s + [e], ss[k]) {
      if k < |rs| {
        assert WholeRun(s, rs[k]);
        WholeFirst(s, rs[k]);
        EndOf(s, rs[k]);
        StaysWhole(s, e, rs[k]);
      }
    }
    forall k, l | 0 <= k < l < |ss| ensures Before(ss[k], ss[l]) {
      assert WholeRun(s, rs[k]);
      EndOf(s, rs[k]);
      WholeFirst(s, rs[k]);
    }
    forall p: int | HasPos(s + [e], p) ensures exists k :: 0 <= k < |ss| && Covers(ss[k], p) {
      PrefixPos(s, e, p);
      if HasPos(s, p) {
        var k :| 0 <= k < |rs| && Covers(rs[k], p);
        assert Covers(ss[k], p);
      } else {
        assert Covers(ss[|rs|], p);
      }
    }
  }

  lemma AloneWhole(s: seq<Entry>, e: Entry)
    requires ByPosition(s + [e]) && (s == [] || e.0.pos > s[|s| - 1].0.pos + 1)
    ensures WholeRun(s + [e], [e])
  {
    var u := s + [e];
    assert u[|s|] == e;
    forall k | 0 <= k < |u| ensures u[k].0.pos != e.0.pos - 1 && u[k].0.pos != e.0.pos + 1 {
      if k < |s| - 1 { assert u[k].0.pos < u[|s| - 1].0.pos; }
    }
  }

  // ---------------------------------------------------------------- the long ones

  lemma {:induction false} LongMembers(rs: seq<seq<Entry>>, r: seq<Entry>)
    ensures r in Long(rs) <==> r in rs && |r| > 1
  {
    if rs != [] {
      var n := |rs| - 1;
      LongMembers(rs[..n], r);
      assert rs == rs[..n] + [rs[n]];
    }
  }

  predicate Before(a: seq<Entry>, b: seq<Entry>) { a != [] && b != [] && a[0].0.pos + |a| < b[0].0.pos }

  lemma {:induction false} LongInOrder(rs: seq<seq<Entry>>)
    requires InOrder(rs)
    ensures InOrder(Long(rs))
  {
    hide Before;
    if rs != [] {
      var n := |rs| - 1;
      LongInOrder(rs[..n]);
      var front := Long(rs[..n]);
      forall k | 0 <= k < |front| ensures Before(front[k], rs[n]) {
        LongMembers(rs[..n], front[k]);
        var j :| 0 <= j < n && rs[j] == front[k];
        assert Before(rs[j], rs[n]);
      }
    }
  }

  /** For positions p and p + 1 of a thread's edges, the run around them. */
  lemma PairInRun(s: seq<Entry>, rs: seq<seq<Entry>>, p: int) returns (k: nat)
    requires AllWhole(s, rs) && HasPos(s, p) && HasPos(s, p + 1)
    ensures k < |rs| && Covers(rs[k], p) && Covers(rs[k], p + 1) && |rs[k]| > 1
  {
    hide HasPos;
    k :| 0 <= k < |rs| && Covers(rs[k], p);
    assert WholeRun(s, rs[k]);
  }

  /** The reported runs of one thread. */
  function Reported(s: seq<Entry>): seq<seq<Entry>> { Take(Long(Runs(s))) }

  /** Reported runs are whole runs of at least two edges, in order, at most ten; consecutive
      positions lie in one of them, or behind all of them when there are ten. */
  lemma ReportedFacts(s: seq<Entry>)
    requires ByPosition(s)
    ensures |Reported(s)| <= MAX_EDG_PACK && InOrder(Reported(s))
    ensures forall k :: 0 <= k < |Reported(s)| ==> |Reported(s)[k]| > 1 && WholeRun(s, Reported(s)[k])
    ensures forall p: int :: HasPos(s, p) && HasPos(s, p + 1) ==> Accounted(Reported(s), p)
  {
    hide HasPos, WholeRun, Runs, Long, Covers, Before, Behind;
    RunsWhole(s);
    var rs, long, rep := Runs(s), Long(Runs(s)), Reported(s);
    LongInOrder(rs);
    forall k | 0 <= k < |rep| ensures |rep[k]| > 1 && WholeRun(s, rep[k]) {
      assert rep[k] == long[k];
      LongMembers(rs, long[k]);
    }
    forall p: int | HasPos(s, p) && HasPos(s, p + 1) ensures Accounted(rep, p) {
      var j := PairInRun(s, rs, p);
      LongMembers(rs, rs[j]);
      var k :| 0 <= k < |long| && long[k] == rs[j];
      if k < |rep| {
        assert Covers(rep[k], p) && Covers(rep[k], p + 1);
      } else {
        assert Before(long[MAX_EDG_PACK - 1], long[k]);
        BeforeCovered(long[MAX_EDG_PACK - 1], long[k], p);
      }
    }
  }

  lemma BeforeCovered(a: seq<Entry>, b: seq<Entry>, p: int)
    requires Before(a, b) && Covers(b, p)
    ensures Behind(a, p)
  {}

  ghost predicate Accounted(rep: seq<seq<Entry>>, p: int) {
    || (exists k :: 0 <= k < |rep| && Covers(rep[k], p) && Covers(rep[k], p + 1))
    || (|rep| == MAX_EDG_PACK && Behind(rep[MAX_EDG_PACK - 1], p))
  }

  predicate Behind(r: seq<Entry>, p: int) { r != [] && r[0].0.pos + |r| < p }

  // ---------------------------------------------------------------- from the sorted edges

  lemma {:induction false} OfMembers(es: seq<Entry>, t: int, x: Entry)
    ensures x in Of(es, t) <==> x in es && x.0.tid == t
  {
    if es != [] {
      var n := |es| - 1;
      OfMembers(es[..n], t, x);
      assert es == es[..n] + [es[n]];
    }
  }

  /** Sorted edges whose (thread, position) are unique. */
  ghost predicate Ranked(es: seq<Entry>) {
    forall i, j :: 0 <= i < j < |es| ==>
      es[i].0.tid < es[j].0.tid || (es[i].0.tid == es[j].0.tid && es[i].0.pos < es[j].0.pos)
  }

  lemma {:induction false} OfByPosition(es: seq<Entry>, t: int)
    requires Ranked(es)
    ensures ByPosition(Of(es, t))
  {
    if es != [] {
      var n := |es| - 1;
      OfByPosition(es[..n], t);
      var s := Of(es[..n], t);
      forall i | 0 <= i < |s| && es[n].0.tid == t ensures s[i].0.pos < es[n].0.pos {
        OfMembers(es[..n], t, s[i]);
        assert s[i] in es[..n];
        var j :| 0 <= j < n && es[j] == s[i];
      }
    }
  }
}
