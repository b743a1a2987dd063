/** Comparing target and non-target runs (identification/tools/identifier.cpp): diff_edges,
    sort_edges and filter. */
module Differ {
  import opened Options
  import opened Edges
  import opened OrderedKeys
  import opened Merge

  /** A profile named by the directory; None when it cannot be opened, which skips it. */
  type Named = Option<RunFile>

  predicate Contains(f: Named, e: Edge) { f.Some? && exists k :: 0 <= k < |f.value| && f.value[k].0 == e }

  /** The last record of an edge in a file. */
  function LastInfo(file: RunFile, e: Edge): Option<Info> {
    if file == [] then None
    else if file[|file| - 1].0 == e then Some(file[|file| - 1].1)
    else LastInfo(file[..|file| - 1], e)
  }

  /** The last file that could be opened. */
  function LastOpened(fs: seq<Named>): Named {
    if fs == [] then None
    else if fs[|fs| - 1].Some? then fs[|fs| - 1]
    else LastOpened(fs[..|fs| - 1])
  }

  lemma {:induction false} ContainsIff(file: RunFile, e: Edge)
    ensures Contains(Some(file), e) <==> LastInfo(file, e).Some?
  {
    if file != [] {
      var n := |file| - 1;
      ContainsIff(file[..n], e);
      if file[n].0 != e {
        if k :| 0 <= k < |file| && file[k].0 == e { assert file[..n][k].0 == e; }
        if k :| 0 <= k < n && file[..n][k].0 == e { assert file[k].0 == e; }
      }
    }
  }

  lemma LastInfoListed(file: RunFile, m: EdgeMap, e: Edge)
    requires Lists(file, m)
    ensures LastInfo(file, e) == if e in m then Some(m[e]) else None
  {
    ContainsIff(file, e);
    LastInfoIn(file, m, e);
    if e in m {
      assert Contains(Some(file), e);
    }
  }

  lemma {:induction false} LastInfoIn(file: RunFile, m: EdgeMap, e: Edge)
    requires forall i :: 0 <= i < |file| ==> file[i].0 in m && file[i].1 == m[file[i].0]
    ensures LastInfo(file, e).Some? ==> e in m && LastInfo(file, e) == Some(m[e])
  {
    if file != [] && file[|file| - 1].0 != e {
      LastInfoIn(file[..|file| - 1], m, e);
    }
  }

  // ---------------------------------------------------------------- diff_edges

  /** m is the intersection of the opened target runs minus the union of the non-target runs,
      with what the last opened target run recorded. */
  ghost predicate IsDiff(targets: seq<Named>, others: seq<Named>, m: EdgeMap) {
    forall e ::
      && (e in m <==> Common(targets, e) && Absent(others, e))
      && (e in m ==> LastOpened(targets).Some? && LastInfo(LastOpened(targets).value, e) == Some(m[e]))
  }

  /** In every opened run, of which there is one. */
  ghost predicate Common(targets: seq<Named>, e: Edge) {
    LastOpened(targets).Some? && forall k :: 0 <= k < |targets| && targets[k].Some? ==> Contains(targets[k], e)
  }

  ghost predicate Absent(others: seq<Named>, e: Edge) {
    forall k :: 0 <= k < |others| ==> !Contains(others[k], e)
  }

  /** The union of the non-target runs. */
  method UnionOf(others: seq<Named>) returns (all: EdgeMap)
    ensures forall e :: e in all <==> !Absent(others, e)
  {
    all := map[];
    var k := 0;
    while k < |others|
      invariant k <= |others|
      invariant forall e :: e in all <==> exists j :: 0 <= j < k && Contains(others[j], e)
    {
      if others[k].Some? {
        var file := others[k].value;
        ghost var before := all;
        var i := 0;
        while i < |file|
          invariant i <= |file|
          invariant forall e :: e in all <==> e in before || exists j :: 0 <= j < i && file[j].0 == e
        {
          if file[i].0 !in all {
            all := all[file[i].0 := file[i].1];
          }
          i := i + 1;
        }
      }
      k := k + 1;
    }
  }

  /** One target run: what it has in common with the runs before it and not with the others. */
  method OneTarget(file: RunFile, first: bool, common: EdgeMap, all: EdgeMap) returns (m: EdgeMap)
    ensures forall e :: e in m <==> (first || e in common) && e !in all && Contains(Some(file), e)
    ensures forall e :: e in m ==> LastInfo(file, e) == Some(m[e])
  {
    m := map[];
    var i := 0;
    while i < |file|
      invariant i <= |file|
      invariant forall e :: e in m <==> (first || e in common) && e !in all && LastInfo(file[..i], e).Some?
      invariant forall e :: e in m ==> LastInfo(file[..i], e) == Some(m[e])
    {
      assert file[..i + 1][..i] == file[..i];
      var e := file[i].0;
      if (first || e in common) && e !in all {
        m := m[e := file[i].1];
      }
      i := i + 1;
    }
    assert file[..i] == file;
    forall e ensures Contains(Some(file), e) <==> LastInfo(file, e).Some? {
      ContainsIff(file, e);
    }
  }

  /** diff_edges; None when no file name matches the target, where the program exits. */
  method DiffEdges(targets: seq<Named>, others: seq<Named>) returns (r: Option<EdgeMap>)
    ensures r.None? <==> targets == []
    ensures r.Some? ==> IsDiff(targets, others, r.value)
  {
    if |targets| == 0 {
      return None;
    }
    hide Contains, LastInfo;
    var all := UnionOf(others);
    var common: EdgeMap := map[];
    var i := 0;
    var k := 0;
    while k < |targets|
      invariant k <= |targets|
      invariant LastOpened(targets[..k]).None? <==> i == 0
      invariant i == 0 ==> common == map[]
      invariant IsDiff(targets[..k], others, common)
    {
      assert targets[..k + 1][..k] == targets[..k];
      if targets[k].Some? {
        ghost var before := common;
        common := OneTarget(targets[k].value, i == 0, common, all);
        NextTarget(targets[..k], targets[k], others, before, common);
        i := i + 1;
      } else {
        SkippedTarget(targets[..k], others, common);
      }
      assert targets[..k + 1] == targets[..k] + [targets[k]];
      k := k + 1;
    }
    assert targets[..k] == targets;
    r := Some(common);
  }

  lemma LastOpenedAppend(fs: seq<Named>, f: Named)
    ensures LastOpened(fs + [f]) == if f.Some? then f else LastOpened(fs)
  {
    assert (fs + [f])[..|fs|] == fs;
  }

  lemma {:induction false} NoneOpened(fs: seq<Named>)
    requires LastOpened(fs).None?
    ensures forall k :: 0 <= k < |fs| ==> fs[k].None?
  {
    if fs != [] {
      NoneOpened(fs[..|fs| - 1]);
      forall k | 0 <= k < |fs| ensures fs[k].None? {
        assert k < |fs| - 1 ==> fs[k] == fs[..|fs| - 1][k];
      }
    }
  }

  lemma NextTarget(ts: seq<Named>, f: Named, others: seq<Named>, before: EdgeMap, after: EdgeMap)
    requires f.Some? && IsDiff(ts, others, before)
    requires forall e :: e in after <==> (LastOpened(ts).None? || e in before) && Absent(others, e) && Contains(f, e)
    requires forall e :: e in after ==> LastInfo(f.value, e) == Some(after[e])
    ensures IsDiff(ts + [f], others, after)
  {
    hide Contains, LastInfo, Absent, LastOpened;
    var us := ts + [f];
    LastOpenedAppend(ts, f);
    if LastOpened(ts).None? { NoneOpened(ts); }
    forall e ensures Common(us, e) <==> (LastOpened(ts).None? || Common(ts, e)) && Contains(f, e) {
      assert us[|ts|] == f;
      if Common(us, e) {
        forall k | 0 <= k < |ts| && ts[k].Some? ensures Contains(ts[k], e) { assert us[k] == ts[k]; }
      }
    }
  }

  lemma SkippedTarget(ts: seq<Named>, others: seq<Named>, m: EdgeMap)
    requires IsDiff(ts, others, m)
    ensures IsDiff(ts + [None], others, m)
  {
    hide Contains, LastInfo, Absent, LastOpened;
    LastOpenedAppend(ts, None);
    forall e ensures Common(ts + [None], e) <==> Common(ts, e) {
      if Common(ts + [None], e) {
        forall k | 0 <= k < |ts| && ts[k].Some? ensures Contains(ts[k], e) { assert (ts + [None])[k] == ts[k]; }
      }
    }
  }

  // ---------------------------------------------------------------- sort_edges

  type Sorted = map<Info, Edge>

  /** Some edges are looked up by what was recorded for them. */
  ghost predicate Inverts(m: EdgeMap, s: Sorted) {
    && (forall i :: i in s ==> s[i] in m && m[s[i]] == i)
    && (forall e :: e in m ==> m[e] in s)
  }

  /** Of edges with the same record the last one in the order of edges stays. */
  method SortEdges(common: EdgeMap) returns (sorted: Sorted)
    ensures Inverts(common, sorted)
    ensures forall e :: e in common ==> e == sorted[common[e]] || Follows(e, sorted[common[e]])
  {
    hide Lists, Items, Total;
    ItemsAscend(common);
    var items := Items(EdgeLess, common);
    sorted := map[];
    var k := 0;
    while k < |items|
      invariant k <= |items|
      invariant forall i :: i in sorted ==> sorted[i] in common && common[sorted[i]] == i
      invariant forall j :: 0 <= j < k ==> items[j].1 in sorted
      invariant forall j :: 0 <= j < k ==> items[j].0 == sorted[items[j].1] || Follows(items[j].0, sorted[items[j].1])
    {
      ListsAt(items, common, k);
      sorted := sorted[items[k].1 := items[k].0];
      k := k + 1;
    }
    forall e | e in common
      ensures common[e] in sorted && (e == sorted[common[e]] || Follows(e, sorted[common[e]]))
    {
      var j := ListsFind(items, common, e);
    }
  }

  ghost predicate Distinct(m: EdgeMap) { forall e, f :: e in m && f in m && m[e] == m[f] ==> e == f }

  /** Sorting loses no edge exactly when no two edges carry the same record. */
  lemma SortLosesNothing(m: EdgeMap, s: Sorted)
    requires Inverts(m, s)
    ensures Distinct(m) <==> forall e :: e in m ==> s[m[e]] == e
    ensures Distinct(m) <==> forall e :: e in m ==> exists i :: i in s && s[i] == e
  {
    if Distinct(m) {
      forall e | e in m ensures s[m[e]] == e {}
    }
  }

  /** Edges with different (thread, position) carry different records. */
  lemma UniqueDistinct(m: EdgeMap)
    requires Unique(m)
    ensures Distinct(m)
  {}

  /** Taking the records of one run for some of its edges keeps (thread, position) unique. */
  lemma DiffUnique(targets: seq<Named>, others: seq<Named>, m: EdgeMap, last: EdgeMap)
    requires IsDiff(targets, others, m)
    requires LastOpened(targets).Some? ==> Lists(LastOpened(targets).value, last) && Unique(last)
    ensures Unique(m)
    ensures forall e :: e in m ==> e in last && m[e] == last[e]
  {
    hide LastInfo, LastOpened, Common, Absent;
    forall e | e in m ensures e in last && m[e] == last[e] {
      LastInfoListed(LastOpened(targets).value, last, e);
    }
  }

  // ---------------------------------------------------------------- filter

  /** Edges taken once, with neither end in libc and not leading into the vdso or the loader.
      The three image numbers are found by name in the image table. */
  predicate Kept(libc: int, vdso: int, ld: int, i: Info, e: Edge) {
    i.loops == 1 && e.imgsrc != libc && e.imgdst != libc && e.imgdst != vdso && e.imgdst != ld
  }

  method Filter(sorted: Sorted, libc: int, vdso: int, ld: int) returns (filtered: Sorted)
    ensures filtered == map i | i in sorted && Kept(libc, vdso, ld, i, sorted[i]) :: sorted[i]
  {
    hide Lists, Items, Total;
    InfosTotal();
    var items := Items(InfoLess, sorted);
    filtered := map[];
    var k := 0;
    while k < |items|
      invariant k <= |items|
      invariant forall i :: i in filtered ==> i in sorted && Kept(libc, vdso, ld, i, sorted[i]) && filtered[i] == sorted[i]
      invariant forall j :: 0 <= j < k && Kept(libc, vdso, ld, items[j].0, items[j].1) ==> items[j].0 in filtered
    {
      ListsAt(items, sorted, k);
      if items[k].0.loops == 1 && items[k].1.imgsrc != libc && items[k].1.imgdst != libc
         && items[k].1.imgdst != vdso && items[k].1.imgdst != ld {
        filtered := filtered[items[k].0 := items[k].1];
      }
      k := k + 1;
    }
    forall i | i in sorted && Kept(libc, vdso, ld, i, sorted[i]) ensures i in filtered {
      var j := ListsFind(items, sorted, i);
      assert Kept(libc, vdso, ld, items[j].0, items[j].1);
    }
  }
}
