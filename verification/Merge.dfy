/** Merging the threads of one execution (identification/tools/merge.cpp): the first thread that
    took an edge decides what is recorded for it. */
module Merge {
  import opened Common
  import opened Options
  import opened Edges
  import opened Images
  import opened OrderedKeys
  import opened Profiler

  type ThreadFiles = map<int, ThreadFile>

  type EdgeMap = map<Edge, Info>

  /** A profile on disk, as the map walk writes it. */
  type RunFile = seq<(Edge, Info)>

  /** The first record of an edge in a thread's file. */
  function Find(file: ThreadFile, e: Edge): Option<Stat> {
    if file == [] then None
    else if file[0].0 == e then Some(file[0].1)
    else Find(file[1..], e)
  }

  /** m records thread t's view of e, and no thread before t took e. */
  ghost predicate FirstThread(files: ThreadFiles, e: Edge, i: Info) {
    && i.tid in files && Find(files[i.tid], e) == Some(Stat(i.pos, i.loops))
    && forall t :: t in files && t < i.tid ==> Find(files[t], e) == None
  }

  ghost predicate IsMerge(files: ThreadFiles, m: EdgeMap) {
    && (forall e :: e in m ==> FirstThread(files, e, m[e]))
    && (forall e, t :: t in files && Find(files[t], e).Some? ==> e in m)
  }

  /** What one thread adds: its first records of the edges that are not there yet. */
  ghost predicate Adds(before: EdgeMap, t: int, file: ThreadFile, n: nat, m: EdgeMap)
    requires n <= |file|
  {
    && (forall e :: e in before ==> e in m && m[e] == before[e])
    && (forall e :: e in m && e !in before ==>
          Find(file[..n], e) == Some(Stat(m[e].pos, m[e].loops)) && m[e].tid == t)
    && (forall e :: Find(file[..n], e).Some? ==> e in m)
  }

  lemma {:induction false} FindAppend(a: ThreadFile, r: (Edge, Stat), e: Edge)
    ensures Find(a + [r], e) == if Find(a, e).Some? then Find(a, e) else if r.0 == e then Some(r.1) else None
  {
    if a == [] {
      assert a + [r] == [r] && [r][1..] == [];
    } else {
      assert (a + [r])[1..] == a[1..] + [r];
      FindAppend(a[1..], r, e);
    }
  }

  /** The records of one thread file. */
  method MergeThread(before: EdgeMap, t: int, file: ThreadFile) returns (m: EdgeMap)
    ensures Adds(before, t, file, |file|, m)
  {
    hide Find;
    m := before;
    var k := 0;
    assert file[..0] == [];
    EmptyFile();
    while k < |file|
      invariant k <= |file| && Adds(before, t, file, k, m)
    {
      var (e, value) := file[k];
      ghost var was := m;
      assert file[..k + 1] == file[..k] + [file[k]];
      forall f ensures Find(file[..k + 1], f)
        == if Find(file[..k], f).Some? then Find(file[..k], f) else if e == f then Some(value) else None
      {
        FindAppend(file[..k], file[k], f);
      }
      if e !in m {
        m := m[e := Info(t, value.count, value.pos)];
      }
      k := k + 1;
    }
  }

  lemma EmptyFile()
    ensures forall e :: Find([], e) == None
  {}

  /** The merge loop over the threads in ascending order, and the profile it writes. */
  method MergeThreads(files: ThreadFiles) returns (edges: EdgeMap, out: RunFile)
    ensures IsMerge(files, edges)
    ensures Lists(out, edges) && Ascend(out)
  {
    hide Find;
    IntsTotal();
    var tids := Ascending(IntLess, files.Keys);
    edges := map[];
    var i := 0;
    while i < |tids|
      invariant i <= |tids| && MergedUpTo(files, tids, i, edges)
    {
      var t := tids[i];
      ghost var before := edges;
      edges := MergeThread(edges, t, files[t]);
      NextThread(files, tids, i, before, edges);
      i := i + 1;
    }
    AllMerged(files, tids, edges);
    EdgesTotal();
    out := Items(EdgeLess, edges);
    ItemsAscend(edges);
  }

  ghost predicate MergedUpTo(files: ThreadFiles, tids: seq<int>, n: nat, m: EdgeMap)
    requires n <= |tids| && (forall t :: t in tids ==> t in files)
  {
    && (forall e :: e in m ==> FirstThread(files, e, m[e]))
    && (forall e :: e in m ==> exists i :: 0 <= i < n && tids[i] == m[e].tid)
    && (forall e, i :: 0 <= i < n && tids[i] in files && Find(files[tids[i]], e).Some? ==> e in m)
  }

  lemma NextThread(files: ThreadFiles, tids: seq<int>, n: nat, before: EdgeMap, after: EdgeMap)
    requires Increasing(IntLess, tids) && n < |tids| && (forall t :: t in tids <==> t in files)
    requires MergedUpTo(files, tids, n, before)
    requires Adds(before, tids[n], files[tids[n]], |files[tids[n]]|, after)
    ensures MergedUpTo(files, tids, n + 1, after)
  {
    hide Find;
    var t, file := tids[n], files[tids[n]];
    assert file[..|file|] == file;
    forall e | e in after
      ensures FirstThread(files, e, after[e]) && exists i :: 0 <= i < n + 1 && tids[i] == after[e].tid
    {
      if e in before {
        var i :| 0 <= i < n && tids[i] == before[e].tid;
      } else {
        assert tids[n] == after[e].tid;
        forall u | u in files && u < t ensures Find(files[u], e) == None {
          var j :| 0 <= j < |tids| && tids[j] == u;
        }
      }
    }
  }

  lemma AllMerged(files: ThreadFiles, tids: seq<int>, m: EdgeMap)
    requires forall t :: t in tids <==> t in files
    requires MergedUpTo(files, tids, |tids|, m)
    ensures IsMerge(files, m)
  {
    forall e, t | t in files && Find(files[t], e).Some? ensures e in m {
      assert t in tids;
      var i :| 0 <= i < |tids| && tids[i] == t;
    }
  }

  // ---------------------------------------------------------------- positions stay unique

  /** Thread and position tell the edges of a run apart. */
  ghost predicate Unique(m: EdgeMap) {
    forall e, f :: e in m && f in m && m[e].tid == m[f].tid && m[e].pos == m[f].pos ==> e == f
  }

  lemma {:induction false} FindIn(file: ThreadFile, p: Profile, e: Edge)
    requires forall i :: 0 <= i < |file| ==> file[i].0 in p && file[i].1 == p[file[i].0]
    ensures Find(file, e).Some? <==> exists i :: 0 <= i < |file| && file[i].0 == e
    ensures Find(file, e).Some? ==> e in p && Find(file, e) == Some(p[e])
  {
    if file != [] && file[0].0 != e {
      FindIn(file[1..], p, e);
      if i :| 0 <= i < |file| && file[i].0 == e {
        assert file[1..][i - 1].0 == e;
      }
      if i :| 0 <= i < |file[1..]| && file[1..][i].0 == e {
        assert file[i + 1].0 == e;
      }
    }
  }

  lemma FindListed(file: ThreadFile, p: Profile, e: Edge)
    requires Lists(file, p)
    ensures Find(file, e) == if e in p then Some(p[e]) else None
  {
    FindIn(file, p, e);
  }

  /** One recorded execution: the traces of its threads and the image numbers each uses. */
  datatype Thread = Thread(trace: seq<Loc>, imgs: Table)

  type Run = map<int, Thread>

  /** files holds the profile of every thread of the run. */
  ghost predicate Profiled(run: Run, profiles: map<int, Profile>, files: ThreadFiles) {
    && run.Keys == profiles.Keys == files.Keys
    && forall t :: t in run ==> ProfileOf(run[t], profiles[t], files[t])
  }

  ghost predicate ProfileOf(th: Thread, profile: Profile, file: ThreadFile) {
    IsProfile(th.trace, th.imgs, profile) && Lists(file, profile)
  }

  /** What the merged map says about an edge, in terms of the traces. */
  lemma MergedMeans(run: Run, profiles: map<int, Profile>, files: ThreadFiles, m: EdgeMap, e: Edge)
    requires Profiled(run, profiles, files) && IsMerge(files, m) && e in m
    ensures m[e].tid in run && e in profiles[m[e].tid]
    ensures profiles[m[e].tid][e] == Stat(m[e].pos, m[e].loops)
    ensures forall t :: t in run && t < m[e].tid ==> e !in profiles[t]
  {
    hide Find, IsProfile;
    FindListed(files[m[e].tid], profiles[m[e].tid], e);
    forall t | t in run && t < m[e].tid ensures e !in profiles[t] {
      FindListed(files[t], profiles[t], e);
    }
  }

  /** Merging keeps (thread, position) unique. */
  lemma MergeUnique(run: Run, profiles: map<int, Profile>, files: ThreadFiles, m: EdgeMap)
    requires Profiled(run, profiles, files) && IsMerge(files, m)
    ensures Unique(m)
  {
    hide Find, IsProfile;
    forall e, f | e in m && f in m && m[e].tid == m[f].tid && m[e].pos == m[f].pos ensures e == f {
      MergedMeans(run, profiles, files, m, e);
      MergedMeans(run, profiles, files, m, f);
      var t := m[e].tid;
      PositionsDistinct(run[t].trace, run[t].imgs, profiles[t], e, f);
    }
  }

  /** Every edge some thread took is in the merged map. */
  lemma MergedAll(run: Run, profiles: map<int, Profile>, files: ThreadFiles, m: EdgeMap, t: int, e: Edge)
    requires Profiled(run, profiles, files) && IsMerge(files, m) && t in run && e in profiles[t]
    ensures e in m
  {
    FindListed(files[t], profiles[t], e);
  }
}
