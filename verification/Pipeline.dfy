/** From traces to packs of edges, end to end: profile every thread, merge, compare the runs, sort,
    filter and cut. What comes out is stated about the traces alone. */
module Pipeline {
  import opened Common
  import opened Options
  import opened Edges
  import opened Images
  import opened OrderedKeys
  import opened Profiler
  import opened Merge
  import opened Differ
  import opened Scanner
  import opened RunFacts

  /** The recorded executions and the library images to be left out. */
  datatype Setup = Setup(targets: seq<Run>, others: seq<Run>, libc: int, vdso: int, ld: int) {
    function Last(): Run
      requires targets != []
    {
      targets[|targets| - 1]
    }
  }

  // ---------------------------------------------------------------- what is wanted

  ghost predicate ThreadTakes(th: Thread, e: Edge) {
    exists i :: 1 <= i < |th.trace| && EdgeAt(th.trace, th.imgs, i) == e
  }

  ghost predicate Takes(run: Run, e: Edge) { exists t :: t in run && ThreadTakes(run[t], e) }

  ghost predicate OnlyAt(th: Thread, p: int) {
    1 <= p < |th.trace| &&
    forall q :: 1 <= q < |th.trace| && EdgeAt(th.trace, th.imgs, q) == EdgeAt(th.trace, th.imgs, p) ==> q == p
  }

  /** Every target run takes e and no other run does. */
  ghost predicate Distinguishes(c: Setup, e: Edge) {
    && (forall k :: 0 <= k < |c.targets| ==> Takes(c.targets[k], e))
    && (forall k :: 0 <= k < |c.others| ==> !Takes(c.others[k], e))
  }

  /** And it is not library code. */
  ghost predicate Telltale(c: Setup, e: Edge) {
    && Distinguishes(c, e)
    && e.imgsrc != c.libc && e.imgdst != c.libc && e.imgdst != c.vdso && e.imgdst != c.ld
  }

  /** Position p of thread t of the last target run tells the feature: its edge is taken nowhere
      else in that thread and by no thread before it, and is a telltale. */
  ghost predicate Tells(c: Setup, t: int, p: int)
    requires c.targets != []
  {
    var last := c.Last();
    t in last && OnlyAt(last[t], p) &&
    var e := EdgeAt(last[t].trace, last[t].imgs, p);
    (forall u :: u in last && u < t ==> !ThreadTakes(last[u], e)) && Telltale(c, e)
  }

  ghost predicate TellsPair(c: Setup, t: int, p: int)
    requires c.targets != []
  {
    Tells(c, t, p) && Tells(c, t, p + 1)
  }

  ghost predicate PackEdge(c: Setup, t: int, a: int, pack: Pack, j: nat)
    requires c.targets != [] && j < |pack|
  {
    Tells(c, t, a + j) && pack[j] == EdgeAt(c.Last()[t].trace, c.Last()[t].imgs, a + j)
  }

  /** A pack is what one thread did from position a on, as far as positions tell the feature. */
  ghost predicate PackAt(c: Setup, t: int, a: int, pack: Pack)
    requires c.targets != []
  {
    && |pack| >= 2
    && (forall j :: 0 <= j < |pack| ==> PackEdge(c, t, a, pack, j))
    && !Tells(c, t, a - 1) && !Tells(c, t, a + |pack|)
  }

  /** p and p + 1 both belong to the pack at a. */
  predicate Within(a: int, pack: Pack, p: int) { a <= p && p + 1 < a + |pack| }

  /** The packs of a thread: in order, at most ten, and any two positions in a row that tell the
      feature are in one pack, or behind all ten. */
  ghost predicate PacksOf(c: Setup, t: int, packs: seq<Pack>, at: seq<int>)
    requires c.targets != []
  {
    && |at| == |packs| <= MAX_EDG_PACK
    && (forall k :: 0 <= k < |at| ==> PackAt(c, t, at[k], packs[k]))
    && (forall k, l :: 0 <= k < l < |at| ==> at[k] + |packs[k]| < at[l])
    && (forall p :: TellsPair(c, t, p) ==>
          || (exists k :: 0 <= k < |at| && Within(at[k], packs[k], p))
          || (|at| == MAX_EDG_PACK && at[MAX_EDG_PACK - 1] + |packs[MAX_EDG_PACK - 1]| < p))
  }

  ghost predicate Answers(c: Setup, packs: Packs)
    requires c.targets != []
  {
    forall t ::
      && (t in packs ==> packs[t] != [] && exists at :: PacksOf(c, t, packs[t], at))
      && (t !in packs ==> forall p :: !TellsPair(c, t, p))
  }

  // ---------------------------------------------------------------- consequences

  /** Every pack is a contiguous walk of one thread's trace in the last target run: each edge
      leads to the block the next one leaves, and occurs exactly once in the trace. */
  lemma PacksAreWalks(c: Setup, packs: Packs, t: int, k: nat) returns (a: int)
    requires c.targets != [] && Answers(c, packs) && t in packs && k < |packs[t]|
    ensures t in c.Last() && 1 <= a && |packs[t][k]| >= 2 && a + |packs[t][k]| <= |c.Last()[t].trace|
    ensures var th := c.Last()[t]; var pack := packs[t][k];
            && (forall j, q :: 0 <= j < |pack| && q == a + j ==> pack[j] == EdgeAt(th.trace, th.imgs, q))
            && (forall j, q :: 0 <= j < |pack| && 1 <= q < |th.trace| && EdgeAt(th.trace, th.imgs, q) == pack[j] ==> q == a + j)
            && (forall j :: 0 <= j < |pack| - 1 ==> pack[j].dst == pack[j + 1].src && pack[j].imgdst == pack[j + 1].imgsrc)
  {
    var at :| PacksOf(c, t, packs[t], at);
    a := at[k];
    var pack := packs[t][k];
    assert PackAt(c, t, a, pack);
    assert PackEdge(c, t, a, pack, 0) && PackEdge(c, t, a, pack, |pack| - 1);
    TellsPlace(c, t, a);
    var th := c.Last()[t];
    forall j, q | 0 <= j < |pack| && q == a + j ensures pack[j] == EdgeAt(th.trace, th.imgs, q) {
      assert PackEdge(c, t, a, pack, j);
    }
    forall j, q | 0 <= j < |pack| && 1 <= q < |th.trace| && EdgeAt(th.trace, th.imgs, q) == pack[j] ensures q == a + j {
      assert PackEdge(c, t, a, pack, j);
    }
    forall j | 0 <= j < |pack| - 1 ensures pack[j].dst == pack[j + 1].src && pack[j].imgdst == pack[j + 1].imgsrc {
      assert PackEdge(c, t, a, pack, j) && PackEdge(c, t, a, pack, j + 1);
    }
  }

  // ---------------------------------------------------------------- one run's profile

  /** out is the profile of the run on disk. */
  ghost predicate BuiltFrom(run: Run, profiles: map<int, Profile>, files: ThreadFiles, m: EdgeMap, out: RunFile) {
    Profiled(run, profiles, files) && IsMerge(files, m) && Lists(out, m)
  }

  ghost predicate Built(run: Run, out: RunFile) {
    exists profiles, files, m :: BuiltFrom(run, profiles, files, m, out)
  }

  /** create_plain for every thread of a run. */
  method ProfileThreads(run: Run) returns (files: ThreadFiles, ghost profiles: map<int, Profile>)
    ensures Profiled(run, profiles, files)
  {
    hide ProfileOf, Total, Increasing, Ascending, IntLess;
    IntsTotal();
    var tids := Ascending(IntLess, run.Keys);
    files, profiles := map[], map[];
    var i := 0;
    while i < |tids|
      invariant i <= |tids| && files.Keys == profiles.Keys <= run.Keys
      invariant forall j :: 0 <= j < i ==> tids[j] in files
      invariant forall t :: t in files ==> ProfileOf(run[t], profiles[t], files[t])
    {
      var t := tids[i];
      assert t in run.Keys;
      var file;
      ghost var profile;
      file, profile := ProfileThread(run[t]);
      files, profiles := files[t := file], profiles[t := profile];
      i := i + 1;
    }
    forall t | t in run.Keys ensures t in files {
      var j := IndexOf(tids, t);
    }
  }

  method ProfileThread(th: Thread) returns (file: ThreadFile, ghost profile: Profile)
    ensures ProfileOf(th, profile, file)
  {
    var edges, f, size := CreatePlain(Some(th.trace), true, th.imgs);
    file, profile := f.value, edges;
  }

  method BuildRun(run: Run) returns (out: RunFile)
    ensures Built(run, out)
  {
    hide Profiled, IsMerge, Lists;
    var files;
    ghost var profiles;
    files, profiles := ProfileThreads(run);
    var m;
    m, out := MergeThreads(files);
    assert BuiltFrom(run, profiles, files, m, out);
  }

  lemma ProfileTakes(th: Thread, m: Profile, e: Edge)
    requires IsProfile(th.trace, th.imgs, m)
    ensures e in m <==> ThreadTakes(th, e)
  {
    if e in m { assert Right(th.trace, th.imgs, |th.trace|, e, m[e]); }
  }

  lemma MergeTakes(run: Run, profiles: map<int, Profile>, files: ThreadFiles, m: EdgeMap, e: Edge)
    requires Profiled(run, profiles, files) && IsMerge(files, m)
    ensures e in m <==> Takes(run, e)
  {
    hide IsProfile, ThreadTakes, IsMerge, Lists;
    if e in m {
      MergedMeans(run, profiles, files, m, e);
      ProfileTakes(run[m[e].tid], profiles[m[e].tid], e);
    }
    if Takes(run, e) {
      var t :| t in run && ThreadTakes(run[t], e);
      ProfileTakes(run[t], profiles[t], e);
      MergedAll(run, profiles, files, m, t, e);
    }
  }

  /** A run's file contains an edge exactly when the run took it. */
  lemma BuiltTakes(run: Run, out: RunFile, e: Edge)
    requires Built(run, out)
    ensures Contains(Some(out), e) <==> Takes(run, e)
  {
    hide Takes, IsMerge, Profiled;
    var profiles, files, m :| BuiltFrom(run, profiles, files, m, out);
    MergeTakes(run, profiles, files, m, e);
  }

  lemma {:induction false} OnceCounted(trace: seq<Loc>, imgs: Table, e: Edge, p: nat, n: nat)
    requires 1 <= p < |trace| && n <= |trace| && EdgeAt(trace, imgs, p) == e
    requires forall q :: 1 <= q < |trace| && EdgeAt(trace, imgs, q) == e ==> q == p
    ensures Occurrences(trace, imgs, e, n) == if p < n then 1 else 0
  {
    hide EdgeAt;
    if n > 1 {
      OnceCounted(trace, imgs, e, p, n - 1);
    }
  }

  /** A profile entry counts 1 exactly when its position is the only one with its edge. */
  lemma CountOneIff(th: Thread, m: Profile, e: Edge)
    requires IsProfile(th.trace, th.imgs, m) && e in m
    ensures 1 <= m[e].pos < |th.trace| && EdgeAt(th.trace, th.imgs, m[e].pos) == e
    ensures m[e].count == 1 <==> OnlyAt(th, m[e].pos)
  {
    assert Right(th.trace, th.imgs, |th.trace|, e, m[e]);
    if m[e].count == 1 {
      forall q | 1 <= q < |th.trace| && EdgeAt(th.trace, th.imgs, q) == e ensures q == m[e].pos {
        CountOneIsOnly(th.trace, th.imgs, m, e, q);
      }
    }
    if OnlyAt(th, m[e].pos) {
      OnceCounted(th.trace, th.imgs, e, m[e].pos, |th.trace|);
    }
  }

  /** What the merged map records for an edge taken once in its first thread. */
  ghost predicate RecordedOnce(run: Run, m: EdgeMap, e: Edge) {
    && e in m && m[e].tid in run && OnlyAt(run[m[e].tid], m[e].pos)
    && EdgeAt(run[m[e].tid].trace, run[m[e].tid].imgs, m[e].pos) == e
    && forall u :: u in run && u < m[e].tid ==> !ThreadTakes(run[u], e)
  }

  lemma MergedOnce(run: Run, profiles: map<int, Profile>, files: ThreadFiles, m: EdgeMap, e: Edge)
    requires Profiled(run, profiles, files) && IsMerge(files, m) && e in m
    ensures m[e].loops == 1 <==> RecordedOnce(run, m, e)
  {
    hide IsProfile, ThreadTakes, IsMerge, Lists, OnlyAt, EdgeAt;
    MergedMeans(run, profiles, files, m, e);
    var t := m[e].tid;
    CountOneIff(run[t], profiles[t], e);
    forall u | u in run && u < t ensures !ThreadTakes(run[u], e) {
      ProfileTakes(run[u], profiles[u], e);
    }
  }

  /** A position that is the only one with its edge, in the first thread that takes it, is what
      the merged map records. */
  lemma OnceMerged(run: Run, profiles: map<int, Profile>, files: ThreadFiles, m: EdgeMap, t: int, p: int)
    requires Profiled(run, profiles, files) && IsMerge(files, m)
    requires t in run && OnlyAt(run[t], p)
    requires forall u :: u in run && u < t ==> !ThreadTakes(run[u], EdgeAt(run[t].trace, run[t].imgs, p))
    ensures var e := EdgeAt(run[t].trace, run[t].imgs, p); e in m && m[e] == Info(t, 1, p)
  {
    hide IsProfile, ThreadTakes, IsMerge, Lists;
    var e := EdgeAt(run[t].trace, run[t].imgs, p);
    ThereTaken(run[t], p);
    ProfileTakes(run[t], profiles[t], e);
    MergedAll(run, profiles, files, m, t, e);
    MergedMeans(run, profiles, files, m, e);
    var u := m[e].tid;
    ProfileTakes(run[u], profiles[u], e);
    assert u == t;
    CountOneIff(run[t], profiles[t], e);
  }

  lemma ThereTaken(th: Thread, p: int)
    requires 1 <= p < |th.trace|
    ensures ThreadTakes(th, EdgeAt(th.trace, th.imgs, p))
  {}

  // ---------------------------------------------------------------- the sorted, filtered edges

  ghost predicate AllBuilt(runs: seq<Run>, files: seq<Named>) {
    |files| == |runs| && forall k :: 0 <= k < |runs| ==> files[k].Some? && Built(runs[k], files[k].value)
  }

  /** What the stages between the profiles and the scan leave. */
  ghost predicate Prepared(c: Setup, last: EdgeMap, common: EdgeMap, sorted: Sorted, filtered: Sorted)
    requires c.targets != []
  {
    && (forall e :: e in common <==> Distinguishes(c, e))
    && (forall e :: e in common ==> e in last && common[e] == last[e])
    && Unique(common)
    && Inverts(common, sorted)
    && filtered == map i | i in sorted && Kept(c.libc, c.vdso, c.ld, i, sorted[i]) :: sorted[i]
  }

  lemma DiffMeans(c: Setup, targets: seq<Named>, others: seq<Named>, common: EdgeMap, e: Edge)
    requires AllBuilt(c.targets, targets) && AllBuilt(c.others, others) && targets != []
    requires IsDiff(targets, others, common)
    ensures e in common <==> Distinguishes(c, e)
    ensures LastOpened(targets) == targets[|targets| - 1]
  {
    hide Takes, Built, LastInfo, Contains;
    forall k | 0 <= k < |targets| ensures Contains(targets[k], e) <==> Takes(c.targets[k], e) {
      BuiltTakes(c.targets[k], targets[k].value, e);
    }
    forall k | 0 <= k < |others| ensures Contains(others[k], e) <==> Takes(c.others[k], e) {
      BuiltTakes(c.others[k], others[k].value, e);
    }
  }

  /** An entry of the filtered map tells the feature, and every telling position has its entry. */
  lemma EntryTells(c: Setup, profiles: map<int, Profile>, files: ThreadFiles, last: EdgeMap,
                   common: EdgeMap, sorted: Sorted, filtered: Sorted, i: Info)
    requires c.targets != [] && Profiled(c.Last(), profiles, files) && IsMerge(files, last)
    requires Prepared(c, last, common, sorted, filtered) && i in filtered
    ensures i.loops == 1 && Tells(c, i.tid, i.pos)
    ensures filtered[i] == EdgeAt(c.Last()[i.tid].trace, c.Last()[i.tid].imgs, i.pos)
  {
    hide Takes, ThreadTakes, OnlyAt, EdgeAt, Unique, IsMerge, Profiled;
    var e := sorted[i];
    assert i in sorted && e in common && last[e] == i;
    MergedOnce(c.Last(), profiles, files, last, e);
  }

  lemma TellsEntry(c: Setup, profiles: map<int, Profile>, files: ThreadFiles, last: EdgeMap,
                   common: EdgeMap, sorted: Sorted, filtered: Sorted, t: int, p: int)
    requires c.targets != [] && Profiled(c.Last(), profiles, files) && IsMerge(files, last)
    requires Prepared(c, last, common, sorted, filtered) && Tells(c, t, p)
    ensures p >= 0 && Info(t, 1, p) in filtered
  {
    hide Takes, ThreadTakes, EdgeAt, IsMerge, Profiled;
    var run := c.Last();
    var e := EdgeAt(run[t].trace, run[t].imgs, p);
    OnceMerged(run, profiles, files, last, t, p);
    assert e in common && common[e] == Info(t, 1, p);
    UniqueDistinct(common);
    SortLosesNothing(common, sorted);
    assert sorted[Info(t, 1, p)] == e;
  }

  /** The stages after the profiles, in order. */
  method Prepare(c: Setup, targets: seq<Named>, others: seq<Named>, ghost last: EdgeMap)
    returns (filtered: Sorted, ghost common: EdgeMap, ghost sorted: Sorted)
    requires c.targets != [] && AllBuilt(c.targets, targets) && AllBuilt(c.others, others)
    requires Lists(targets[|targets| - 1].value, last) && Unique(last)
    ensures Prepared(c, last, common, sorted, filtered)
  {
    hide Takes, Built, LastInfo, Contains, IsDiff, Unique, Lists, Inverts;
    var r := DiffEdges(targets, others);
    common := r.value;
    forall e ensures e in common <==> Distinguishes(c, e) {
      DiffMeans(c, targets, others, common, e);
    }
    DiffMeans(c, targets, others, common, Edge(0, 0, 0, 0));
    DiffUnique(targets, others, common, last);
    var s := SortEdges(r.value);
    sorted := s;
    filtered := Filter(s, c.libc, c.vdso, c.ld);
  }

  // ---------------------------------------------------------------- the scan's answer

  ghost predicate EntryIs(c: Setup, x: Entry)
    requires c.targets != []
  {
    && x.0.loops == 1 && Tells(c, x.0.tid, x.0.pos)
    && x.1 == EdgeAt(c.Last()[x.0.tid].trace, c.Last()[x.0.tid].imgs, x.0.pos)
  }

  /** The entries are exactly the positions that tell the feature. */
  ghost predicate Exact(c: Setup, es: seq<Entry>)
    requires c.targets != []
  {
    && (forall x :: x in es ==> EntryIs(c, x))
    && (forall t, p :: Tells(c, t, p) ==> exists x :: x in es && x.0.tid == t && x.0.pos == p)
    && Ranked(es)
  }

  lemma EntriesExact(c: Setup, profiles: map<int, Profile>, files: ThreadFiles, last: EdgeMap,
                     common: EdgeMap, sorted: Sorted, filtered: Sorted)
    requires c.targets != [] && Profiled(c.Last(), profiles, files) && IsMerge(files, last)
    requires Prepared(c, last, common, sorted, filtered) && Total(InfoLess)
    ensures Exact(c, Items(InfoLess, filtered))
  {
    hide Tells, EdgeAt, IsMerge, Profiled, Prepared, Items, Total, Lists;
    var es := Items(InfoLess, filtered);
    forall x | x in es ensures EntryIs(c, x) {
      var k :| 0 <= k < |es| && es[k] == x;
      ListsAt(es, filtered, k);
      EntryTells(c, profiles, files, last, common, sorted, filtered, x.0);
      TellsPlace(c, x.0.tid, x.0.pos);
    }
    forall t, p | Tells(c, t, p) ensures exists x :: x in es && x.0.tid == t && x.0.pos == p {
      TellsEntry(c, profiles, files, last, common, sorted, filtered, t, p);
      var k := ListsFind(es, filtered, Info(t, 1, p));
      assert es[k] in es;
    }
    forall i, j | 0 <= i < j < |es|
      ensures es[i].0.tid < es[j].0.tid || (es[i].0.tid == es[j].0.tid && es[i].0.pos < es[j].0.pos)
    {
      ItemsIncrease(InfoLess, filtered, i, j);
      assert es[i] in es && es[j] in es;
    }
  }

  ghost predicate TellsTrace(c: Setup, t: int, p: int)
    requires c.targets != []
  {
    t in c.Last() && 1 <= p < |c.Last()[t].trace|
  }

  lemma TellsPlace(c: Setup, t: int, p: int)
    requires c.targets != [] && Tells(c, t, p)
    ensures TellsTrace(c, t, p)
  {}

  lemma PositionsTell(c: Setup, es: seq<Entry>, t: int, p: int)
    requires c.targets != [] && Exact(c, es)
    ensures HasPos(Of(es, t), p) <==> Tells(c, t, p)
  {
    hide Tells;
    var s := Of(es, t);
    if HasPos(s, p) {
      var k :| 0 <= k < |s| && s[k].0.pos == p;
      OfMembers(es, t, s[k]);
    }
    if Tells(c, t, p) {
      var x :| x in es && x.0.tid == t && x.0.pos == p;
      OfMembers(es, t, x);
      var k :| 0 <= k < |s| && s[k] == x;
    }
  }

  lemma WholeIsPack(c: Setup, es: seq<Entry>, t: int, r: seq<Entry>)
    requires c.targets != [] && Exact(c, es) && |r| > 1 && WholeRun(Of(es, t), r)
    ensures PackAt(c, t, r[0].0.pos, Strip(r))
  {
    hide Tells, HasPos, EdgeAt;
    var a := r[0].0.pos;
    PositionsTell(c, es, t, a - 1);
    PositionsTell(c, es, t, a + |r|);
    forall j | 0 <= j < |r| ensures PackEdge(c, t, a, Strip(r), j) {
      OfMembers(es, t, r[j]);
      TellsPlace(c, t, a + j);
    }
  }

  /** The places of the reported packs. */
  ghost function Places(rep: seq<seq<Entry>>): (at: seq<int>)
    requires forall k :: 0 <= k < |rep| ==> |rep[k]| > 1
    ensures |at| == |rep| && forall k :: 0 <= k < |rep| ==> at[k] == rep[k][0].0.pos
  {
    seq(|rep|, k requires 0 <= k < |rep| => rep[k][0].0.pos)
  }

  lemma ThreadAnswer(c: Setup, es: seq<Entry>, t: int) returns (at: seq<int>)
    requires c.targets != [] && Exact(c, es)
    ensures PacksOf(c, t, PackList(Of(es, t)), at)
  {
    hide Tells, Of, Runs, Long, WholeRun, PackAt, HasPos;
    var s := Of(es, t);
    var rep, packs := Reported(s), PackList(s);
    OfByPosition(es, t);
    ReportedFacts(s);
    at := Places(rep);
    forall k | 0 <= k < |rep| ensures PackAt(c, t, at[k], packs[k]) {
      WholeIsPack(c, es, t, rep[k]);
    }
    forall k, l | 0 <= k < l < |at| ensures at[k] + |packs[k]| < at[l] {
      assert Before(rep[k], rep[l]);
    }
    forall p | TellsPair(c, t, p)
      ensures || (exists k :: 0 <= k < |at| && Within(at[k], packs[k], p))
              || (|at| == MAX_EDG_PACK && at[MAX_EDG_PACK - 1] + |packs[MAX_EDG_PACK - 1]| < p)
    {
      PositionsTell(c, es, t, p);
      PositionsTell(c, es, t, p + 1);
      assert Accounted(rep, p);
      if k :| 0 <= k < |rep| && Covers(rep[k], p) && Covers(rep[k], p + 1) {
        assert Within(at[k], packs[k], p);
      }
    }
  }

  lemma ScanAnswers(c: Setup, es: seq<Entry>, packs: Packs)
    requires c.targets != [] && Exact(c, es) && IsScan(es, packs)
    ensures Answers(c, packs)
  {
    hide Tells, Exact, PackList;
    forall t
      ensures t in packs ==> packs[t] != [] && exists at :: PacksOf(c, t, packs[t], at)
      ensures t !in packs ==> forall p :: !TellsPair(c, t, p)
    {
      var at := ThreadAnswer(c, es, t);
    }
  }

  // ---------------------------------------------------------------- the whole pipeline

  method BuildAll(runs: seq<Run>) returns (files: seq<Named>)
    ensures AllBuilt(runs, files)
  {
    hide Built;
    files := [];
    var k := 0;
    while k < |runs|
      invariant k == |files| <= |runs|
      invariant forall j :: 0 <= j < k ==> files[j].Some? && Built(runs[j], files[j].value)
    {
      var out := BuildRun(runs[k]);
      files := files + [Some(out)];
      k := k + 1;
    }
  }

  /** For all traces of all runs: the packs returned are exactly what the traces tell. Threads are
      numbered from 0, as the merge step numbers them. */
  method Identify(c: Setup) returns (packs: Packs)
    requires c.targets != []
    requires forall t :: t in c.Last() ==> t >= 0
    ensures Answers(c, packs)
  {
    hide Built, Lists, Tells, IsMerge, Profiled, IsScan, Answers, Prepared, Exact, Total, Items;
    var targets := BuildAll(c.targets);
    var others := BuildAll(c.others);
    ghost var profiles, files, last := LastBuilt(c.Last(), targets[|targets| - 1].value);
    MergeUnique(c.Last(), profiles, files, last);
    var filtered;
    ghost var common, sorted;
    filtered, common, sorted := Prepare(c, targets, others, last);
    forall i | i in filtered ensures i.tid >= 0 {
      EntryTells(c, profiles, files, last, common, sorted, filtered, i);
      TellsPlace(c, i.tid, i.pos);
    }
    packs := GetConsequentEdges(filtered);
    EntriesExact(c, profiles, files, last, common, sorted, filtered);
    ScanAnswers(c, Items(InfoLess, filtered), packs);
  }

  lemma LastBuilt(run: Run, out: RunFile) returns (profiles: map<int, Profile>, files: ThreadFiles, m: EdgeMap)
    requires Built(run, out)
    ensures Profiled(run, profiles, files) && IsMerge(files, m) && Lists(out, m)
  {
    profiles, files, m :| BuiltFrom(run, profiles, files, m, out);
  }
}
