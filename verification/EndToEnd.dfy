/** The pipeline after any schedule of the profiler's workers: what it reports, in terms of the
    recorded traces, with images told apart by name and hash and not by number. */
module EndToEnd {
  import opened Common
  import opened Options
  import opened Edges
  import opened Images
  import opened ImageRegistry
  import opened Profiler
  import opened Merge
  import opened Scanner
  import opened Pipeline
  import W = Workers

  /** Which recorded trace each thread of each run is, and the library files to be left out. */
  datatype Plan = Plan(targets: seq<map<int, nat>>, others: seq<map<int, nat>>, libc: Option<Image>, vdso: Option<Image>, ld: Option<Image>)

  // ---------------------------------------------------------------- in terms of files

  ghost predicate Known(tr: W.Trace) { forall p :: 0 <= p < |tr.blocks| ==> tr.blocks[p].imgno in tr.imgs }

  /** The file of the block at p. */
  function FileAt(tr: W.Trace, p: nat): Image
    requires p < |tr.blocks| && tr.blocks[p].imgno in tr.imgs
  {
    tr.imgs[tr.blocks[p].imgno]
  }

  /** Position q of b leads between the same addresses of the same files as position p of a. */
  ghost predicate SameStep(a: W.Trace, p: int, b: W.Trace, q: int)
    requires Known(a) && Known(b)
  {
    && 1 <= p < |a.blocks| && 1 <= q < |b.blocks|
    && W.SameBlock(a, p - 1, b, q - 1) && W.SameBlock(a, p, b, q)
  }

  ghost predicate Does(b: W.Trace, a: W.Trace, p: int)
    requires Known(a) && Known(b)
  {
    exists q :: SameStep(a, p, b, q)
  }

  ghost predicate AllKnown(traces: seq<W.Trace>, run: map<int, nat>) {
    forall t :: t in run ==> run[t] < |traces| && Known(traces[run[t]])
  }

  /** Some thread of the run does what trace a does at p. */
  ghost predicate RunDoes(traces: seq<W.Trace>, run: map<int, nat>, a: W.Trace, p: int)
    requires AllKnown(traces, run) && Known(a)
  {
    exists t :: t in run && Does(traces[run[t]], a, p)
  }

  ghost predicate IsFile(img: Image, file: Option<Image>) { file.Some? && SameFile(img, file.value) }

  /** Neither end is in libc, and it does not lead into the vdso or the loader. */
  ghost predicate OwnCode(plan: Plan, a: W.Trace, p: int)
    requires Known(a) && 1 <= p < |a.blocks|
  {
    && !IsFile(FileAt(a, p - 1), plan.libc) && !IsFile(FileAt(a, p), plan.libc)
    && !IsFile(FileAt(a, p), plan.vdso) && !IsFile(FileAt(a, p), plan.ld)
  }

  ghost predicate PlanOk(traces: seq<W.Trace>, plan: Plan) {
    && plan.targets != []
    && (forall k :: 0 <= k < |plan.targets| ==> AllKnown(traces, plan.targets[k]))
    && (forall k :: 0 <= k < |plan.others| ==> AllKnown(traces, plan.others[k]))
  }

  function LastOf(plan: Plan): map<int, nat>
    requires plan.targets != []
  {
    plan.targets[|plan.targets| - 1]
  }

  /** Position p of thread t of the last target run tells the feature: what happens there happens
      nowhere else in that thread and in no thread before it, in every target run and in no other
      run, and outside the libraries. */
  ghost predicate TellsCode(traces: seq<W.Trace>, plan: Plan, t: int, p: int)
    requires PlanOk(traces, plan)
  {
    var last := LastOf(plan);
    t in last &&
    var a := traces[last[t]];
    && 1 <= p < |a.blocks|
    && (forall q :: SameStep(a, p, a, q) ==> q == p)
    && (forall u :: u in last && u < t ==> !Does(traces[last[u]], a, p))
    && (forall k :: 0 <= k < |plan.targets| ==> RunDoes(traces, plan.targets[k], a, p))
    && (forall k :: 0 <= k < |plan.others| ==> !RunDoes(traces, plan.others[k], a, p))
    && OwnCode(plan, a, p)
  }

  // ---------------------------------------------------------------- the pipeline's input

  /** The workers' final state gives the pipeline each trace's blocks and renumbered images. */
  function RunOf(s: W.State, run: map<int, nat>): Run {
    map t | t in run && run[t] < |s.traces| :: Thread(s.traces[run[t]].blocks, s.traces[run[t]].imgs)
  }

  function RunsOf(s: W.State, runs: seq<map<int, nat>>): (r: seq<Run>)
    ensures |r| == |runs|
  {
    seq(|runs|, k requires 0 <= k < |runs| => RunOf(s, runs[k]))
  }

  /** Number n stands for the file in the table: it is registered under n, or n and the file are
      both unknown (no such library was found). */
  ghost predicate StandsFor(table: Table, n: int, file: Option<Image>) {
    if n in table then IsFile(table[n], file) else forall k :: k in table ==> !IsFile(table[k], file)
  }

  /** The setup of the pipeline after the workers ended. */
  ghost predicate SetupFrom(s: W.State, program: string, plan: Plan, c: Setup) {
    && c.targets == RunsOf(s, plan.targets) && c.others == RunsOf(s, plan.others)
    && program in s.registry
    && StandsFor(s.registry[program], c.libc, plan.libc)
    && StandsFor(s.registry[program], c.vdso, plan.vdso)
    && StandsFor(s.registry[program], c.ld, plan.ld)
  }

  /** The runs are recordings of one program, and their traces were renumbered. */
  ghost predicate Recorded(start: W.State, s: W.State, program: string, run: map<int, nat>) {
    |s.traces| == |s.history| == |start.traces|
    && forall t :: t in run ==>
         run[t] < |start.traces| && start.traces[run[t]].program == program && s.history[run[t]].remaps != []
  }

  /** A finished profiler: a schedule led from a start to s, and the plan's traces are profiled. */
  ghost predicate After(start: W.State, schedule: seq<nat>, s: W.State, program: string, plan: Plan) {
    && W.Start(start) && W.Leads(start, schedule, s) && PlanOk(start.traces, plan)
    && (forall k :: 0 <= k < |plan.targets| ==> Recorded(start, s, program, plan.targets[k]))
    && (forall k :: 0 <= k < |plan.others| ==> Recorded(start, s, program, plan.others[k]))
  }

  /** When all workers have ended, every trace is. */
  lemma FinishedRecorded(start: W.State, schedule: seq<nat>, s: W.State, program: string, run: map<int, nat>)
    requires W.Start(start) && W.Leads(start, schedule, s) && |start.workers| > 0
    requires forall w :: 0 <= w < |s.workers| ==> W.Finished(s, w)
    requires forall t :: t in run ==> run[t] < |start.traces| && start.traces[run[t]].program == program
    ensures Recorded(start, s, program, run)
  {
    hide W.Start, W.Leads, W.Finished;
    W.AllProfiled(start, schedule, s);
    forall t | t in run ensures s.history[run[t]].remaps != [] {
      W.ExactlyOnce(start, schedule, s, run[t]);
    }
  }

  // ---------------------------------------------------------------- numbers stand for files

  lemma StepsAgree(start: W.State, schedule: seq<nat>, s: W.State, program: string, i: nat, p: int, j: nat, q: int)
    requires W.Start(start) && W.Leads(start, schedule, s) && i < |start.traces| && j < |start.traces|
    requires |s.traces| == |s.history| == |start.traces| && s.history[i].remaps != [] && s.history[j].remaps != []
    requires start.traces[i].program == program == start.traces[j].program
    requires Known(start.traces[i]) && Known(start.traces[j])
    requires 1 <= p < |start.traces[i].blocks| && 1 <= q < |start.traces[j].blocks|
    ensures EdgeAt(start.traces[i].blocks, s.traces[i].imgs, p) == EdgeAt(start.traces[j].blocks, s.traces[j].imgs, q)
         <==> SameStep(start.traces[i], p, start.traces[j], q)
  {
    hide W.Start, W.Leads, EdgeAt, W.SameBlock;
    W.SameEdgeIffSameCode(start, schedule, s, i, p, j, q);
  }

  lemma BlocksKept(start: W.State, schedule: seq<nat>, s: W.State, i: nat)
    requires W.Start(start) && W.Leads(start, schedule, s) && i < |start.traces|
    ensures |s.traces| == |start.traces| && s.traces[i].blocks == start.traces[i].blocks
  {
    hide W.Start, W.Leads, W.Remade, RegistryOk;
    W.RemadeAfter(start, schedule, s, i);
  }

  lemma TakesIffDoes(start: W.State, schedule: seq<nat>, s: W.State, program: string, i: nat, p: int, j: nat)
    requires W.Start(start) && W.Leads(start, schedule, s) && i < |start.traces| && j < |start.traces|
    requires |s.traces| == |s.history| == |start.traces| && s.history[i].remaps != [] && s.history[j].remaps != []
    requires start.traces[i].program == program == start.traces[j].program
    requires Known(start.traces[i]) && Known(start.traces[j]) && 1 <= p < |start.traces[i].blocks|
    ensures ThreadTakes(Thread(start.traces[j].blocks, s.traces[j].imgs), EdgeAt(start.traces[i].blocks, s.traces[i].imgs, p))
         <==> Does(start.traces[j], start.traces[i], p)
  {
    hide W.Start, W.Leads, EdgeAt, SameStep, Known;
    var a, b, e := start.traces[i], start.traces[j], EdgeAt(start.traces[i].blocks, s.traces[i].imgs, p);
    if q :| 1 <= q < |b.blocks| && EdgeAt(b.blocks, s.traces[j].imgs, q) == e {
      StepsAgree(start, schedule, s, program, i, p, j, q);
      assert SameStep(a, p, b, q);
    }
    if q :| SameStep(a, p, b, q) {
      StepIn(a, p, b, q);
      StepsAgree(start, schedule, s, program, i, p, j, q);
      assert EdgeAt(b.blocks, s.traces[j].imgs, q) == e;
    }
  }

  lemma StepIn(a: W.Trace, p: int, b: W.Trace, q: int)
    requires Known(a) && Known(b) && SameStep(a, p, b, q)
    ensures 1 <= q < |b.blocks|
  {}

  lemma RunTakesIffDoes(start: W.State, schedule: seq<nat>, s: W.State, program: string, i: nat, p: int, run: map<int, nat>)
    requires W.Start(start) && W.Leads(start, schedule, s) && i < |start.traces|
    requires Recorded(start, s, program, run) && s.history[i].remaps != [] && start.traces[i].program == program
    requires AllKnown(start.traces, run) && Known(start.traces[i]) && 1 <= p < |start.traces[i].blocks|
    ensures Takes(RunOf(s, run), EdgeAt(start.traces[i].blocks, s.traces[i].imgs, p)) <==> RunDoes(start.traces, run, start.traces[i], p)
    ensures forall t :: t in run ==>
              t in RunOf(s, run) && (ThreadTakes(RunOf(s, run)[t], EdgeAt(start.traces[i].blocks, s.traces[i].imgs, p))
                                     <==> Does(start.traces[run[t]], start.traces[i], p))
  {
    hide W.Start, W.Leads, EdgeAt, Known, ThreadTakes, Does;
    var e := EdgeAt(start.traces[i].blocks, s.traces[i].imgs, p);
    forall t | t in run ensures t in RunOf(s, run) && (ThreadTakes(RunOf(s, run)[t], e) <==> Does(start.traces[run[t]], start.traces[i], p)) {
      TakesIffDoes(start, schedule, s, program, i, p, run[t]);
      BlocksKept(start, schedule, s, run[t]);
    }
  }

  /** The number of an image is a library's exactly when its file is. */
  lemma NumberIsFile(start: W.State, schedule: seq<nat>, s: W.State, program: string, i: nat, k: int, n: int, file: Option<Image>)
    requires W.Start(start) && W.Leads(start, schedule, s) && i < |start.traces|
    requires |s.traces| == |s.history| == |start.traces| && s.history[i].remaps != [] && start.traces[i].program == program
    requires k in start.traces[i].imgs && program in s.registry && StandsFor(s.registry[program], n, file)
    ensures Number(s.traces[i].imgs, k) == n <==> IsFile(start.traces[i].imgs[k], file)
  {
    hide W.Start, W.Leads;
    W.RemadeAfter(start, schedule, s, i);
    var table, after := s.registry[program], s.traces[i].imgs[k];
    assert Numbered(table, start.traces[i].imgs[k], after);
    assert TableOk(table);
  }

  lemma OwnCodeAgrees(start: W.State, schedule: seq<nat>, s: W.State, program: string, plan: Plan, c: Setup, i: nat, p: int)
    requires W.Start(start) && W.Leads(start, schedule, s) && i < |start.traces|
    requires |s.traces| == |s.history| == |start.traces| && s.history[i].remaps != [] && start.traces[i].program == program
    requires Known(start.traces[i]) && 1 <= p < |start.traces[i].blocks| && SetupFrom(s, program, plan, c)
    ensures var e := EdgeAt(start.traces[i].blocks, s.traces[i].imgs, p);
            (e.imgsrc != c.libc && e.imgdst != c.libc && e.imgdst != c.vdso && e.imgdst != c.ld) <==> OwnCode(plan, start.traces[i], p)
  {
    hide W.Start, W.Leads, StandsFor, IsFile;
    var a := start.traces[i];
    NumberIsFile(start, schedule, s, program, i, a.blocks[p - 1].imgno, c.libc, plan.libc);
    NumberIsFile(start, schedule, s, program, i, a.blocks[p].imgno, c.libc, plan.libc);
    NumberIsFile(start, schedule, s, program, i, a.blocks[p].imgno, c.vdso, plan.vdso);
    NumberIsFile(start, schedule, s, program, i, a.blocks[p].imgno, c.ld, plan.ld);
  }

  lemma OnlyAgrees(start: W.State, schedule: seq<nat>, s: W.State, program: string, i: nat, p: int)
    requires W.Start(start) && W.Leads(start, schedule, s) && i < |start.traces|
    requires |s.traces| == |s.history| == |start.traces| && s.history[i].remaps != [] && start.traces[i].program == program
    requires Known(start.traces[i])
    ensures OnlyAt(Thread(start.traces[i].blocks, s.traces[i].imgs), p) <==>
              1 <= p < |start.traces[i].blocks| && forall q :: SameStep(start.traces[i], p, start.traces[i], q) ==> q == p
  {
    hide W.Start, W.Leads, EdgeAt, SameStep, Known;
    var a, imgs := start.traces[i], s.traces[i].imgs;
    if 1 <= p < |a.blocks| {
      forall q | 1 <= q < |a.blocks| ensures EdgeAt(a.blocks, imgs, q) == EdgeAt(a.blocks, imgs, p) <==> SameStep(a, p, a, q) {
        StepsAgree(start, schedule, s, program, i, p, i, q);
      }
      forall q | SameStep(a, p, a, q) ensures 1 <= q < |a.blocks| { StepIn(a, p, a, q); }
    }
  }

  /** Whatever the schedule was: the positions that tell the feature by edges, as the pipeline
      compares them, are those that tell it by addresses and files. */
  lemma TellsIsTellsCode(start: W.State, schedule: seq<nat>, s: W.State, program: string, plan: Plan, c: Setup, t: int, p: int)
    requires After(start, schedule, s, program, plan) && SetupFrom(s, program, plan, c)
    ensures c.targets != [] && (Tells(c, t, p) <==> TellsCode(start.traces, plan, t, p))
  {
    hide W.Start, W.Leads, EdgeAt, SameStep, Known, ThreadTakes, Does, OwnCode, OnlyAt, Takes, RunDoes, StandsFor;
    var last := LastOf(plan);
    assert c.Last() == RunOf(s, last);
    if t in last {
      var i := last[t];
      assert Recorded(start, s, program, last) && AllKnown(start.traces, last);
      BlocksKept(start, schedule, s, i);
      OnlyAgrees(start, schedule, s, program, i, p);
      if 1 <= p < |start.traces[i].blocks| {
        RunTakesIffDoes(start, schedule, s, program, i, p, last);
        OwnCodeAgrees(start, schedule, s, program, plan, c, i, p);
        RunsAgree(start, schedule, s, program, plan.targets, i, p);
        RunsAgree(start, schedule, s, program, plan.others, i, p);
      }
    }
  }

  lemma RunsAgree(start: W.State, schedule: seq<nat>, s: W.State, program: string, runs: seq<map<int, nat>>, i: nat, p: int)
    requires W.Start(start) && W.Leads(start, schedule, s) && i < |start.traces|
    requires |s.traces| == |s.history| == |start.traces| && s.history[i].remaps != [] && start.traces[i].program == program
    requires Known(start.traces[i]) && 1 <= p < |start.traces[i].blocks|
    requires forall k :: 0 <= k < |runs| ==> AllKnown(start.traces, runs[k]) && Recorded(start, s, program, runs[k])
    ensures forall k :: 0 <= k < |runs| ==>
              (Takes(RunsOf(s, runs)[k], EdgeAt(start.traces[i].blocks, s.traces[i].imgs, p)) <==> RunDoes(start.traces, runs[k], start.traces[i], p))
  {
    hide W.Start, W.Leads, EdgeAt, Known, ThreadTakes, Does, AllKnown, Recorded, Takes, RunDoes, RunOf;
    forall k | 0 <= k < |runs|
      ensures Takes(RunsOf(s, runs)[k], EdgeAt(start.traces[i].blocks, s.traces[i].imgs, p)) <==> RunDoes(start.traces, runs[k], start.traces[i], p)
    {
      RunTakesIffDoes(start, schedule, s, program, i, p, runs[k]);
    }
  }

  // ---------------------------------------------------------------- end to end

  ghost predicate TellsCodePair(traces: seq<W.Trace>, plan: Plan, t: int, p: int)
    requires PlanOk(traces, plan)
  {
    TellsCode(traces, plan, t, p) && TellsCode(traces, plan, t, p + 1)
  }

  /** The pack's edges are between the addresses of thread t's blocks from position a on, as far as
      positions tell the feature. */
  ghost predicate StretchAt(traces: seq<W.Trace>, plan: Plan, t: int, a: int, pack: Pack)
    requires PlanOk(traces, plan)
  {
    && |pack| >= 2
    && (forall j :: 0 <= j < |pack| ==> StretchEdge(traces, plan, t, a, pack, j))
    && !TellsCode(traces, plan, t, a - 1) && !TellsCode(traces, plan, t, a + |pack|)
  }

  ghost predicate StretchEdge(traces: seq<W.Trace>, plan: Plan, t: int, a: int, pack: Pack, j: nat)
    requires PlanOk(traces, plan) && j < |pack|
  {
    TellsCode(traces, plan, t, a + j) &&
    var b := traces[LastOf(plan)[t]].blocks;
    pack[j].src == b[a + j - 1].addr && pack[j].dst == b[a + j].addr
  }

  /** The packs of a thread: in order, at most ten, and any two positions in a row that tell the
      feature are in one pack, or behind all ten. */
  ghost predicate StretchesOf(traces: seq<W.Trace>, plan: Plan, t: int, packs: seq<Pack>, at: seq<int>)
    requires PlanOk(traces, plan)
  {
    && |at| == |packs| <= MAX_EDG_PACK
    && (forall k :: 0 <= k < |at| ==> StretchAt(traces, plan, t, at[k], packs[k]))
    && (forall k, l :: 0 <= k < l < |at| ==> at[k] + |packs[k]| < at[l])
    && (forall p :: TellsCodePair(traces, plan, t, p) ==>
          || (exists k :: 0 <= k < |at| && Within(at[k], packs[k], p))
          || (|at| == MAX_EDG_PACK && at[MAX_EDG_PACK - 1] + |packs[MAX_EDG_PACK - 1]| < p))
  }

  /** The answer in terms of the traces as they were recorded. */
  ghost predicate AnswersCode(traces: seq<W.Trace>, plan: Plan, packs: Packs)
    requires PlanOk(traces, plan)
  {
    forall t ::
      && (t in packs ==> packs[t] != [] && exists at :: StretchesOf(traces, plan, t, packs[t], at))
      && (t !in packs ==> forall p :: !TellsCodePair(traces, plan, t, p))
  }

  lemma PackIsStretch(start: W.State, schedule: seq<nat>, s: W.State, program: string, plan: Plan, c: Setup, t: int, a: int, pack: Pack)
    requires After(start, schedule, s, program, plan) && SetupFrom(s, program, plan, c) && c.targets != [] && PackAt(c, t, a, pack)
    ensures StretchAt(start.traces, plan, t, a, pack)
  {
    hide Tells, TellsCode, EdgeAt, SetupFrom;
    TellsIsTellsCode(start, schedule, s, program, plan, c, t, a - 1);
    TellsIsTellsCode(start, schedule, s, program, plan, c, t, a + |pack|);
    forall j | 0 <= j < |pack| ensures StretchEdge(start.traces, plan, t, a, pack, j) {
      assert PackEdge(c, t, a, pack, j);
      TellsPlace(c, t, a + j);
      TellsIsTellsCode(start, schedule, s, program, plan, c, t, a + j);
      EdgeBetween(start, schedule, s, program, plan, c, t, a + j);
    }
  }

  lemma EdgeBetween(start: W.State, schedule: seq<nat>, s: W.State, program: string, plan: Plan, c: Setup, t: int, p: int)
    requires After(start, schedule, s, program, plan) && SetupFrom(s, program, plan, c) && c.targets != [] && TellsTrace(c, t, p)
    ensures t in LastOf(plan) && LastOf(plan)[t] < |start.traces|
    ensures var e := EdgeAt(c.Last()[t].trace, c.Last()[t].imgs, p); var b := start.traces[LastOf(plan)[t]].blocks;
            1 <= p < |b| && e.src == b[p - 1].addr && e.dst == b[p].addr
  {
    hide W.Start, W.Leads, StandsFor, Known, Recorded;
    var last := LastOf(plan);
    assert c.Last() == RunOf(s, last) && AllKnown(start.traces, last);
    BlocksKept(start, schedule, s, last[t]);
  }

  lemma AnswerOfThread(start: W.State, schedule: seq<nat>, s: W.State, program: string, plan: Plan, c: Setup, t: int, packs: seq<Pack>, at: seq<int>)
    requires After(start, schedule, s, program, plan) && SetupFrom(s, program, plan, c) && c.targets != [] && PacksOf(c, t, packs, at)
    ensures StretchesOf(start.traces, plan, t, packs, at)
  {
    hide Tells, TellsCode, PackAt, StretchAt, After, SetupFrom;
    assert PlanOk(start.traces, plan) by { AfterPlan(start, schedule, s, program, plan); }
    forall k | 0 <= k < |at| ensures StretchAt(start.traces, plan, t, at[k], packs[k]) {
      PackIsStretch(start, schedule, s, program, plan, c, t, at[k], packs[k]);
    }
    forall p | TellsCodePair(start.traces, plan, t, p)
      ensures || (exists k :: 0 <= k < |at| && Within(at[k], packs[k], p))
              || (|at| == MAX_EDG_PACK && at[MAX_EDG_PACK - 1] + |packs[MAX_EDG_PACK - 1]| < p)
    {
      PairsAgree(start, schedule, s, program, plan, c, t, p);
    }
  }

  lemma AfterPlan(start: W.State, schedule: seq<nat>, s: W.State, program: string, plan: Plan)
    requires After(start, schedule, s, program, plan)
    ensures PlanOk(start.traces, plan)
  {}

  lemma PairsAgree(start: W.State, schedule: seq<nat>, s: W.State, program: string, plan: Plan, c: Setup, t: int, p: int)
    requires After(start, schedule, s, program, plan) && SetupFrom(s, program, plan, c) && c.targets != []
    ensures PlanOk(start.traces, plan) && (TellsPair(c, t, p) <==> TellsCodePair(start.traces, plan, t, p))
  {
    hide Tells, TellsCode, SetupFrom;
    TellsIsTellsCode(start, schedule, s, program, plan, c, t, p);
    TellsIsTellsCode(start, schedule, s, program, plan, c, t, p + 1);
  }

  /** From the recorded traces, through any schedule of the workers, to the packs: they are the
      stretches of the traces that tell the feature, by addresses and files. */
  lemma AnswersMeans(start: W.State, schedule: seq<nat>, s: W.State, program: string, plan: Plan, c: Setup, packs: Packs)
    requires After(start, schedule, s, program, plan) && SetupFrom(s, program, plan, c) && c.targets != [] && Answers(c, packs)
    ensures PlanOk(start.traces, plan) && AnswersCode(start.traces, plan, packs)
  {
    hide PacksOf, StretchesOf, TellsPair, TellsCodePair, SetupFrom;
    forall t
      ensures t in packs ==> packs[t] != [] && exists at :: StretchesOf(start.traces, plan, t, packs[t], at)
      ensures t !in packs ==> forall p :: !TellsCodePair(start.traces, plan, t, p)
    {
      if t in packs {
        var at :| PacksOf(c, t, packs[t], at);
        AnswerOfThread(start, schedule, s, program, plan, c, t, packs[t], at);
      } else {
        forall p ensures !TellsCodePair(start.traces, plan, t, p) {
          PairsAgree(start, schedule, s, program, plan, c, t, p);
        }
      }
    }
  }

  method IdentifyCode(ghost start: W.State, ghost schedule: seq<nat>, s: W.State, program: string, plan: Plan, c: Setup) returns (packs: Packs)
    requires After(start, schedule, s, program, plan) && SetupFrom(s, program, plan, c)
    requires forall t :: t in LastOf(plan) ==> t >= 0
    ensures PlanOk(start.traces, plan) && AnswersCode(start.traces, plan, packs)
  {
    hide Answers, AnswersCode;
    assert c.targets != [] && c.Last() == RunOf(s, LastOf(plan));
    packs := Identify(c);
    AnswersMeans(start, schedule, s, program, plan, c, packs);
  }
}
