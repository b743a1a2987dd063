/** The profiler's worker threads (identification/tools/profiler.cpp, task_thread) as a state
    machine. Each section under the mutex is one step, and so is the work between two of them;
    a schedule names the worker that takes each step. */
module Workers {
  import opened Options
  import opened Common
  import opened Edges
  import opened Images
  import opened ImageRegistry
  import opened Profiler

  /** opens tells whether create_plain can open the trace and its profile. */
  datatype Trace = Trace(program: string, opens: bool, blocks: seq<Loc>, imgs: Table, claimed: bool)

  /** create_plain returns the number of edges, or -1 when a file cannot be opened; a trace with a
      result of 0 or less is skipped. */
  predicate Counts(tr: Trace) { tr.opens && |tr.blocks| >= 2 }

  /** Where a worker is: about to look at a trace, holding one, having renumbered its images, or
      about to count it. */
  datatype Place = At(i: nat) | Claimed(i: nat) | Remapped(i: nat) | Counting(i: nat)

  /** What happened to a trace: who claimed it, who renumbered its images, and the tables
      create_plain was given. */
  datatype History = History(claims: seq<nat>, remaps: seq<nat>, given: seq<Table>)

  datatype State = State(registry: Registry, update: Registry, traces: seq<Trace>, workers: seq<Place>,
                         count: nat, history: seq<History>)

  predicate Runnable(s: State) {
    && |s.history| == |s.traces|
    && (forall p :: p in s.registry ==> s.registry[p].Keys != {})
    && (forall w :: 0 <= w < |s.workers| ==> s.workers[w].i < |s.traces| || s.workers[w] == At(|s.traces|))
  }

  predicate Finished(s: State, w: nat)
    requires w < |s.workers|
  {
    s.workers[w] == At(|s.traces|)
  }

  // ---------------------------------------------------------------- steps

  /** Under the mutex: claim the trace, or see that it is taken. */
  function Look(s: State, w: nat): State
    requires Runnable(s) && w < |s.workers| && s.workers[w].At? && !Finished(s, w)
  {
    var i := s.workers[w].i;
    if s.traces[i].claimed then s.(workers := s.workers[w := At(i + 1)])
    else s.(traces := s.traces[i := s.traces[i].(claimed := true)],
            workers := s.workers[w := Claimed(i)],
            history := s.history[i := s.history[i].(claims := s.history[i].claims + [w])])
  }

  /** Under the mutex: update_image_registry. */
  function Remap(s: State, w: nat): State
    requires Runnable(s) && w < |s.workers| && s.workers[w].Claimed?
  {
    var i := s.workers[w].i;
    var b := Register(Books(s.registry, s.update, s.traces[i].imgs), s.traces[i].program);
    s.(registry := b.registry, update := b.update,
       traces := s.traces[i := s.traces[i].(imgs := b.imgs)],
       workers := s.workers[w := Remapped(i)],
       history := s.history[i := s.history[i].(remaps := s.history[i].remaps + [w])])
  }

  /** Outside the mutex: create_plain with the trace's table. */
  function Plain(s: State, w: nat): State
    requires Runnable(s) && w < |s.workers| && s.workers[w].Remapped?
  {
    var i := s.workers[w].i;
    s.(workers := s.workers[w := if Counts(s.traces[i]) then Counting(i) else At(i + 1)],
       history := s.history[i := s.history[i].(given := s.history[i].given + [s.traces[i].imgs])])
  }

  /** Under the mutex: the progress count. */
  function Count(s: State, w: nat): State
    requires Runnable(s) && w < |s.workers| && s.workers[w].Counting?
  {
    s.(workers := s.workers[w := At(s.workers[w].i + 1)], count := s.count + 1)
  }

  function Next(s: State, w: nat): State
    requires Runnable(s) && w < |s.workers| && !Finished(s, w)
  {
    match s.workers[w]
    case At(_) => Look(s, w)
    case Claimed(_) => Remap(s, w)
    case Remapped(_) => Plain(s, w)
    case Counting(_) => Count(s, w)
  }

  // ---------------------------------------------------------------- invariant

  ghost predicate Remade(s: State, start: State, i: nat)
    requires i < |s.traces| && i < |start.traces|
  {
    var p := s.traces[i].program;
    p in s.registry && Renumbered(s.registry[p], start.traces[i].imgs, s.traces[i].imgs)
  }

  /** A trace is untouched, or with the one worker that claimed it, at that worker's stage. */
  ghost predicate TraceInv(s: State, start: State, i: nat)
    requires i < |s.traces| == |start.traces| == |s.history|
  {
    var tr, o, h := s.traces[i], start.traces[i], s.history[i];
    && tr.program == o.program && tr.opens == o.opens && tr.blocks == o.blocks
    && if !tr.claimed then
         h == History([], [], []) && tr.imgs == o.imgs
       else
         && |h.claims| == 1 && h.claims[0] < |s.workers|
         && var w := h.claims[0];
            if s.workers[w] == Claimed(i) then h.remaps == [] && h.given == [] && tr.imgs == o.imgs
            else if s.workers[w] == Remapped(i) then h.remaps == [w] && h.given == [] && Remade(s, start, i)
            else h.remaps == [w] && h.given == [tr.imgs] && Remade(s, start, i)
  }

  /** A worker has left only claimed traces behind, and the trace it holds is its own. */
  predicate WorkerInv(s: State, w: nat)
    requires w < |s.workers| && |s.history| == |s.traces|
  {
    var i := s.workers[w].i;
    && i <= |s.traces| && (forall j :: 0 <= j < i ==> s.traces[j].claimed)
    && (!s.workers[w].At? ==> i < |s.traces| && s.traces[i].claimed && s.history[i].claims == [w])
    && (s.workers[w].Counting? ==> Counts(s.traces[i]))
  }

  /** The traces counted so far. */
  ghost predicate IsCounted(s: State, i: nat)
    requires i < |s.traces| == |s.history|
  {
    && Counts(s.traces[i]) && s.history[i].given != []
    && |s.history[i].claims| == 1 && s.history[i].claims[0] < |s.workers|
    && s.workers[s.history[i].claims[0]] != Counting(i)
  }

  ghost function Counted(s: State): set<nat>
    requires |s.history| == |s.traces|
  {
    set i: nat | i < |s.traces| && IsCounted(s, i)
  }

  ghost predicate Inv(s: State, start: State) {
    && |s.traces| == |start.traces| == |s.history| && |s.workers| == |start.workers|
    && RegistryOk(s.registry)
    && Journal(start.registry, Books(s.registry, s.update, map[]))
    && (forall i :: 0 <= i < |s.traces| ==> TableOk(start.traces[i].imgs))
    && (forall i :: 0 <= i < |s.traces| ==> TraceInv(s, start, i))
    && (forall w :: 0 <= w < |s.workers| ==> WorkerInv(s, w))
    && s.count == |Counted(s)|
  }

  /** Nothing claimed yet; the registry as read from the image file; tables free of duplicates. */
  ghost predicate Start(s: State) {
    && |s.history| == |s.traces| && s.count == 0 && s.update == map[]
    && RegistryOk(s.registry)
    && (forall i :: 0 <= i < |s.traces| ==> !s.traces[i].claimed && TableOk(s.traces[i].imgs) && s.history[i] == History([], [], []))
    && (forall w :: 0 <= w < |s.workers| ==> s.workers[w] == At(0))
  }

  lemma InvRunnable(s: State, start: State)
    requires Inv(s, start)
    ensures Runnable(s)
  {
    forall w | 0 <= w < |s.workers| ensures s.workers[w].i < |s.traces| || s.workers[w] == At(|s.traces|) {
      assert WorkerInv(s, w);
    }
    forall p | p in s.registry ensures s.registry[p].Keys != {} {
      TableNotEmpty(s.registry[p]);
    }
  }

  lemma StartInv(s: State)
    requires Start(s)
    ensures Inv(s, s)
  {
    assert Counted(s) == {};
    forall p ensures Get(s.registry, p) == Get(s.registry, p) + Get(s.update, p) {}
  }

  // ---------------------------------------------------------------- every step keeps it

  /** t follows s by a step of worker w: nothing changes but that worker, its trace and the trace's
      history, and a registry that grows. */
  ghost predicate StepBy(s: State, t: State, w: nat) {
    && w < |s.workers| == |t.workers| && |s.traces| == |t.traces| == |s.history| == |t.history|
    && var i := s.workers[w].i;
       && i < |s.traces| && (t.workers[w].i == i || t.workers[w] == At(i + 1))
       && (forall v :: 0 <= v < |s.workers| && v != w ==> t.workers[v] == s.workers[v])
       && (forall j :: 0 <= j < |s.traces| && j != i ==> t.traces[j] == s.traces[j] && t.history[j] == s.history[j])
       && t.traces[i] == s.traces[i].(claimed := t.traces[i].claimed, imgs := t.traces[i].imgs)
       && (s.traces[i].claimed ==> t.traces[i].claimed && t.history[i].claims == s.history[i].claims)
       && Grows(s.registry, t.registry)
  }

  lemma RemadeStays(s: State, t: State, start: State, i: nat)
    requires i < |s.traces| == |t.traces| == |start.traces| && Remade(s, start, i) && Grows(s.registry, t.registry)
    requires t.traces[i].program == s.traces[i].program && t.traces[i].imgs == s.traces[i].imgs
    ensures Remade(t, start, i)
  {}

  /** The other traces, the other workers and the count of the other traces keep the invariant. */
  lemma OthersKeep(s: State, start: State, t: State, w: nat)
    requires Inv(s, start) && StepBy(s, t, w)
    ensures forall j :: 0 <= j < |s.traces| && j != s.workers[w].i ==> TraceInv(t, start, j)
    ensures forall v :: 0 <= v < |s.workers| && v != w ==> WorkerInv(t, v)
    ensures forall j: nat :: j < |s.traces| && j != s.workers[w].i ==> (IsCounted(t, j) <==> IsCounted(s, j))
  {
    hide Renumbered, TableOk, RegistryOk, Journal, Grows, Remade, Counted;
    var i := s.workers[w].i;
    forall j | 0 <= j < |s.traces| && j != i ensures TraceInv(t, start, j) {
      OtherTrace(s, start, t, w, j);
    }
    forall v | 0 <= v < |s.workers| && v != w ensures WorkerInv(t, v) {
      OtherWorker(s, t, w, v);
    }
  }

  lemma OtherTrace(s: State, start: State, t: State, w: nat, j: nat)
    requires StepBy(s, t, w) && |start.traces| == |s.traces| && j < |s.traces| && j != s.workers[w].i && TraceInv(s, start, j)
    ensures TraceInv(t, start, j)
  {
    hide Renumbered, Grows, Remade;
    if s.traces[j].claimed && Remade(s, start, j) { RemadeStays(s, t, start, j); }
  }

  lemma OtherWorker(s: State, t: State, w: nat, v: nat)
    requires StepBy(s, t, w) && v < |s.workers| && v != w && WorkerInv(s, v)
    ensures WorkerInv(t, v)
  {
    hide Grows;
  }

  lemma LookKeeps(s: State, start: State, w: nat)
    requires Inv(s, start) && Runnable(s) && w < |s.workers| && s.workers[w].At? && !Finished(s, w)
    ensures Inv(Look(s, w), start)
  {
    hide Inv, Look;
    OwnStep(s, start, w);
    if s.traces[s.workers[w].i].claimed {
      PassKeeps(s, start, w);
    } else {
      ClaimKeeps(s, start, w);
    }
  }

  lemma PassKeeps(s: State, start: State, w: nat)
    requires Inv(s, start) && Runnable(s) && w < |s.workers| && s.workers[w].At? && !Finished(s, w)
    requires s.traces[s.workers[w].i].claimed
    ensures Inv(Look(s, w), start)
  {
    hide Renumbered, TableOk, RegistryOk, Journal, Remade;
    var t, i := Look(s, w), s.workers[w].i;
    OwnStep(s, start, w);
    OthersKeep(s, start, t, w);
    assert TraceInv(t, start, i) && WorkerInv(t, w) by { RemadeSame(s, t, start, i); }
    SameCount(s, t, i);
  }

  lemma ClaimKeeps(s: State, start: State, w: nat)
    requires Inv(s, start) && Runnable(s) && w < |s.workers| && s.workers[w].At? && !Finished(s, w)
    requires !s.traces[s.workers[w].i].claimed
    ensures Inv(Look(s, w), start)
  {
    hide Renumbered, TableOk, RegistryOk, Journal, Remade;
    var t, i := Look(s, w), s.workers[w].i;
    OwnStep(s, start, w);
    OthersKeep(s, start, t, w);
    assert TraceInv(t, start, i) && WorkerInv(t, w);
    SameCount(s, t, i);
  }

  /** The worker's own trace. */
  lemma OwnStep(s: State, start: State, w: nat)
    requires Inv(s, start) && w < |s.workers| && !Finished(s, w)
    ensures s.workers[w].i < |s.traces| && WorkerInv(s, w) && TraceInv(s, start, s.workers[w].i) && Runnable(s)
  {
    hide TraceInv, Journal, RegistryOk, TableOk;
    InvRunnable(s, start);
    assert WorkerInv(s, w);
  }

  lemma RemadeSame(s: State, t: State, start: State, i: nat)
    requires i < |s.traces| == |t.traces| == |start.traces| && t.registry == s.registry
    requires t.traces[i] == s.traces[i].(claimed := t.traces[i].claimed)
    ensures Remade(t, start, i) <==> Remade(s, start, i)
  {}

  lemma SameCount(s: State, t: State, i: nat)
    requires |s.traces| == |s.history| == |t.traces| == |t.history| && i < |s.traces| && (IsCounted(s, i) <==> IsCounted(t, i))
    requires forall j: nat :: j < |s.traces| && j != i ==> (IsCounted(t, j) <==> IsCounted(s, j))
    ensures Counted(t) == Counted(s)
  {
    hide IsCounted;
  }

  lemma RemapRegistry(s: State, start: State, w: nat)
    requires Inv(s, start) && Runnable(s) && w < |s.workers| && s.workers[w].Claimed?
    ensures var t := Remap(s, w); var i := s.workers[w].i;
            && RegistryOk(t.registry) && Grows(s.registry, t.registry)
            && Journal(start.registry, Books(t.registry, t.update, map[]))
            && i < |s.traces| == |t.traces| == |start.traces| && Remade(t, start, i)
  {
    hide Renumbered, TableOk, RegistryOk, Journal, Register, Grows;
    var i := s.workers[w].i;
    assert WorkerInv(s, w) && TraceInv(s, start, i);
    var b := Books(s.registry, s.update, s.traces[i].imgs);
    JournalSame(start.registry, Books(s.registry, s.update, map[]), s.traces[i].imgs);
    Registered(start.registry, b, s.traces[i].program);
    JournalSame(start.registry, Register(b, s.traces[i].program), map[]);
  }

  lemma RemapKeeps(s: State, start: State, w: nat)
    requires Inv(s, start) && Runnable(s) && w < |s.workers| && s.workers[w].Claimed?
    ensures Inv(Remap(s, w), start) && Grows(s.registry, Remap(s, w).registry)
  {
    hide Renumbered, TableOk, RegistryOk, Journal, Register, Grows, Remade;
    RemapRegistry(s, start, w);
    var t, i := Remap(s, w), s.workers[w].i;
    OwnStep(s, start, w);
    OthersKeep(s, start, t, w);
    assert TraceInv(t, start, i) && WorkerInv(t, w);
    SameCount(s, t, i);
  }

  lemma PlainKeeps(s: State, start: State, w: nat)
    requires Inv(s, start) && Runnable(s) && w < |s.workers| && s.workers[w].Remapped?
    ensures Inv(Plain(s, w), start)
  {
    hide Renumbered, TableOk, RegistryOk, Journal, Remade;
    var t, i := Plain(s, w), s.workers[w].i;
    OwnStep(s, start, w);
    OthersKeep(s, start, t, w);
    assert TraceInv(t, start, i) && WorkerInv(t, w) by { RemadeSame(s, t, start, i); }
    SameCount(s, t, i);
  }

  lemma CountKeeps(s: State, start: State, w: nat)
    requires Inv(s, start) && Runnable(s) && w < |s.workers| && s.workers[w].Counting?
    ensures Inv(Count(s, w), start)
  {
    hide Renumbered, TableOk, RegistryOk, Journal, Remade;
    var t, i := Count(s, w), s.workers[w].i;
    OwnStep(s, start, w);
    OthersKeep(s, start, t, w);
    assert TraceInv(t, start, i) && WorkerInv(t, w) by { RemadeSame(s, t, start, i); }
    assert IsCounted(t, i) && !IsCounted(s, i);
    OneMoreCounted(s, t, i);
  }

  lemma OneMoreCounted(s: State, t: State, i: nat)
    requires |s.traces| == |s.history| == |t.traces| == |t.history| && i < |s.traces| && !IsCounted(s, i) && IsCounted(t, i)
    requires forall j: nat :: j < |s.traces| && j != i ==> (IsCounted(t, j) <==> IsCounted(s, j))
    ensures |Counted(t)| == |Counted(s)| + 1
  {
    hide IsCounted;
    assert Counted(t) == Counted(s) + {i} && i !in Counted(s);
  }

  lemma NextKeeps(s: State, start: State, w: nat)
    requires Inv(s, start) && w < |s.workers| && !Finished(s, w)
    ensures Runnable(s)
    ensures Inv(Next(s, w), start) && Grows(s.registry, Next(s, w).registry)
  {
    hide Inv, Look, Remap, Plain, Count;
    InvRunnable(s, start);
    match s.workers[w]
    case At(_) => LookKeeps(s, start, w); GrowsSelf(s, Look(s, w)) by { LookRegistry(s, w); }
    case Claimed(_) => RemapKeeps(s, start, w);
    case Remapped(_) => PlainKeeps(s, start, w); GrowsSelf(s, Plain(s, w)) by { PlainRegistry(s, w); }
    case Counting(_) => CountKeeps(s, start, w); GrowsSelf(s, Count(s, w)) by { CountRegistry(s, w); }
  }

  lemma GrowsSelf(s: State, t: State)
    requires s.registry == t.registry
    ensures Grows(s.registry, t.registry)
  {}

  lemma LookRegistry(s: State, w: nat)
    requires Runnable(s) && w < |s.workers| && s.workers[w].At? && !Finished(s, w)
    ensures Look(s, w).registry == s.registry
  {}

  lemma PlainRegistry(s: State, w: nat)
    requires Runnable(s) && w < |s.workers| && s.workers[w].Remapped?
    ensures Plain(s, w).registry == s.registry
  {}

  lemma CountRegistry(s: State, w: nat)
    requires Runnable(s) && w < |s.workers| && s.workers[w].Counting?
    ensures Count(s, w).registry == s.registry
  {}

  // ---------------------------------------------------------------- schedules

  /** t follows from s when the workers of the schedule take their steps one after the other; a
      finished worker takes none. */
  ghost predicate Leads(s: State, schedule: seq<nat>, t: State)
    decreases |schedule|
  {
    if schedule == [] then s == t
    else Runnable(s) && schedule[0] < |s.workers| && !Finished(s, schedule[0]) && Leads(Next(s, schedule[0]), schedule[1..], t)
  }

  /** The invariant holds after every schedule, and the registry has only grown: numbers given
      once stay. */
  lemma {:induction false} LeadsKeeps(start: State, s: State, schedule: seq<nat>, t: State)
    requires Inv(s, start) && Leads(s, schedule, t)
    ensures Inv(t, start) && Grows(s.registry, t.registry)
    decreases |schedule|
  {
    hide Inv, Next, Grows;
    if schedule == [] {
      GrowsSelf(s, t);
    } else {
      var n := Next(s, schedule[0]);
      NextKeeps(s, start, schedule[0]);
      LeadsKeeps(start, n, schedule[1..], t);
      GrowsTransitive(s.registry, n.registry, t.registry);
    }
  }

  /** How far a worker still has to go. */
  function Rank(s: State, w: nat): int
    requires w < |s.workers|
  {
    4 * (|s.traces| - s.workers[w].i) - (match s.workers[w] case At(_) => 0 case Claimed(_) => 1 case Remapped(_) => 2 case Counting(_) => 3)
  }

  /** A worker that is not finished can always take its step, which brings it forward and moves
      no other worker. */
  lemma NextAdvances(s: State, start: State, w: nat)
    requires Inv(s, start) && w < |s.workers| && !Finished(s, w)
    ensures Runnable(s)
    ensures |Next(s, w).traces| == |s.traces| && |Next(s, w).workers| == |s.workers|
    ensures 0 <= Rank(Next(s, w), w) < Rank(s, w)
    ensures forall v :: 0 <= v < |s.workers| && v != w ==> Next(s, w).workers[v] == s.workers[v]
  {
    hide TraceInv, Journal, RegistryOk, Register;
    InvRunnable(s, start);
    assert WorkerInv(s, w);
  }

  /** What the first n workers still have to go. */
  function Ahead(s: State, n: nat): int
    requires n <= |s.workers|
  {
    if n == 0 then 0 else Ahead(s, n - 1) + Rank(s, n - 1)
  }

  lemma {:induction false} AheadShrinks(s: State, t: State, w: nat, n: nat)
    requires n <= |s.workers| == |t.workers| && |s.traces| == |t.traces| && w < |s.workers| && Rank(t, w) < Rank(s, w)
    requires forall v :: 0 <= v < |s.workers| && v != w ==> t.workers[v] == s.workers[v]
    ensures Ahead(t, n) <= Ahead(s, n) - (if w < n then 1 else 0)
  {
    if n > 0 {
      AheadShrinks(s, t, w, n - 1);
      if w != n - 1 {
        assert t.workers[n - 1] == s.workers[n - 1];
      }
    }
  }

  lemma {:induction false} NoneBehind(s: State, start: State, n: nat)
    requires Inv(s, start) && n <= |s.workers|
    ensures 0 <= Ahead(s, n)
  {
    hide TraceInv, Journal, RegistryOk;
    if n > 0 {
      NoneBehind(s, start, n - 1);
      assert WorkerInv(s, n - 1);
    }
  }

  lemma {:induction false} ScheduleWithin(start: State, s: State, schedule: seq<nat>, t: State)
    requires Inv(s, start) && Leads(s, schedule, t)
    ensures |schedule| <= Ahead(s, |s.workers|)
    decreases |schedule|
  {
    hide Inv, Next, Ahead, Rank;
    NoneBehind(s, start, |s.workers|);
    if schedule != [] {
      var w := schedule[0];
      NextKeeps(s, start, w);
      NextAdvances(s, start, w);
      ScheduleWithin(start, Next(s, w), schedule[1..], t);
      AheadShrinks(s, Next(s, w), w, |s.workers|);
    }
  }

  lemma {:induction false} AheadAtStart(s: State, n: nat)
    requires n <= |s.workers| && forall w :: 0 <= w < |s.workers| ==> s.workers[w] == At(0)
    ensures Ahead(s, n) == 4 * n * |s.traces|
  {
    if n > 0 {
      AheadAtStart(s, n - 1);
      assert 4 * n * |s.traces| == 4 * (n - 1) * |s.traces| + 4 * |s.traces|;
    }
  }

  /** No schedule goes on for ever: four steps per worker and trace are the most. */
  lemma ScheduleBound(start: State, schedule: seq<nat>, t: State)
    requires Start(start) && Leads(start, schedule, t)
    ensures |schedule| <= 4 * |start.workers| * |start.traces|
  {
    hide Leads, Inv, Ahead;
    StartInv(start);
    ScheduleWithin(start, start, schedule, t);
    AheadAtStart(start, |start.workers|);
  }

  // ---------------------------------------------------------------- what holds after any schedule

  /** Each trace is claimed by at most one worker and renumbered and profiled at most once, by
      that worker; and when any worker is finished, every trace has been claimed. */
  lemma ExactlyOnce(start: State, schedule: seq<nat>, t: State, i: nat)
    requires Start(start) && Leads(start, schedule, t) && i < |start.traces|
    ensures |t.traces| == |t.history| == |start.traces| && |t.workers| == |start.workers|
    ensures t.traces[i].claimed <==> |t.history[i].claims| == 1
    ensures !t.traces[i].claimed <==> t.history[i].claims == []
    ensures t.history[i].remaps == [] || t.history[i].remaps == t.history[i].claims
    ensures t.history[i].given == [] || (t.history[i].given == [t.traces[i].imgs] && t.history[i].remaps == t.history[i].claims)
    ensures (exists w :: 0 <= w < |t.workers| && Finished(t, w)) ==> t.traces[i].claimed
  {
    hide Start, Leads;
    StartInv(start);
    LeadsKeeps(start, start, schedule, t);
    assert TraceInv(t, start, i);
    if w :| 0 <= w < |t.workers| && Finished(t, w) {
      assert WorkerInv(t, w);
    }
  }

  /** When all workers are finished (there is at least one, the main thread), every trace has
      been profiled exactly once, and the count is the number of traces that open and have an edge. */
  lemma AllProfiled(start: State, schedule: seq<nat>, t: State)
    requires Start(start) && Leads(start, schedule, t) && |start.workers| > 0
    requires forall w :: 0 <= w < |t.workers| ==> Finished(t, w)
    ensures |t.traces| == |t.history| == |start.traces|
    ensures forall i :: 0 <= i < |t.traces| ==> |t.history[i].claims| == 1 && t.history[i].given == [t.traces[i].imgs]
    ensures t.count == |set i: nat | i < |start.traces| && Counts(start.traces[i])|
  {
    hide Start, Leads, Journal, RegistryOk, TableOk;
    StartInv(start);
    LeadsKeeps(start, start, schedule, t);
    assert Finished(t, 0) && WorkerInv(t, 0);
    forall i | 0 <= i < |t.traces| ensures |t.history[i].claims| == 1 && t.history[i].given == [t.traces[i].imgs] {
      assert TraceInv(t, start, i) && Finished(t, t.history[i].claims[0]);
    }
    forall i: nat | i < |t.traces| ensures IsCounted(t, i) <==> Counts(start.traces[i]) {
      assert TraceInv(t, start, i) && Finished(t, t.history[i].claims[0]);
    }
    assert Counted(t) == set i: nat | i < |start.traces| && Counts(start.traces[i]);
  }

  lemma RemadeAfter(start: State, schedule: seq<nat>, t: State, i: nat)
    requires Start(start) && Leads(start, schedule, t) && i < |start.traces|
    ensures i < |t.traces| == |t.history| == |start.traces| && RegistryOk(t.registry)
    ensures t.history[i].remaps != [] ==> Remade(t, start, i)
    ensures t.traces[i].program == start.traces[i].program && t.traces[i].blocks == start.traces[i].blocks
  {
    hide Start, Leads, Remade;
    StartInv(start);
    LeadsKeeps(start, start, schedule, t);
    assert TraceInv(t, start, i);
  }

  lemma SameNumber(t: Table, a: Image, b: Image, a1: Image, b1: Image)
    requires TableOk(t) && Numbered(t, a, a1) && Numbered(t, b, b1)
    ensures a1.seqno == b1.seqno <==> SameFile(a, b)
  {}

  /** Two images of one program's traces have the same number exactly when they are the same
      file, whatever the schedule was. */
  lemma SameNumberIffSameFile(start: State, schedule: seq<nat>, t: State, i: nat, k: int, j: nat, l: int)
    requires Start(start) && Leads(start, schedule, t) && i < |start.traces| && j < |start.traces|
    requires start.traces[i].program == start.traces[j].program
    requires k in start.traces[i].imgs && l in start.traces[j].imgs
    ensures |t.traces| == |t.history| == |start.traces|
    ensures t.history[i].remaps != [] && t.history[j].remaps != [] ==>
              k in t.traces[i].imgs && l in t.traces[j].imgs
              && (t.traces[i].imgs[k].seqno == t.traces[j].imgs[l].seqno
                  <==> SameFile(start.traces[i].imgs[k], start.traces[j].imgs[l]))
  {
    hide Start, Leads, TableOk;
    RemadeAfter(start, schedule, t, i);
    RemadeAfter(start, schedule, t, j);
    if t.history[i].remaps != [] && t.history[j].remaps != [] {
      SameNumber(t.registry[t.traces[i].program], start.traces[i].imgs[k], start.traces[j].imgs[l],
                 t.traces[i].imgs[k], t.traces[j].imgs[l]);
    }
  }

  /** The identity of images does not depend on the schedule. */
  lemma ScheduleIndependent(start: State, schedule1: seq<nat>, t1: State, schedule2: seq<nat>, t2: State,
                            i: nat, k: int, j: nat, l: int)
    requires Start(start) && Leads(start, schedule1, t1) && Leads(start, schedule2, t2)
    requires i < |start.traces| && j < |start.traces| && start.traces[i].program == start.traces[j].program
    requires k in start.traces[i].imgs && l in start.traces[j].imgs
    requires |t1.history| == |t2.history| == |start.traces|
    requires t1.history[i].remaps != [] && t1.history[j].remaps != [] && t2.history[i].remaps != [] && t2.history[j].remaps != []
    ensures |t1.traces| == |t2.traces| == |start.traces|
    ensures k in t1.traces[i].imgs && l in t1.traces[j].imgs && k in t2.traces[i].imgs && l in t2.traces[j].imgs
    ensures t1.traces[i].imgs[k].seqno == t1.traces[j].imgs[l].seqno <==> t2.traces[i].imgs[k].seqno == t2.traces[j].imgs[l].seqno
  {
    hide Start, Leads;
    SameNumberIffSameFile(start, schedule1, t1, i, k, j, l);
    SameNumberIffSameFile(start, schedule2, t2, i, k, j, l);
  }

  /** Edges of two traces of a program compare equal exactly when they lead between the same
      addresses of the same files: what the comparison of runs relies on. */
  lemma SameEdgeIffSameCode(start: State, schedule: seq<nat>, t: State, i: nat, p: nat, j: nat, q: nat)
    requires Start(start) && Leads(start, schedule, t) && i < |start.traces| && j < |start.traces|
    requires start.traces[i].program == start.traces[j].program
    requires |t.history| == |start.traces| && t.history[i].remaps != [] && t.history[j].remaps != []
    requires 1 <= p < |start.traces[i].blocks| && 1 <= q < |start.traces[j].blocks|
    requires KnownAt(start.traces[i], p) && KnownAt(start.traces[j], q)
    ensures |t.traces| == |start.traces|
    ensures EdgeAt(start.traces[i].blocks, t.traces[i].imgs, p) == EdgeAt(start.traces[j].blocks, t.traces[j].imgs, q)
         <==> SameBlock(start.traces[i], p - 1, start.traces[j], q - 1) && SameBlock(start.traces[i], p, start.traces[j], q)
  {
    hide Start, Leads, SameFile;
    var a, b := start.traces[i].blocks, start.traces[j].blocks;
    SameNumberIffSameFile(start, schedule, t, i, a[p - 1].imgno, j, b[q - 1].imgno);
    SameNumberIffSameFile(start, schedule, t, i, a[p].imgno, j, b[q].imgno);
  }

  predicate KnownAt(tr: Trace, p: nat)
    requires 1 <= p < |tr.blocks|
  {
    tr.blocks[p - 1].imgno in tr.imgs && tr.blocks[p].imgno in tr.imgs
  }

  predicate SameBlock(a: Trace, p: nat, b: Trace, q: nat)
    requires p < |a.blocks| && q < |b.blocks| && a.blocks[p].imgno in a.imgs && b.blocks[q].imgno in b.imgs
  {
    a.blocks[p].addr == b.blocks[q].addr && SameFile(a.imgs[a.blocks[p].imgno], b.imgs[b.blocks[q].imgno])
  }
}
