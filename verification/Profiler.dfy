/** create_plain (identification/tools/profiler.cpp): a trace of basic blocks becomes a map from
    edge to first position and number of occurrences. */
module Profiler {
  import opened Options
  import opened Common
  import opened Edges
  import opened Images
  import opened OrderedKeys

  datatype Stat = Stat(pos: nat, count: nat)

  type Profile = map<Edge, Stat>

  /** A file of records, as the map walk writes it. */
  type ThreadFile = seq<(Edge, Stat)>

  // ---------------------------------------------------------------- what a trace says

  /** The edge taken at position i, from block i - 1 to block i. */
  function EdgeAt(trace: seq<Loc>, imgs: Table, i: nat): Edge
    requires 1 <= i < |trace|
  {
    Edge(trace[i - 1].addr, trace[i].addr, Number(imgs, trace[i - 1].imgno), Number(imgs, trace[i].imgno))
  }

  /** An edge leads from the address of one block to that of the next, and carries the numbers their
      images have in the table: an image that is missing there counts as number 0. */
  lemma EdgeIs(trace: seq<Loc>, imgs: Table, i: nat)
    requires 1 <= i < |trace|
    ensures var e, a, b := EdgeAt(trace, imgs, i), trace[i - 1], trace[i];
            && e.src == a.addr && e.dst == b.addr
            && e.imgsrc == (if a.imgno in imgs then imgs[a.imgno].seqno else 0)
            && e.imgdst == (if b.imgno in imgs then imgs[b.imgno].seqno else 0)
  {}

  /** How often e is taken at positions below n. */
  function Occurrences(trace: seq<Loc>, imgs: Table, e: Edge, n: nat): nat
    requires n <= |trace|
  {
    if n <= 1 then 0
    else Occurrences(trace, imgs, e, n - 1) + (if EdgeAt(trace, imgs, n - 1) == e then 1 else 0)
  }

  predicate FirstTaken(trace: seq<Loc>, imgs: Table, e: Edge, p: nat) {
    1 <= p < |trace| && EdgeAt(trace, imgs, p) == e && forall q :: 1 <= q < p ==> EdgeAt(trace, imgs, q) != e
  }

  /** A record of an edge among the positions below n: its first position and its count. */
  predicate Right(trace: seq<Loc>, imgs: Table, n: nat, e: Edge, s: Stat)
    requires n <= |trace|
  {
    FirstTaken(trace, imgs, e, s.pos) && s.pos < n && s.count == Occurrences(trace, imgs, e, n)
  }

  /** m holds the edges taken at positions below n, each with its first position and its count. */
  ghost predicate ProfileUpTo(trace: seq<Loc>, imgs: Table, n: nat, m: Profile)
    requires n <= |trace|
  {
    && (forall i :: 1 <= i < n ==> EdgeAt(trace, imgs, i) in m)
    && (forall e :: e in m ==> Right(trace, imgs, n, e, m[e]))
  }

  ghost predicate IsProfile(trace: seq<Loc>, imgs: Table, m: Profile) {
    ProfileUpTo(trace, imgs, |trace|, m)
  }

  // ---------------------------------------------------------------- the loop

  /** The trace, if it can be opened, and whether the profile can be: the edge map, the records
      written, and the number of edges. Without either file nothing is written and the result is -1. */
  method CreatePlain(trace: Option<seq<Loc>>, writable: bool, imgs: Table) returns (edges: Profile, file: Option<ThreadFile>, size: int)
    ensures file.Some? <==> trace.Some? && writable
    ensures file.Some? ==> IsProfile(trace.value, imgs, edges) && Lists(file.value, edges) && size == |file.value| == |edges|
    ensures file.Some? ==> Ascend(file.value)
    ensures file.None? ==> size == -1
    ensures size > 0 <==> trace.Some? && writable && |trace.value| >= 2
  {
    edges := map[];
    match trace
    case None => return edges, None, -1;
    case Some(blocks) =>
      if !writable {
        return edges, None, -1;
      }
      if |blocks| > 0 {
        edges := CountEdges(blocks, imgs);
      }
      EdgesTotal();
      var records := Items(EdgeLess, edges);
      ItemsAscend(edges);
      SomeEdgeIff(blocks, imgs, edges);
      file := Some(records);
      size := |records|;
  }

  /** A trace has an edge exactly when it has two blocks. */
  lemma SomeEdgeIff(trace: seq<Loc>, imgs: Table, m: Profile)
    requires IsProfile(trace, imgs, m)
    ensures |m| > 0 <==> |trace| >= 2
  {
    if |trace| >= 2 {
      assert EdgeAt(trace, imgs, 1) in m;
    }
    if e :| e in m {
      TwoBlocks(trace, imgs, m, e);
    }
  }

  lemma TwoBlocks(trace: seq<Loc>, imgs: Table, m: Profile, e: Edge)
    requires IsProfile(trace, imgs, m) && e in m
    ensures |trace| >= 2
  {
    assert Right(trace, imgs, |trace|, e, m[e]);
  }

  method CountEdges(trace: seq<Loc>, imgs: Table) returns (edges: Profile)
    requires |trace| > 0
    ensures IsProfile(trace, imgs, edges)
  {
    hide Right;
    edges := map[];
    var pb := trace[0];
    var count := 0;
    while count + 1 < |trace|
      invariant count < |trace| && pb == trace[count]
      invariant ProfileUpTo(trace, imgs, count + 1, edges)
    {
      count := count + 1;
      var b := trace[count];
      var e := Edge(pb.addr, b.addr, Number(imgs, pb.imgno), Number(imgs, b.imgno));
      TakenOnce(trace, imgs, count, e, edges);
      if e !in edges {
        edges := edges[e := Stat(count, 1)];
      } else {
        edges := edges[e := edges[e].(count := edges[e].count + 1)];
      }
      pb := b;
    }
  }

  lemma {:induction false} NotTaken(trace: seq<Loc>, imgs: Table, e: Edge, n: nat, m: Profile)
    requires n <= |trace| && e !in m
    requires forall i :: 1 <= i < n ==> EdgeAt(trace, imgs, i) in m
    ensures Occurrences(trace, imgs, e, n) == 0
  {
    if n > 1 {
      NotTaken(trace, imgs, e, n - 1, m);
    }
  }

  lemma OneMore(trace: seq<Loc>, imgs: Table, n: nat, e: Edge, s: Stat)
    requires 1 <= n < |trace| && Right(trace, imgs, n, e, s)
    ensures Right(trace, imgs, n + 1, e, if EdgeAt(trace, imgs, n) == e then s.(count := s.count + 1) else s)
  {
    hide EdgeAt;
  }

  /** One more position. */
  lemma TakenOnce(trace: seq<Loc>, imgs: Table, n: nat, e: Edge, m: Profile)
    requires 1 <= n < |trace| && ProfileUpTo(trace, imgs, n, m) && e == EdgeAt(trace, imgs, n)
    ensures ProfileUpTo(trace, imgs, n + 1, m[e := if e in m then m[e].(count := m[e].count + 1) else Stat(n, 1)])
  {
    hide EdgeAt, Right;
    forall f | f in m ensures Right(trace, imgs, n + 1, f, if e == f then m[f].(count := m[f].count + 1) else m[f]) {
      OneMore(trace, imgs, n, f, m[f]);
    }
    if e !in m {
      NotTaken(trace, imgs, e, n, m);
      NewEdge(trace, imgs, n);
    }
  }

  lemma NewEdge(trace: seq<Loc>, imgs: Table, n: nat)
    requires 1 <= n < |trace| && Occurrences(trace, imgs, EdgeAt(trace, imgs, n), n) == 0
    requires forall q :: 1 <= q < n ==> EdgeAt(trace, imgs, q) != EdgeAt(trace, imgs, n)
    ensures Right(trace, imgs, n + 1, EdgeAt(trace, imgs, n), Stat(n, 1))
  {
    hide EdgeAt;
  }

  // ---------------------------------------------------------------- conservation

  function SumCounts(file: ThreadFile): nat {
    if file == [] then 0 else file[0].1.count + SumCounts(file[1..])
  }

  /** How often the edges of a list are taken at positions below n, all together. */
  function TakenIn(trace: seq<Loc>, imgs: Table, file: ThreadFile, n: nat): nat
    requires n <= |trace|
  {
    if file == [] then 0 else Occurrences(trace, imgs, file[0].0, n) + TakenIn(trace, imgs, file[1..], n)
  }

  predicate Distinct(file: ThreadFile) {
    forall i, j :: 0 <= i < j < |file| ==> file[i].0 != file[j].0
  }

  predicate Listed(file: ThreadFile, e: Edge) {
    exists k :: 0 <= k < |file| && file[k].0 == e
  }

  /** Position n is counted by at most one record, and by one if its edge is listed. */
  lemma {:induction false} CountedOnce(trace: seq<Loc>, imgs: Table, file: ThreadFile, n: nat)
    requires 1 <= n < |trace| && Distinct(file)
    ensures var e := EdgeAt(trace, imgs, n);
            TakenIn(trace, imgs, file, n + 1) == TakenIn(trace, imgs, file, n)
              + if Listed(file, e) then 1 else 0
  {
    hide EdgeAt;
    if file != [] {
      var e := EdgeAt(trace, imgs, n);
      CountedOnce(trace, imgs, file[1..], n);
      if file[0].0 == e {
        forall k | 0 <= k < |file[1..]| ensures file[1..][k].0 != e {
          assert file[0].0 != file[k + 1].0;
        }
      } else if k :| 0 <= k < |file| && file[k].0 == e {
        assert file[1..][k - 1].0 == e;
      }
    }
  }

  lemma {:induction false} TakenIsPositions(trace: seq<Loc>, imgs: Table, file: ThreadFile, n: nat)
    requires 1 <= n <= |trace| && Distinct(file)
    requires forall i :: 1 <= i < n ==> Listed(file, EdgeAt(trace, imgs, i))
    ensures TakenIn(trace, imgs, file, n) == n - 1
  {
    hide EdgeAt;
    if n == 1 {
      NothingTaken(trace, imgs, file);
    } else {
      TakenIsPositions(trace, imgs, file, n - 1);
      CountedOnce(trace, imgs, file, n - 1);
    }
  }

  lemma {:induction false} NothingTaken(trace: seq<Loc>, imgs: Table, file: ThreadFile)
    requires 1 <= |trace|
    ensures TakenIn(trace, imgs, file, 1) == 0
  {
    if file != [] {
      NothingTaken(trace, imgs, file[1..]);
    }
  }

  lemma {:induction false} SumIsTaken(trace: seq<Loc>, imgs: Table, file: ThreadFile)
    requires forall k :: 0 <= k < |file| ==> file[k].1.count == Occurrences(trace, imgs, file[k].0, |trace|)
    ensures SumCounts(file) == TakenIn(trace, imgs, file, |trace|)
  {
    if file != [] {
      SumIsTaken(trace, imgs, file[1..]);
    }
  }

  /** Counting loses no occurrence: the counts sum to the number of blocks minus one. */
  lemma CountsConserved(trace: seq<Loc>, imgs: Table, m: Profile, file: ThreadFile)
    requires IsProfile(trace, imgs, m) && Lists(file, m)
    ensures SumCounts(file) == if trace == [] then 0 else |trace| - 1
  {
    hide EdgeAt;
    SumIsTaken(trace, imgs, file);
    if trace == [] {
      assert m.Keys == {};
    } else {
      forall i | 1 <= i < |trace| ensures Listed(file, EdgeAt(trace, imgs, i)) {
        assert EdgeAt(trace, imgs, i) in m;
      }
      TakenIsPositions(trace, imgs, file, |trace|);
    }
  }

  /** Positions tell the edges of a thread apart. */
  lemma PositionsDistinct(trace: seq<Loc>, imgs: Table, m: Profile, e: Edge, f: Edge)
    requires IsProfile(trace, imgs, m) && e in m && f in m && m[e].pos == m[f].pos
    ensures e == f
  {
    assert EdgeAt(trace, imgs, m[e].pos) == e;
    assert EdgeAt(trace, imgs, m[f].pos) == f;
  }

  /** An edge counted once is taken at its recorded position and nowhere else. */
  lemma CountOneIsOnly(trace: seq<Loc>, imgs: Table, m: Profile, e: Edge, q: nat)
    requires IsProfile(trace, imgs, m) && e in m && m[e].count == 1
    requires 1 <= q < |trace| && EdgeAt(trace, imgs, q) == e
    ensures q == m[e].pos
  {
    if q != m[e].pos {
      TakenTwice(trace, imgs, e, m[e].pos, q, |trace|);
    }
  }

  lemma {:induction false} TakenTwice(trace: seq<Loc>, imgs: Table, e: Edge, p: nat, q: nat, n: nat)
    requires 1 <= p < |trace| && 1 <= q < |trace| && p != q && n <= |trace|
    requires EdgeAt(trace, imgs, p) == e && EdgeAt(trace, imgs, q) == e
    ensures Occurrences(trace, imgs, e, n) >= (if p < n then 1 else 0) + (if q < n then 1 else 0)
  {
    if n > 1 {
      TakenTwice(trace, imgs, e, p, q, n - 1);
    }
  }
}
