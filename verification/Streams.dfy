/** Seekable binary streams: std::ostream with seekp/write and std::istream with seekg/read. */
module Streams {
  import opened Bytes

  function Zeros(n: int): (s: seq<byte>)
    ensures |s| == if n > 0 then n else 0
    ensures forall k :: 0 <= k < |s| ==> s[k] == 0
  {
    seq(if n > 0 then n else 0, k => 0 as byte)
  }

  // ---------------------------------------------------------------- positioned writes

  /** File f after chunk is written at pos; a gap before pos is filled with zeros. */
  function WriteAt(f: seq<byte>, pos: nat, chunk: seq<byte>): (g: seq<byte>)
    ensures chunk != [] ==> |g| == if pos + |chunk| > |f| then pos + |chunk| else |f|
    ensures chunk == [] ==> g == f
    ensures pos + |chunk| <= |g| || chunk == []
  {
    if chunk == [] then f else
      var g := f + Zeros(pos + |chunk| - |f|);
      g[..pos] + chunk + g[pos + |chunk|..]
  }

  /** One positioned write. */
  datatype Chunk = Chunk(pos: nat, bytes: seq<byte>) {
    function End(): nat { pos + |bytes| }
    predicate Covers(p: nat) { pos <= p < End() }
  }

  predicate Apart(a: Chunk, b: Chunk) {
    a.bytes == [] || b.bytes == [] || a.End() <= b.pos || b.End() <= a.pos
  }

  function WriteAll(f: seq<byte>, chunks: seq<Chunk>): seq<byte> {
    if chunks == [] then f else
      var last := chunks[|chunks| - 1];
      WriteAt(WriteAll(f, chunks[..|chunks| - 1]), last.pos, last.bytes)
  }

  /** f holds the bytes of c at its place. */
  predicate Holds(f: seq<byte>, c: Chunk) {
    c.bytes == [] || (c.End() <= |f| && f[c.pos..c.End()] == c.bytes)
  }

  predicate PairwiseApart(chunks: seq<Chunk>) {
    forall i, j :: 0 <= i < j < |chunks| ==> Apart(chunks[i], chunks[j])
  }

  lemma WriteHolds(f: seq<byte>, c: Chunk)
    ensures Holds(WriteAt(f, c.pos, c.bytes), c)
  {
    if c.bytes != [] {
      var g := f + Zeros(c.End() - |f|);
      assert WriteAt(f, c.pos, c.bytes) == g[..c.pos] + c.bytes + g[c.End()..];
    }
  }

  lemma WriteKeeps(f: seq<byte>, c: Chunk, d: Chunk)
    requires Holds(f, c) && Apart(c, d)
    ensures Holds(WriteAt(f, d.pos, d.bytes), c)
  {
    if c.bytes != [] && d.bytes != [] {
      var g := f + Zeros(d.End() - |f|);
      var r := WriteAt(f, d.pos, d.bytes);
      assert r == g[..d.pos] + d.bytes + g[d.End()..];
      forall k | c.pos <= k < c.End() ensures r[k] == c.bytes[k - c.pos] {
        assert r[k] == g[k] == f[k];
        assert f[k] == f[c.pos..c.End()][k - c.pos];
      }
      assert r[c.pos..c.End()] == c.bytes;
    }
  }

  /** Writes to pairwise disjoint places all survive, whatever their order. */
  lemma {:induction false} AllHeld(f: seq<byte>, chunks: seq<Chunk>, i: nat)
    requires i < |chunks| && PairwiseApart(chunks)
    ensures Holds(WriteAll(f, chunks), chunks[i])
  {
    var n := |chunks| - 1;
    var init := chunks[..n];
    var last := chunks[n];
    if i == n {
      WriteHolds(WriteAll(f, init), last);
    } else {
      AllHeld(f, init, i);
      assert Apart(chunks[i], chunks[n]);
      WriteKeeps(WriteAll(f, init), chunks[i], last);
    }
  }

  /** A place no write covers is a hole: it reads as zero in a file written from scratch. */
  lemma {:induction false} Hole(chunks: seq<Chunk>, p: nat)
    requires p < |WriteAll([], chunks)|
    requires forall i :: 0 <= i < |chunks| ==> !chunks[i].Covers(p)
    ensures WriteAll([], chunks)[p] == 0
  {
    if chunks != [] {
      var n := |chunks| - 1;
      var f := WriteAll([], chunks[..n]);
      var c := chunks[n];
      assert !c.Covers(p);
      if p < |f| {
        assert forall i :: 0 <= i < n ==> chunks[..n][i] == chunks[i];
        Hole(chunks[..n], p);
      }
      if c.bytes != [] {
        var g := f + Zeros(c.End() - |f|);
        assert WriteAll([], chunks) == g[..c.pos] + c.bytes + g[c.End()..];
      }
    }
  }

  lemma WriteAllStep(f: seq<byte>, chunks: seq<Chunk>, c: Chunk)
    ensures WriteAll(f, chunks + [c]) == WriteAt(WriteAll(f, chunks), c.pos, c.bytes)
  {
    assert (chunks + [c])[..|chunks|] == chunks;
  }

  lemma {:induction false} WriteAllAppend(f: seq<byte>, a: seq<Chunk>, b: seq<Chunk>)
    ensures WriteAll(WriteAll(f, a), b) == WriteAll(f, a + b)
  {
    if b == [] {
      assert a + b == a;
    } else {
      var n := |b| - 1;
      WriteAllAppend(f, a, b[..n]);
      assert (a + b)[..|a| + n] == a + b[..n];
    }
  }

  class OutputFile {
    var bytes: seq<byte>
    var pos: nat

    constructor ()
      ensures bytes == [] && pos == 0
    {
      bytes := [];
      pos := 0;
    }

    method Seekp(p: nat)
      modifies this`pos
      ensures pos == p
    {
      pos := p;
    }

    method Write(chunk: seq<byte>)
      modifies this
      ensures bytes == WriteAt(old(bytes), old(pos), chunk)
      ensures pos == old(pos) + |chunk|
    {
      bytes := WriteAt(bytes, pos, chunk);
      pos := pos + |chunk|;
    }
  }

  // ---------------------------------------------------------------- reads

  /** What a std::istream over a file remembers: once a read falls short the stream is
      failed, and every later seek or read does nothing. */
  datatype In = In(bytes: seq<byte>, pos: nat, fail: bool) {
    /** Offsets of 2^63 and more are negative as std::streamoff and fail the seek. */
    function Seek(p: nat): In {
      if fail then this
      else if p >= 0x8000_0000_0000_0000 then this.(fail := true)
      else this.(pos := p)
    }

    function Take(n: nat): (chunk: seq<byte>)
      ensures |chunk| <= n
    {
      if fail || pos >= |bytes| then []
      else if pos + n <= |bytes| then bytes[pos..pos + n]
      else bytes[pos..]
    }

    function Read(n: nat): In {
      this.(pos := pos + |Take(n)|, fail := fail || |Take(n)| < n)
    }
  }

  class InputFile {
    var state: In

    constructor (bytes: seq<byte>)
      ensures state == In(bytes, 0, false)
    {
      state := In(bytes, 0, false);
    }

    method Seekg(p: nat)
      modifies this
      ensures state == old(state).Seek(p)
    {
      state := state.Seek(p);
    }

    /** seekg to the end followed by tellg, which yields -1 on a failed stream. */
    method StreamSize() returns (size: nat)
      modifies this
      ensures size == if old(state).fail then M64 - 1 else |old(state).bytes|
      ensures state == if old(state).fail then old(state) else old(state).(pos := |old(state).bytes|)
    {
      if state.fail {
        size := M64 - 1;
      } else {
        size := |state.bytes|;
        state := state.(pos := |state.bytes|);
      }
    }

    method Read(n: nat) returns (chunk: seq<byte>)
      modifies this
      ensures chunk == old(state).Take(n)
      ensures state == old(state).Read(n)
    {
      chunk := state.Take(n);
      state := state.Read(n);
    }
  }
}
