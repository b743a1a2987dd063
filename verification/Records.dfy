/** Records of fixed-width fields in a sequence of bytes: where each field stands, and how. */
module Records {
  import opened Bytes
  import opened Endian
  import opened Pack

  /** Word v of w bytes stands at position at, least significant byte first or last. */
  predicate At(f: seq<byte>, at: nat, v: nat, w: nat, lsb: bool) {
    at + w <= |f| && f[at..at + w] == if lsb then LE(v, w) else Reverse(LE(v, w))
  }

  /** Where field k of a record stands. */
  function Offset(ws: seq<nat>, k: nat): nat
    requires k <= |ws|
  {
    if k == 0 then 0 else Offset(ws, k - 1) + ws[k - 1]
  }

  lemma NextOffset(ws: seq<nat>)
    ensures Offset(ws, 0) == 0 && forall k :: 0 < k <= |ws| ==> Offset(ws, k) == Offset(ws, k - 1) + ws[k - 1]
  {}

  lemma {:induction false} OffsetTail(ws: seq<nat>, k: nat)
    requires 0 < k <= |ws|
    ensures Offset(ws, k) == ws[0] + Offset(ws[1..], k - 1)
  {
    if k > 1 {
      OffsetTail(ws, k - 1);
    }
  }

  lemma Parts(f: seq<byte>, at: nat, head: seq<byte>, tail: seq<byte>)
    requires at + |head| + |tail| <= |f| && f[at..at + |head| + |tail|] == head + tail
    ensures f[at..at + |head|] == head && f[at + |head|..at + |head| + |tail|] == tail
  {
    var g := f[at..at + |head| + |tail|];
    assert g[..|head|] == head && g[|head|..] == tail;
    assert f[at..at + |head|] == g[..|head|];
    assert f[at + |head|..at + |head| + |tail|] == g[|head|..];
  }

  lemma FirstField(f: seq<byte>, at: nat, swap: bool, vs: seq<nat>, ws: seq<nat>)
    requires Fits(vs, ws) && vs != []
    requires at + Size(ws) <= |f| && f[at..at + Size(ws)] == Image(swap, vs, ws)
    ensures Size(ws) == ws[0] + Size(ws[1..])
    ensures f[at..at + ws[0]] == FieldBytes(swap, vs[0], ws[0])
    ensures f[at + ws[0]..at + Size(ws)] == Image(swap, vs[1..], ws[1..])
  {
    hide FieldBytes;
    Parts(f, at, FieldBytes(swap, vs[0], ws[0]), Image(swap, vs[1..], ws[1..]));
  }

  lemma {:induction false} FieldAt(f: seq<byte>, at: nat, swap: bool, vs: seq<nat>, ws: seq<nat>, k: nat)
    requires Fits(vs, ws) && k < |vs|
    requires at + Size(ws) <= |f| && f[at..at + Size(ws)] == Image(swap, vs, ws)
    ensures At(f, at + Offset(ws, k), vs[k], ws[k], !swap)
    decreases k
  {
    hide FieldBytes, Image, Size;
    FirstField(f, at, swap, vs, ws);
    if k == 0 {
      FieldOrder(swap, vs[0], ws[0]);
    } else {
      hide At;
      FieldAt(f, at + ws[0], swap, vs[1..], ws[1..], k - 1);
      OffsetTail(ws, k);
    }
  }

  /** The bytes of one record in the file, and all its fields. */
  ghost predicate Record(f: seq<byte>, at: nat, swap: bool, vs: seq<nat>, ws: seq<nat>) {
    && Fits(vs, ws) && at + Size(ws) <= |f|
    && f[at..at + Size(ws)] == Image(swap, vs, ws)
  }

  ghost predicate FieldsAt(f: seq<byte>, at: nat, vs: seq<nat>, ws: seq<nat>, lsb: bool)
    requires |vs| == |ws|
  {
    forall k :: 0 <= k < |vs| ==> At(f, at + Offset(ws, k), vs[k], ws[k], lsb)
  }

  lemma RecordFields(f: seq<byte>, at: nat, swap: bool, vs: seq<nat>, ws: seq<nat>)
    requires Record(f, at, swap, vs, ws)
    ensures FieldsAt(f, at, vs, ws, !swap)
  {
    hide At, Offset;
    forall k | 0 <= k < |vs| ensures At(f, at + Offset(ws, k), vs[k], ws[k], !swap) {
      FieldAt(f, at, swap, vs, ws, k);
    }
  }

  lemma {:induction false} IdentOffsets(ws: seq<nat>, k: nat)
    requires k <= |ws| && forall i :: 0 <= i < k ==> ws[i] == 1
    ensures Offset(ws, k) == k
  {
    if k > 0 {
      IdentOffsets(ws, k - 1);
    }
  }

  // ---------------------------------------------------------------- records of any bytes

  lemma FieldOfBytes(swap: bool, s: seq<byte>)
    requires |s| in {1, 2, 4, 8}
    ensures FieldValue(swap, s) < Pow256(|s|) && FieldBytes(swap, FieldValue(swap, s), |s|) == s
  {
    FromLEBound(s);
    ConvertFits(swap, FromLE(s), |s|);
    ConvertInvolution(swap, FromLE(s), |s|);
    LoadStore(s);
  }

  lemma NextField(swap: bool, s: seq<byte>, ws: seq<nat>)
    requires ws != [] && Widths(ws) && Size(ws) <= |s|
    ensures ws[0] in {1, 2, 4, 8} && Widths(ws[1..]) && Size(ws) == ws[0] + Size(ws[1..])
    ensures Fields(swap, s, ws) == [FieldValue(swap, s[..ws[0]])] + Fields(swap, s[ws[0]..], ws[1..])
  {
    hide FieldValue;
  }

  lemma ImageCons(swap: bool, v: nat, vs: seq<nat>, ws: seq<nat>)
    requires ws != [] && Width(ws[0]) && v < Pow256(ws[0]) && Fits(vs, ws[1..])
    ensures Fits([v] + vs, ws) && Image(swap, [v] + vs, ws) == FieldBytes(swap, v, ws[0]) + Image(swap, vs, ws[1..])
  {
    hide FieldBytes, Pow256;
    assert ([v] + vs)[1..] == vs;
    assert ws == [ws[0]] + ws[1..];
  }

  /** Writing the fields read from some bytes gives the bytes. */
  lemma {:induction false} ImageOfFields(swap: bool, s: seq<byte>, ws: seq<nat>)
    requires Widths(ws) && Size(ws) <= |s|
    ensures Fits(Fields(swap, s, ws), ws) && Image(swap, Fields(swap, s, ws), ws) == s[..Size(ws)]
  {
    hide FieldBytes, FieldValue, Pow256;
    if ws != [] {
      hide Fields, Image, Size, Fits, Widths;
      var head, tail := s[..ws[0]], s[ws[0]..];
      NextField(swap, s, ws);
      FieldOfBytes(swap, head);
      ImageOfFields(swap, tail, ws[1..]);
      ImageCons(swap, FieldValue(swap, head), Fields(swap, tail, ws[1..]), ws);
      assert s[..Size(ws)] == head + tail[..Size(ws[1..])];
    }
  }

  lemma RecordOf(swap: bool, s: seq<byte>, ws: seq<nat>)
    requires Widths(ws) && Size(ws) <= |s|
    ensures Record(s, 0, swap, Fields(swap, s, ws), ws)
  {
    ImageOfFields(swap, s, ws);
    assert s[0..0 + Size(ws)] == s[..Size(ws)];
  }
}
