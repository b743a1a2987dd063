/** Structs as sequences of fields: the memory image written by save and read by load. */
module Pack {
  import opened Bytes
  import opened Endian

  predicate Width(w: nat) { w in {1, 2, 4, 8} }

  predicate Widths(ws: seq<nat>) { forall k :: 0 <= k < |ws| ==> Width(ws[k]) }

  predicate Fits(vs: seq<nat>, ws: seq<nat>) {
    Widths(ws) && |vs| == |ws| && forall k :: 0 <= k < |vs| ==> vs[k] < Pow256(ws[k])
  }

  function Size(ws: seq<nat>): nat {
    if ws == [] then 0 else ws[0] + Size(ws[1..])
  }

  function Image(swap: bool, vs: seq<nat>, ws: seq<nat>): (s: seq<byte>)
    requires Fits(vs, ws)
    ensures |s| == Size(ws)
  {
    if vs == [] then [] else FieldBytes(swap, vs[0], ws[0]) + Image(swap, vs[1..], ws[1..])
  }

  function Fields(swap: bool, s: seq<byte>, ws: seq<nat>): (vs: seq<nat>)
    requires Widths(ws) && Size(ws) <= |s|
    ensures |vs| == |ws|
  {
    if ws == [] then [] else
      [FieldValue(swap, s[..ws[0]])] + Fields(swap, s[ws[0]..], ws[1..])
  }

  lemma FieldsCons(swap: bool, head: seq<byte>, rest: seq<byte>, w: nat, ws: seq<nat>)
    requires Width(w) && Widths(ws) && |head| == w && Size(ws) <= |rest|
    ensures Widths([w] + ws) && Size([w] + ws) == w + Size(ws)
    ensures Fields(swap, head + rest, [w] + ws) == [FieldValue(swap, head)] + Fields(swap, rest, ws)
  {
    assert ([w] + ws)[1..] == ws;
    assert (head + rest)[..w] == head && (head + rest)[w..] == rest;
  }

  lemma {:induction false} ImageRoundTrip(swap: bool, vs: seq<nat>, ws: seq<nat>, rest: seq<byte>)
    requires Fits(vs, ws)
    ensures Fields(swap, Image(swap, vs, ws) + rest, ws) == vs
  {
    hide FieldBytes, FieldValue, Pow256;
    if vs != [] {
      hide Fields;
      var tail := Image(swap, vs[1..], ws[1..]);
      assert Image(swap, vs, ws) + rest == FieldBytes(swap, vs[0], ws[0]) + (tail + rest);
      FieldsCons(swap, FieldBytes(swap, vs[0], ws[0]), tail + rest, ws[0], ws[1..]);
      assert [ws[0]] + ws[1..] == ws;
      FieldRoundTrip(swap, vs[0], ws[0]);
      ImageRoundTrip(swap, vs[1..], ws[1..], rest);
    }
  }

  /** Field values read from any bytes fit their widths. */
  lemma {:induction false} FieldsFit(swap: bool, s: seq<byte>, ws: seq<nat>)
    requires Widths(ws) && Size(ws) <= |s|
    ensures Fits(Fields(swap, s, ws), ws)
  {
    if ws != [] {
      FromLEBound(s[..ws[0]]);
      ConvertFits(swap, FromLE(s[..ws[0]]), ws[0]);
      FieldsFit(swap, s[ws[0]..], ws[1..]);
    }
  }

  lemma OneByteReads(swap: bool, b: byte)
    ensures FieldValue(swap, [b]) == b
  {
    PowValues();
    assert FromLE([b]) == b + 256 * FromLE([b][1..]) && [b][1..] == [];
    assert FromLE([]) == 0;
  }

  /** One-byte fields read as they stand. */
  lemma {:induction false} BytesRead(swap: bool, s: seq<byte>, ws: seq<nat>, n: nat, k: nat)
    requires Widths(ws) && Size(ws) <= |s| && n <= |ws| && (forall i :: 0 <= i < n ==> ws[i] == 1) && k < n
    ensures k < |s| && Fields(swap, s, ws)[k] == s[k]
    decreases n
  {
    hide FieldValue;
    if k == 0 {
      assert s[..1] == [s[0]];
      OneByteReads(swap, s[0]);
    } else {
      BytesRead(swap, s[1..], ws[1..], n - 1, k - 1);
    }
  }

  // ---------------------------------------------------------------- signed words

  /** The unsigned word holding x in two's complement. */
  function Unsigned(x: int, width: nat): (v: nat)
    requires Width(width)
    ensures v < Pow256(width)
  {
    x % Pow256(width)
  }

  function Signed(v: nat, width: nat): int
    requires Width(width) && v < Pow256(width)
  {
    if 2 * v < Pow256(width) then v else v - Pow256(width)
  }

  predicate SignedFits(x: int, width: nat)
    requires Width(width)
  {
    0 <= 2 * x + Pow256(width) && 2 * x < Pow256(width)
  }

  lemma SignedRoundTrip(x: int, width: nat)
    requires Width(width) && SignedFits(x, width)
    ensures Signed(Unsigned(x, width), width) == x
  {
    var p := Pow256(width);
    if x < 0 {
      assert x % p == x + p by { assert (x + p) / p == 0; assert x == -1 * p + (x + p); }
    } else {
      assert x % p == x;
    }
  }
}
