/** The byte-order convertor (elfio_utils.hpp) and the file image of a field. */
module Endian {
  import opened Bytes

  // The mask-and-shift sums: each masked byte shifted to its mirrored place. The shifted
  // bytes do not overlap, so the source's bitwise "or" of them is their sum.

  function Swap16(v: nat): (r: nat)
    requires v < M16
  {
    v % 256 * 0x100 + v / 0x100 % 256
  }

  function Swap32(v: nat): (r: nat)
    requires v < M32
  {
    v % 256 * 0x100_0000 + v / 0x100 % 256 * 0x1_0000 + v / 0x1_0000 % 256 * 0x100 + v / 0x100_0000 % 256
  }

  function Swap64(v: nat): (r: nat)
    requires v < M64
  {
    v % 256 * 0x100_0000_0000_0000
    + v / 0x100 % 256 * 0x1_0000_0000_0000
    + v / 0x1_0000 % 256 * 0x100_0000_0000
    + v / 0x100_0000 % 256 * 0x1_0000_0000
    + v / 0x1_0000_0000 % 256 * 0x100_0000
    + v / 0x100_0000_0000 % 256 * 0x1_0000
    + v / 0x1_0000_0000_0000 % 256 * 0x100
    + v / 0x100_0000_0000_0000 % 256
  }

  /** The convertor's operator() for 1-, 2-, 4- and 8-byte operands. */
  function Convert(swap: bool, v: nat, width: nat): nat
    requires width in {1, 2, 4, 8} && v < Pow256(width)
  {
    PowValues();
    if !swap then v else
      match width
      case 2 => Swap16(v)
      case 4 => Swap32(v)
      case 8 => Swap64(v)
      case _ => v
  }

  lemma Le2(v: nat)
    ensures LE(v, 2) == [v % 256, v / 0x100 % 256]
  {
    assert LE(v / 256 / 256, 0) == [];
    assert LE(v / 256, 1) == [v / 256 % 256] + LE(v / 256 / 256, 0);
    assert LE(v, 2) == [v % 256] + LE(v / 256, 1);
  }

  lemma Le4(v: nat)
    ensures LE(v, 4) == [v % 256, v / 0x100 % 256, v / 0x1_0000 % 256, v / 0x100_0000 % 256]
  {
    var w := v / 256;
    var x := w / 256;
    Le2(x);
    assert LE(w, 3) == [w % 256] + LE(x, 2);
    assert LE(v, 4) == [v % 256] + LE(w, 3);
    assert x == v / 0x1_0000;
    assert x / 0x100 == v / 0x100_0000;
  }

  lemma Le8(v: nat)
    ensures LE(v, 8) == [v % 256, v / 0x100 % 256, v / 0x1_0000 % 256, v / 0x100_0000 % 256,
                         v / 0x1_0000_0000 % 256, v / 0x100_0000_0000 % 256,
                         v / 0x1_0000_0000_0000 % 256, v / 0x100_0000_0000_0000 % 256]
  {
    var a := v / 256; var b := a / 256; var c := b / 256; var d := c / 256;
    Le4(d);
    assert LE(c, 5) == [c % 256] + LE(d, 4);
    assert LE(b, 6) == [b % 256] + LE(c, 5);
    assert LE(a, 7) == [a % 256] + LE(b, 6);
    assert LE(v, 8) == [v % 256] + LE(a, 7);
    assert b == v / 0x1_0000 && c == v / 0x100_0000 && d == v / 0x1_0000_0000;
    assert d / 0x100 == v / 0x100_0000_0000 && d / 0x1_0000 == v / 0x1_0000_0000_0000
        && d / 0x100_0000 == v / 0x100_0000_0000_0000;
  }

  lemma From2(a: byte, b: byte)
    ensures FromLE([a, b]) == a + 0x100 * b
  {
    assert [a, b][1..] == [b] && [b][1..] == [];
    assert FromLE([b]) == b;
  }

  lemma From4(a: byte, b: byte, c: byte, d: byte)
    ensures FromLE([a, b, c, d]) == a + 0x100 * b + 0x1_0000 * c + 0x100_0000 * d
  {
    assert [a, b, c, d][1..] == [b, c, d] && [b, c, d][1..] == [c, d];
    From2(c, d);
    assert FromLE([b, c, d]) == b + 256 * FromLE([c, d]);
  }

  lemma From8(a: byte, b: byte, c: byte, d: byte, e: byte, f: byte, g: byte, h: byte)
    ensures FromLE([a, b, c, d, e, f, g, h])
         == a + 0x100 * b + 0x1_0000 * c + 0x100_0000 * d + 0x1_0000_0000 * e
            + 0x100_0000_0000 * f + 0x1_0000_0000_0000 * g + 0x100_0000_0000_0000 * h
  {
    From4(e, f, g, h);
    assert [a, b, c, d, e, f, g, h][1..] == [b, c, d, e, f, g, h];
    assert [b, c, d, e, f, g, h][1..] == [c, d, e, f, g, h];
    assert [c, d, e, f, g, h][1..] == [d, e, f, g, h];
    assert [d, e, f, g, h][1..] == [e, f, g, h];
    assert FromLE([d, e, f, g, h]) == d + 256 * FromLE([e, f, g, h]);
    assert FromLE([c, d, e, f, g, h]) == c + 256 * FromLE([d, e, f, g, h]);
    assert FromLE([b, c, d, e, f, g, h]) == b + 256 * FromLE([c, d, e, f, g, h]);
  }

  /** What the convertor means: the word whose bytes stand in the opposite order. */
  lemma ConvertReverses(v: nat, width: nat)
    requires width in {1, 2, 4, 8} && v < Pow256(width)
    ensures Convert(true, v, width) == FromLE(Reverse(LE(v, width)))
  {
    PowValues();
    if width == 1 {
      assert LE(v, 1) == [v % 256] + LE(v / 256, 0) == [v];
      assert Reverse([v]) == [v] && [v][1..] == [];
      assert FromLE([v]) == v;
    } else if width == 2 {
      Le2(v);
      var d := LE(v, 2);
      assert Reverse(d) == [d[1], d[0]];
      From2(d[1], d[0]);
    } else if width == 4 {
      Le4(v);
      var d := LE(v, 4);
      assert Reverse(d) == [d[3], d[2], d[1], d[0]];
      From4(d[3], d[2], d[1], d[0]);
    } else {
      Le8(v);
      var d := LE(v, 8);
      assert Reverse(d) == [d[7], d[6], d[5], d[4], d[3], d[2], d[1], d[0]];
      From8(d[7], d[6], d[5], d[4], d[3], d[2], d[1], d[0]);
    }
  }

  lemma ConvertFits(swap: bool, v: nat, width: nat)
    requires width in {1, 2, 4, 8} && v < Pow256(width)
    ensures Convert(swap, v, width) < Pow256(width)
  {
    if swap {
      ConvertReverses(v, width);
      FromLEBound(Reverse(LE(v, width)));
    }
  }

  /** Converting twice gives the value back: a getter undoes its setter. */
  lemma ConvertInvolution(swap: bool, v: nat, width: nat)
    requires width in {1, 2, 4, 8} && v < Pow256(width)
    ensures Convert(swap, v, width) < Pow256(width)
    ensures Convert(swap, Convert(swap, v, width), width) == v
  {
    ConvertFits(swap, v, width);
    if swap {
      var w := Convert(true, v, width);
      var d := LE(v, width);
      ConvertReverses(v, width);
      ConvertReverses(w, width);
      LoadStore(Reverse(d));
      assert LE(w, width) == Reverse(d);
      assert Reverse(Reverse(d)) == d;
      StoreLoad(v, width);
    }
  }

  // ---------------------------------------------------------------- file image of a field

  /** The bytes a field occupies in a file: the converted value as the host stores it. */
  function FieldBytes(swap: bool, v: nat, width: nat): (s: seq<byte>)
    requires width in {1, 2, 4, 8} && v < Pow256(width)
    ensures |s| == width
  {
    LE(Convert(swap, v, width), width)
  }

  function FieldValue(swap: bool, s: seq<byte>): nat
    requires |s| in {1, 2, 4, 8}
  {
    FromLEBound(s);
    Convert(swap, FromLE(s), |s|)
  }

  lemma FieldRoundTrip(swap: bool, v: nat, width: nat)
    requires width in {1, 2, 4, 8} && v < Pow256(width)
    ensures FieldValue(swap, FieldBytes(swap, v, width)) == v
  {
    ConvertInvolution(swap, v, width);
    StoreLoad(Convert(swap, v, width), width);
  }

  /** With conversion on (the file's encoding is not the host's) the field is stored
      most significant byte first; with conversion off, least significant byte first. */
  lemma FieldOrder(swap: bool, v: nat, width: nat)
    requires width in {1, 2, 4, 8} && v < Pow256(width)
    ensures FieldBytes(swap, v, width) == if swap then Reverse(LE(v, width)) else LE(v, width)
  {
    if swap {
      ConvertReverses(v, width);
      LoadStore(Reverse(LE(v, width)));
    }
  }
}
