/** Bytes, fixed-width words and C strings, as the ELF writer and the call-stack
    dumper lay them out in memory and in files. */
module Bytes {

  type byte = x: int | 0 <= x < 256

  const M16: nat := 0x1_0000
  const M32: nat := 0x1_0000_0000
  const M64: nat := 0x1_0000_0000_0000_0000

  /** The value a 64-bit unsigned computation leaves behind. */
  function W64(x: int): (r: nat)
    ensures r < M64
  {
    x % M64
  }

  function Pow256(n: nat): (p: nat)
    ensures p > 0
  {
    if n == 0 then 1 else 256 * Pow256(n - 1)
  }

  /** The n-byte little-endian image of v, what a store of an n-byte word leaves in memory
      on the little-endian hosts the tools run on. */
  function LE(v: nat, n: nat): (s: seq<byte>)
    ensures |s| == n
  {
    if n == 0 then [] else [v % 256] + LE(v / 256, n - 1)
  }

  /** The word a little-endian load of s yields. */
  function FromLE(s: seq<byte>): nat {
    if s == [] then 0 else s[0] + 256 * FromLE(s[1..])
  }

  function Reverse(s: seq<byte>): (r: seq<byte>)
    ensures |r| == |s|
    ensures forall k :: 0 <= k < |s| ==> r[k] == s[|s| - 1 - k]
  {
    seq(|s|, k requires 0 <= k < |s| => s[|s| - 1 - k])
  }

  lemma PowValues()
    ensures Pow256(1) == 0x100 && Pow256(2) == M16 && Pow256(4) == M32 && Pow256(8) == M64
  {
    assert Pow256(3) == 0x1_00_0000;
    assert Pow256(4) == M32;
    assert Pow256(5) == 0x100_0000_0000;
    assert Pow256(6) == 0x1_0000_0000_0000;
    assert Pow256(7) == 0x100_0000_0000_0000;
  }

  lemma {:induction false} FromLEBound(s: seq<byte>)
    ensures FromLE(s) < Pow256(|s|)
  {
    if s != [] {
      FromLEBound(s[1..]);
    }
  }

  /** A stored word reads back, as long as it fits the width. */
  lemma {:induction false} StoreLoad(v: nat, n: nat)
    requires v < Pow256(n)
    ensures FromLE(LE(v, n)) == v
  {
    if n > 0 {
      StoreLoad(v / 256, n - 1);
      assert LE(v, n)[1..] == LE(v / 256, n - 1);
    }
  }

  /** Reading a word and storing it again reproduces the bytes. */
  lemma {:induction false} LoadStore(s: seq<byte>)
    ensures LE(FromLE(s), |s|) == s
  {
    if s != [] {
      LoadStore(s[1..]);
      assert FromLE(s) % 256 == s[0] && FromLE(s) / 256 == FromLE(s[1..]);
      assert s == [s[0]] + s[1..];
    }
  }

  // ---------------------------------------------------------------- C strings

  /** The characters before the first NUL: what strlen and c_str see. */
  function CStr(s: seq<byte>): (r: seq<byte>)
    ensures r <= s && 0 !in r
    ensures r == s || s[|r|] == 0
  {
    if s == [] || s[0] == 0 then [] else
      var t := CStr(s[1..]);
      assert [s[0]] + t <= [s[0]] + s[1..] == s;
      [s[0]] + t
  }

  /** A C string is decided by its terminator: what follows it does not matter. */
  lemma {:induction false} CStrTerminated(t: seq<byte>, rest: seq<byte>)
    requires 0 !in t
    ensures CStr(t + [0] + rest) == t
  {
    if t == [] {
      assert (t + [0] + rest)[0] == 0;
    } else {
      assert t + [0] + rest == [t[0]] + (t[1..] + [0] + rest);
      CStrTerminated(t[1..], rest);
    }
  }

  lemma CStrStable(s: seq<byte>, rest: seq<byte>)
    requires 0 in s
    ensures CStr(s + rest) == CStr(s)
  {
    var t := CStr(s);
    assert t != s;
    assert s[|t|] == 0;
    assert s + rest == t + [0] + (s[|t| + 1..] + rest);
    CStrTerminated(t, s[|t| + 1..] + rest);
  }
}
