/** The System V hash of a symbol name (elf_hash, elfio_utils.hpp). */
module NameHash {
  import opened Bytes

  function Bits(ch: byte): bv32 { ch as bv32 }

  function High(h: bv32): bv32 { h & 0xf000_0000 }

  /** The top four bits are folded back and cleared. */
  function Fold(h: bv32): bv32 {
    var g := High(h);
    (if g != 0 then h ^ (g >> 24) else h) & !g
  }

  /** One round of elf_hash. */
  function HashStep(h: bv32, ch: bv32): bv32 { Fold((h << 4) + ch) }

  function ElfHash(s: seq<byte>): bv32 {
    if s == [] then 0 else HashStep(ElfHash(s[..|s| - 1]), Bits(s[|s| - 1]))
  }

  lemma HashStepBound(h: bv32, ch: bv32)
    ensures HashStep(h, ch) < 0x1000_0000
  {}

  /** Every hash value is below 2^28. */
  lemma HashBound(s: seq<byte>)
    ensures ElfHash(s) < 0x1000_0000
  {
    hide Bits, HashStep;
    if s != [] {
      HashStepBound(ElfHash(s[..|s| - 1]), Bits(s[|s| - 1]));
    }
  }

  lemma HashEmpty(s: seq<byte>)
    ensures ElfHash(s[..0]) == 0
  {}

  lemma HashPrefix(s: seq<byte>, k: nat)
    requires k < |s|
    ensures ElfHash(s[..k + 1]) == HashStep(ElfHash(s[..k]), Bits(s[k]))
  {
    hide Bits, HashStep;
    assert s[..k + 1][..k] == s[..k];
  }

  /** A character taken in as the next digit of base 16, in 32 bits. */
  function Digit(h: bv32, ch: bv32): bv32 { 16 * h + ch }

  /** The low 28 bits of v, with its top four bits exclusive-or'ed into bits 4 to 7. */
  function Folded(v: bv32): bv32 { (v & 0x0fff_ffff) ^ ((v >> 28) << 4) }

  lemma Shifted(h: bv32, ch: bv32)
    ensures (h << 4) + ch == Digit(h, ch)
  {}

  lemma TopBits(v: bv32)
    ensures High(v) >> 24 == (v >> 28) << 4 && (v >> 28) << 4 < 0x100
  {}

  lemma NoTopBits(v: bv32)
    requires High(v) == 0
    ensures v & !High(v) == v & 0x0fff_ffff && (v >> 28) << 4 == 0
  {}

  lemma Cleared(v: bv32, w: bv32)
    requires w < 0x100
    ensures (v ^ w) & !High(v) == (v & 0x0fff_ffff) ^ w
  {}

  lemma NothingToFold(v: bv32)
    requires High(v) == 0
    ensures Fold(v) == Folded(v)
  {
    hide High;
    NoTopBits(v);
  }

  lemma SomethingToFold(v: bv32)
    requires High(v) != 0
    ensures Fold(v) == Folded(v)
  {
    hide High;
    TopBits(v);
    Cleared(v, High(v) >> 24);
  }

  lemma FoldIsFolded(v: bv32)
    ensures Fold(v) == Folded(v)
  {
    hide Fold, Folded, High;
    if High(v) == 0 {
      NothingToFold(v);
    } else {
      SomethingToFold(v);
    }
  }

  lemma StepFolds(h: bv32, ch: bv32)
    ensures HashStep(h, ch) == Folded(Digit(h, ch))
  {
    hide Fold, Folded, Digit;
    Shifted(h, ch);
    FoldIsFolded(Digit(h, ch));
  }

  /** What the hash of a string is: its characters are digits of base 16, and what overflows 28 bits
      at a character is folded into bits 4 to 7. */
  lemma HashFolds(s: seq<byte>, k: nat)
    requires k < |s|
    ensures ElfHash(s[..0]) == 0 && ElfHash(s[..k + 1]) == Folded(Digit(ElfHash(s[..k]), Bits(s[k])))
  {
    hide Bits, HashStep, Folded, Digit, ElfHash;
    HashEmpty(s);
    HashPrefix(s, k);
    StepFolds(ElfHash(s[..k]), Bits(s[k]));
  }

  /** The string as a number of base 16. */
  function Digits(s: seq<byte>): bv32 {
    if s == [] then 0 else Digit(Digits(s[..|s| - 1]), Bits(s[|s| - 1]))
  }

  predicate Ascii(s: seq<byte>) { forall k :: 0 <= k < |s| ==> s[k] < 0x80 }

  /** The largest number of n <= 6 ASCII digits. */
  function Largest(n: nat): bv32 {
    match n
    case 0 => 0
    case 1 => 0x7f
    case 2 => 0x86f
    case 3 => 0x876f
    case 4 => 0x8_776f
    case 5 => 0x87_776f
    case _ => 0x877_776f
  }

  lemma LowFolded(v: bv32)
    requires v < 0x1000_0000
    ensures Folded(v) == v
  {}

  lemma SmallDigit(h: bv32, ch: bv32)
    requires h < 0xf0_0000 && ch < 0x80
    ensures Digit(h, ch) < 0x1000_0000
  {}

  lemma NoFold(h: bv32, ch: bv32)
    requires h < 0xf0_0000 && ch < 0x80
    ensures HashStep(h, ch) == Digit(h, ch)
  {
    hide HashStep, Digit, Folded;
    StepFolds(h, ch);
    SmallDigit(h, ch);
    LowFolded(Digit(h, ch));
  }

  lemma NextLargest(h: bv32, ch: bv32, n: nat)
    requires n < 6 && h <= Largest(n) && ch < 0x80
    ensures h < 0xf0_0000 && Digit(h, ch) <= Largest(n + 1)
  {}

  lemma AsciiBits(ch: byte)
    requires ch < 0x80
    ensures Bits(ch) < 0x80
  {}

  lemma NoDigits()
    ensures ElfHash([]) == Digits([]) == Largest(0)
  {}

  /** A name of at most six ASCII characters is its hash: nothing is folded or cut off. */
  lemma {:induction false} ShortHash(s: seq<byte>)
    requires |s| <= 6 && Ascii(s)
    ensures ElfHash(s) == Digits(s) <= Largest(|s|)
  {
    hide Bits, HashStep, Largest, Digit;
    if s == [] {
      NoDigits();
    } else {
      var n := |s| - 1;
      ShortHash(s[..n]);
      AsciiBits(s[n]);
      NextLargest(Digits(s[..n]), Bits(s[n]), n);
      NoFold(Digits(s[..n]), Bits(s[n]));
    }
  }

  /** "strrchr" */
  const STRRCHR: seq<byte> := [0x73, 0x74, 0x72, 0x72, 0x63, 0x68, 0x72]

  lemma Characters()
    ensures Bits(0x63) == 0x63 && Bits(0x68) == 0x68 && Bits(0x72) == 0x72 && Bits(0x73) == 0x73 && Bits(0x74) == 0x74
  {}

  lemma FoldedValues()
    ensures Folded(Digit(0, 0x73)) == 0x73 && Folded(Digit(0x73, 0x74)) == 0x7a4 && Folded(Digit(0x7a4, 0x72)) == 0x7ab2
    ensures Folded(Digit(0x7ab2, 0x72)) == 0x7_ab92 && Folded(Digit(0x7_ab92, 0x63)) == 0x7a_b983
    ensures Folded(Digit(0x7a_b983, 0x68)) == 0x7ab_9898 && Folded(Digit(0x7ab_9898, 0x72)) == 0xab9_8982
  {}

  /** The hash of a name long enough to be folded. */
  lemma LongHash()
    ensures ElfHash(STRRCHR) == 0xab9_8982
  {
    hide Bits, HashStep, Folded, Digit, ElfHash;
    var s := STRRCHR;
    Characters();
    FoldedValues();
    HashFolds(s, 0); HashFolds(s, 1); HashFolds(s, 2); HashFolds(s, 3); HashFolds(s, 4); HashFolds(s, 5); HashFolds(s, 6);
    assert s[..7] == s;
  }

  /** The loop of elf_hash over a C string. */
  method ComputeHash(name: seq<byte>) returns (h: bv32)
    ensures h == ElfHash(CStr(name)) && h < 0x1000_0000
  {
    hide Bits, ElfHash, HashStep;
    h := 0;
    var k := 0;
    var str := CStr(name);
    HashEmpty(str);
    while k < |str|
      invariant 0 <= k <= |str| && h == ElfHash(str[..k])
    {
      HashPrefix(str, k);
      h := HashStep(h, Bits(str[k]));
      k := k + 1;
    }
    assert str[..|str|] == str;
    HashBound(str);
  }
}
