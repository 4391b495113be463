/** The two hash functions of ELF symbol tables, what they compute, and the masks that say which symbols are looked up. */
module SymbolHash {
  import opened Bits
  import opened Bytes

  const U32: nat := 0x1_0000_0000

  type Name = seq<byte>

  // ----- Hash functions on 32-bit words -----

  function SysvFold(s: Name, h: nat): nat
    decreases |s|
  {
    if s == [] then h
    else
      var h1 := (16 * h + s[0]) % U32;
      SysvFold(s[1..], Xor(h1, And(h1 / 0x100_0000, 0xf0)))
  }

  function SysvHash(s: Name): nat {
    And(SysvFold(s, 0), 0xfff_ffff)
  }

  function GnuFold(s: Name, h: nat): nat
    decreases |s|
  {
    if s == [] then h else GnuFold(s[1..], (h + h * 32 + s[0]) % U32)
  }

  function GnuHash(s: Name): nat {
    GnuFold(s, 5381)
  }

  // ----- What the hash functions are -----

  /** The hash function of the System V gABI, "Hash Table", on 32-bit words: the top four bits are folded
      in and cleared at every step. */
  function GabiFold(s: Name, h: nat): nat
    decreases |s|
  {
    if s == [] then h
    else
      var h1 := (16 * h + s[0]) % U32;
      var top := h1 / 0x1000_0000 * 0x1000_0000;
      GabiFold(s[1..], Xor(h1, top / 0x100_0000) % 0x1000_0000)
  }

  lemma Low28(x: nat)
    ensures And(x, 0xfff_ffff) == x % 0x1000_0000
  {
    hide And, Pow2;
    assert Pow2(28) == 0x1000_0000 by { Pow2Byte(3); Pow2Quad(24); Pow2Quad(26); Pow2Byte(2); Pow2Byte(1); Pow2None(); }
    Pow2None();
    AndMask(x, 28, 0);
    assert Low(x, 28) == x % 0x1000_0000 && Low(x, 0) == 0;
  }

  lemma Pow2None()
    ensures Pow2(0) == 1 && Pow2(4) == 16 && Pow2(8) == 256
  {
  }

  /** Bits 28 to 31, moved down by 24. */
  lemma TopBits(x: nat)
    requires x < U32
    ensures And(x / 0x100_0000, 0xf0) == x / 0x1000_0000 * 0x1000_0000 / 0x100_0000
  {
    hide And, Pow2;
    Pow2None();
    var y := x / 0x100_0000;
    AndMask(y, 8, 4);
    assert Low(y, 8) == y && Low(y, 4) == y % 16;
    assert x / 0x1000_0000 == y / 16;
  }

  lemma ShiftLow(h: nat, b: byte)
    ensures (16 * h + b) % U32 == (16 * (h % 0x1000_0000) + b) % U32
  {
    var high, low := h / 0x1000_0000, h % 0x1000_0000;
    assert h == 0x1000_0000 * high + low;
    assert 16 * h + b == U32 * high + (16 * low + b);
  }

  lemma {:induction false} FoldIsGabi(s: Name, h: nat)
    ensures SysvFold(s, h) % 0x1000_0000 == GabiFold(s, h % 0x1000_0000)
    decreases |s|
  {
    if s != [] {
      var h1 := (16 * h + s[0]) % U32;
      ShiftLow(h, s[0]);
      TopBits(h1);
      hide And, Xor;
      FoldIsGabi(s[1..], Xor(h1, And(h1 / 0x100_0000, 0xf0)));
    }
  }

  /** Masking once at the end gives the hash of the standard. */
  lemma SysvIsGabi(s: Name)
    ensures SysvHash(s) == GabiFold(s, 0)
  {
    Low28(SysvFold(s, 0));
    FoldIsGabi(s, 0);
  }

  function Pow33(n: nat): nat {
    if n == 0 then 1 else 33 * Pow33(n - 1)
  }

  /** Every byte with the weight 33 to the number of bytes after it. */
  function Weighted(s: Name): nat {
    if s == [] then 0 else s[0] * Pow33(|s| - 1) + Weighted(s[1..])
  }

  lemma ModTimes(x: nat, a: nat, b: nat)
    ensures (x % U32 * a + b) % U32 == (x * a + b) % U32
  {
    var q, r := x / U32, x % U32;
    assert x * a == (U32 * q + r) * a == U32 * (q * a) + r * a;
    AddTurns(r * a + b, q * a);
  }

  lemma AddTurns(x: nat, n: nat)
    ensures (U32 * n + x) % U32 == x % U32
  {
  }

  lemma WeightedStep(s: Name)
    requires s != []
    ensures Pow33(|s|) == 33 * Pow33(|s| - 1) && Weighted(s) == s[0] * Pow33(|s| - 1) + Weighted(s[1..])
  {
  }

  lemma Distribute(h: nat, b: nat, p: nat)
    ensures (33 * h + b) * p == h * (33 * p) + b * p
  {
  }

  lemma {:induction false} GnuFoldIs(s: Name, h: nat)
    requires h < U32
    ensures GnuFold(s, h) == (h * Pow33(|s|) + Weighted(s)) % U32
    decreases |s|
  {
    if s != [] {
      hide Pow33, Weighted;
      var p, rest := Pow33(|s| - 1), Weighted(s[1..]);
      GnuFoldIs(s[1..], (h + h * 32 + s[0]) % U32);
      ModTimes(33 * h + s[0], p, rest);
      WeightedStep(s);
      Distribute(h, s[0], p);
    }
  }

  /** The GNU hash in closed form. */
  lemma GnuHashIs(s: Name)
    ensures GnuHash(s) == (5381 * Pow33(|s|) + Weighted(s)) % U32
  {
    GnuFoldIs(s, 5381);
  }

  // ----- Masks of symbol types and bindings -----

  const OK_TYPES: nat := 0x67   // NOTYPE, OBJECT, FUNC, COMMON and TLS
  const OK_BINDS: nat := 0x406  // GLOBAL, WEAK and GNU_UNIQUE

  lemma {:induction false} ShiftOut(x: nat, k: nat)
    requires x < Pow2(k)
    ensures !BitSet(x, k)
    decreases k
  {
    if k > 0 { ShiftOut(x / 2, k - 1); }
  }

  lemma BitStep(x: nat, k: nat)
    ensures if k == 0 then BitSet(x, k) <==> x % 2 == 1 else BitSet(x, k) <==> BitSet(x / 2, k - 1)
  {
  }

  lemma TypeMask(k: nat)
    ensures And(OK_TYPES, Pow2(k)) != 0 <==> k in {0, 1, 2, 5, 6}
  {
    AndBit(OK_TYPES, k);
    hide And, BitSet, Pow2;
    BitStep(0x67, k);
    if k >= 1 { BitStep(0x33, k - 1); }
    if k >= 2 { BitStep(0x19, k - 2); }
    if k >= 3 { BitStep(0xc, k - 3); }
    if k >= 4 { BitStep(0x6, k - 4); }
    if k >= 5 { BitStep(0x3, k - 5); }
    if k >= 6 { BitStep(0x1, k - 6); }
    if k >= 7 { NoBits(k - 7); }
  }

  lemma NoBits(k: nat)
    ensures !BitSet(0, k)
  {
    ShiftOut(0, k);
  }

  lemma BindMask(k: nat)
    ensures And(OK_BINDS, Pow2(k)) != 0 <==> k in {1, 2, 10}
  {
    AndBit(OK_BINDS, k);
    hide And, BitSet, Pow2;
    BitStep(0x406, k);
    if k >= 1 { BitStep(0x203, k - 1); }
    if k >= 2 { BitStep(0x101, k - 2); }
    if k >= 3 { LastBit(k - 3); }
  }

  /** Bit 7 alone. */
  lemma LastBit(k: nat)
    ensures BitSet(0x80, k) <==> k == 7
  {
    hide BitSet;
    BitStep(0x80, k);
    if k >= 1 { BitStep(0x40, k - 1); }
    if k >= 2 { BitStep(0x20, k - 2); }
    if k >= 3 { BitStep(0x10, k - 3); }
    if k >= 4 { BitStep(0x8, k - 4); }
    if k >= 5 { BitStep(0x4, k - 5); }
    if k >= 6 { BitStep(0x2, k - 6); }
    if k >= 7 { BitStep(0x1, k - 7); }
    if k >= 8 { NoBits(k - 8); }
  }
}
