/** Offsets of the initial thread-local storage blocks in both layout variants, and the
    placement of a thread's storage by `__copy_tls`. Words are 64 bits and wrap. */
module TlsLayout {
  import opened Bits
  import opened Bytes

  /** -x on 64-bit words. */
  function Neg(x: nat): nat
    requires x < W
  {
    (W - x) % W
  }

  /** Both variants of "ELF Handling For Thread-Local Storage", section 3: blocks above
      the thread pointer, or below it. */
  datatype Variant = AboveTp | BelowTp

  function MaxP2(a: nat, b: nat): nat
    requires a < W && b < W
  {
    var x := And(Neg(a), Neg(b));
    if x < W then Neg(x) else 0
  }

  function Align(x: nat, y: nat): nat
    requires y < W
  {
    And((x + y - 1 + W) % W, Neg(y))
  }

  function AboveOffset(t: nat, image: nat, align: nat): nat
    requires t < W && align > 0
  {
    (t + And((Neg(t) + image) % W, align - 1)) % W
  }

  function BelowOffset(t: nat, image: nat, size: nat, align: nat): int
    requires align > 0
  {
    var t1 := (t + size + align - 1) % W;
    t1 - And((t1 + image) % W, align - 1)
  }

  /** The application's own block below the thread pointer. */
  function AppOffset(image: nat, size: nat, align: nat): nat
    requires align > 0
  {
    size + And(Neg((image + size) % W), align - 1)
  }

  // ----- Arithmetic modulo a power of two -----

  function Mod(x: int, m: int): (r: int)
    requires m > 0
    ensures 0 <= r < m
  {
    x % m
  }

  /** Numbers that differ by a multiple of `m` have the same remainder. */
  lemma SameRemainder(a: int, b: int, m: int, z: int)
    requires m > 0 && a == b + m * z
    ensures Mod(a, m) == Mod(b, m)
  {
    var q, r := b / m, b % m;
    assert b == m * q + r;
    assert a == m * (q + z) + r;
    DivModUnique(a, m, q + z, r);
  }

  lemma Split(x: int, m: int) returns (q: int)
    requires m > 0
    ensures x == m * q + Mod(x, m)
  {
    q := x / m;
  }

  /** A power of two divides the number of words. */
  lemma WordMultiple(k: nat) returns (rows: nat)
    requires k < 64
    ensures W == Pow2(k) * rows && rows > 1
  {
    rows := Pow2(64 - k);
    Pow2Add(k, 64 - k);
    Pow2Word();
    Pow2Monotone(1, 64 - k);
  }

  /** Reducing modulo the word size does not change a remainder by a power of two. */
  lemma WrapKeepsRemainder(x: int, k: nat)
    requires k < 64
    ensures Mod(x % W, Pow2(k)) == Mod(x, Pow2(k))
  {
    var rows := WordMultiple(k);
    var m, q := Pow2(k), x / W;
    hide Pow2, Mod;
    assert W * q == m * (rows * q) by { MulAssoc(m, rows, q); }
    SameRemainder(x, x % W, m, rows * q);
  }

  lemma MulAssoc(a: int, b: int, c: int)
    ensures (a * b) * c == a * (b * c)
  {
  }

  lemma LowMask(x: nat, k: nat)
    ensures And(x, Pow2(k) - 1) == Mod(x, Pow2(k))
  {
    AndMask(x, k, 0);
  }

  /** The masks and wrap-arounds of the code are a remainder. */
  lemma AboveOffsetValue(t: nat, image: nat, k: nat)
    requires k < 64 && t + Pow2(k) <= W
    ensures t < W && AboveOffset(t, image, Pow2(k)) == t + Mod(Neg(t) + image, Pow2(k))
  {
    hide And, Pow2, Mod;
    LowMask((Neg(t) + image) % W, k);
    WrapKeepsRemainder(Neg(t) + image, k);
  }

  /** The next offset at or after `t` congruent to the image. */
  lemma AboveOffsetSpec(t: nat, image: nat, k: nat)
    requires k < 64 && t + Pow2(k) <= W
    ensures var r := AboveOffset(t, image, Pow2(k)); t <= r < t + Pow2(k) && Mod(r, Pow2(k)) == Mod(image, Pow2(k))
  {
    hide And, Pow2, Mod, AboveOffset, Neg;
    AboveOffsetValue(t, image, k);
    NegCongruent(t, image, k);
  }

  lemma NegCongruent(t: nat, image: nat, k: nat)
    requires k < 64 && t < W
    ensures Mod(t + Mod(Neg(t) + image, Pow2(k)), Pow2(k)) == Mod(image, Pow2(k))
  {
    hide Pow2, Mod;
    var m, y := Pow2(k), Neg(t) + image;
    var rows := WordMultiple(k);
    var q := Split(y, m);
    var z := if t == 0 then 0 else rows;
    MulDistributes(m, z, q);
    SameRemainder(t + Mod(y, m), image, m, z - q);
  }

  lemma BelowOffsetValue(t: nat, image: nat, size: nat, k: nat)
    requires k < 64 && t + size + Pow2(k) <= W
    ensures var t1 := t + size + Pow2(k) - 1;
            BelowOffset(t, image, size, Pow2(k)) == t1 - Mod(t1 + image, Pow2(k))
  {
    hide And, Pow2, Mod;
    var t1 := t + size + Pow2(k) - 1;
    LowMask((t1 + image) % W, k);
    WrapKeepsRemainder(t1 + image, k);
  }

  /** The least offset with room for the block whose negation is congruent to the image. */
  lemma BelowOffsetSpec(t: nat, image: nat, size: nat, k: nat)
    requires k < 64 && t + size + Pow2(k) <= W
    ensures var r := BelowOffset(t, image, size, Pow2(k));
            t + size <= r < t + size + Pow2(k) && Mod(0 - r, Pow2(k)) == Mod(image, Pow2(k))
  {
    hide And, Pow2, Mod, BelowOffset;
    BelowOffsetValue(t, image, size, k);
    DownCongruent(t + size + Pow2(k) - 1, image, Pow2(k));
  }

  lemma DownCongruent(t: int, image: int, m: int)
    requires m > 0
    ensures Mod(0 - (t - Mod(t + image, m)), m) == Mod(image, m)
  {
    hide Mod;
    var q := Split(t + image, m);
    MulNegate(m, q);
    SameRemainder(0 - (t - Mod(t + image, m)), image, m, -q);
  }

  lemma MulNegate(m: int, q: int)
    ensures m * -q == -(m * q)
  {
  }

  lemma AppOffsetSpec(image: nat, size: nat, k: nat)
    requires k < 64
    ensures var r := AppOffset(image, size, Pow2(k));
            size <= r < size + Pow2(k) && Mod(0 - r, Pow2(k)) == Mod(image, Pow2(k))
  {
    hide And, Pow2, Mod;
    var m, w := Pow2(k), (image + size) % W;
    LowMask(Neg(w), k);
    var rows := WordMultiple(k);
    var q := Split(Neg(w), m);
    var z := (image + size) / W + if w == 0 then 0 else 1;
    assert image + size + Neg(w) == W * z;
    assert W * z == m * (rows * z) by { MulAssoc(m, rows, z); }
    var r := size + Mod(Neg(w), m);
    assert r == W * z - image - m * q;
    MulDistributes(m, q, rows * z);
    SameRemainder(0 - r, image, m, q - rows * z);
  }

  lemma PowBelowWord(k: nat)
    requires k < 64
    ensures Pow2(k) < W && Pow2(64) == W
  {
    Pow2Word();
    Pow2Monotone(k, 63);
  }

  lemma LowWord(x: nat)
    requires x < W
    ensures Low(x, 64) == x
  {
    Pow2Word();
  }

  lemma NegValue(x: nat)
    requires 0 < x < W
    ensures Neg(x) == W - x
  {
  }

  /** The bit trick computes the maximum of two powers of two. */
  lemma MaxP2Spec(i: nat, j: nat)
    requires i < 64 && j < 64
    ensures Pow2(i) < W && Pow2(j) < W
    ensures MaxP2(Pow2(i), Pow2(j)) == if i <= j then Pow2(j) else Pow2(i)
  {
    hide Pow2, And, Low, Neg;
    PowBelowWord(i);
    PowBelowWord(j);
    NegValue(Pow2(i));
    NegValue(Pow2(j));
    AndMask(W - Pow2(i), 64, j);
    MaskRemainder(i, j);
    LowWord(W - Pow2(i));
    NegValue(W - if i <= j then Pow2(j) else Pow2(i));
  }

  /** What is left below a multiple of `m`. */
  lemma BelowMultiple(m: nat, rows: nat, c: nat, d: nat)
    requires m > 0 && c < rows && d < m
    ensures Mod(m * rows - m * c - d, m) == if d == 0 then 0 else m - d
  {
    MulDistributes(m, rows, c);
    MulDistributes(m, rows - c, 1);
    if d == 0 {
      DivModUnique(m * (rows - c), m, rows - c, 0);
    } else {
      DivModUnique(m * (rows - c) - d, m, rows - c - 1, m - d);
    }
  }

  lemma MaskRemainder(i: nat, j: nat)
    requires i < 64 && j < 64
    ensures Pow2(i) < W && Low(W - Pow2(i), j) == if i <= j then Pow2(j) - Pow2(i) else 0
  {
    hide Pow2, Low, Mod;
    PowBelowWord(i);
    var rows := WordMultiple(j);
    var m := Pow2(j);
    LowIsMod(W - Pow2(i), j);
    if i == j {
      BelowMultiple(m, rows, 1, 0);
    } else if i < j {
      Pow2Less(i, j);
      BelowMultiple(m, rows, 0, Pow2(i));
    } else {
      Pow2Add(j, i - j);
      var c := Pow2(i - j);
      assert c < rows by { if c >= rows { MulMonotone(m, rows, c); } }
      BelowMultiple(m, rows, c, 0);
    }
  }

  lemma Pow2Less(i: nat, j: nat)
    requires i < j
    ensures Pow2(i) < Pow2(j)
  {
  }

  lemma AlignValue(x: nat, k: nat)
    requires k < 64 && x + Pow2(k) <= W
    ensures Pow2(k) < W
    ensures var y := x + Pow2(k) - 1; Align(x, Pow2(k)) == y - Mod(y, Pow2(k))
  {
    hide Pow2, And, Mod, Low;
    PowBelowWord(k);
    var y := x + Pow2(k) - 1;
    AndMask(y, 64, k);
    LowWord(y);
    LowIsMod(y, k);
  }

  /** `ALIGN` rounds up to the next multiple. */
  lemma AlignSpec(x: nat, k: nat)
    requires k < 64 && x + Pow2(k) <= W
    ensures Pow2(k) < W && x <= Align(x, Pow2(k)) < x + Pow2(k) && Mod(Align(x, Pow2(k)), Pow2(k)) == 0
  {
    hide Pow2, Mod, Align;
    AlignValue(x, k);
    RoundedDown(x + Pow2(k) - 1, Pow2(k));
  }

  lemma LowIsMod(x: nat, k: nat)
    ensures Low(x, k) == Mod(x, Pow2(k))
  {
  }

  lemma ModZero(m: nat)
    requires m > 0
    ensures Mod(0, m) == 0
  {
  }

  // ----- Assigning offsets -----

  datatype Module = Module(image: nat, len: nat, size: nat, align: nat, offset: nat)

  ghost predicate PowerOfTwo(x: nat) {
    exists k: nat :: k < 64 && x == Pow2(k)
  }

  /** Where a block lies relative to the thread pointer. */
  function BlockStart(variant: Variant, m: Module): int {
    if variant == AboveTp then m.offset else 0 - m.offset
  }

  function BlockEnd(variant: Variant, m: Module): int {
    BlockStart(variant, m) + m.size
  }

  /** Block `i` is congruent to its image, within the offset reached, and clear of earlier blocks. */
  ghost predicate Placed(variant: Variant, modules: seq<Module>, reached: nat, i: nat)
    requires i < |modules|
  {
    var m := modules[i];
    && PowerOfTwo(m.align) && Mod(BlockStart(variant, m), m.align) == Mod(m.image, m.align)
    && (variant == AboveTp ==> BlockEnd(variant, m) <= reached)
    && (variant == BelowTp ==> 0 - reached <= BlockStart(variant, m) && BlockEnd(variant, m) <= 0)
  }

  /** Later blocks lie further from the thread pointer. */
  predicate Clear(variant: Variant, near: Module, far: Module) {
    if variant == AboveTp then BlockEnd(variant, near) <= BlockStart(variant, far)
    else BlockEnd(variant, far) <= BlockStart(variant, near)
  }

  ghost predicate Layout(variant: Variant, modules: seq<Module>, reached: nat) {
    && (forall i: nat :: i < |modules| ==> Placed(variant, modules, reached, i))
    && (forall i: nat, j: nat :: i < j < |modules| ==> Clear(variant, modules[i], modules[j]))
  }

  function MaxAlign(least: nat, modules: seq<Module>): nat {
    if modules == [] then least
    else
      var rest := MaxAlign(least, modules[..|modules| - 1]);
      if rest <= modules[|modules| - 1].align then modules[|modules| - 1].align else rest
  }

  lemma LayoutAppend(variant: Variant, modules: seq<Module>, reached: nat, m: Module, reached': nat)
    requires Layout(variant, modules, reached)
    requires PowerOfTwo(m.align) && Mod(BlockStart(variant, m), m.align) == Mod(m.image, m.align)
    requires variant == AboveTp ==> reached <= m.offset && reached' == m.offset + m.size
    requires variant == BelowTp ==> reached + m.size <= m.offset == reached'
    ensures Layout(variant, modules + [m], reached')
  {
    hide PowerOfTwo, Mod;
    var modules' := modules + [m];
    forall i: nat | i < |modules'| ensures Placed(variant, modules', reached', i) {
      if i < |modules| { assert Placed(variant, modules, reached, i); }
    }
    forall i: nat, j: nat | i < j < |modules'| ensures Clear(variant, modules'[i], modules'[j]) {
      assert Placed(variant, modules, reached, i);
    }
  }

  /** Any two blocks are disjoint. */
  lemma BlocksDisjoint(variant: Variant, modules: seq<Module>, reached: nat, i: nat, j: nat)
    requires Layout(variant, modules, reached) && i < |modules| && j < |modules| && i != j
    ensures BlockEnd(variant, modules[i]) <= BlockStart(variant, modules[j]) || BlockEnd(variant, modules[j]) <= BlockStart(variant, modules[i])
  {
  }

  /** The dynamic linker's record of the initial thread-local storage. */
  class Tls {
    const variant: Variant
    const gap: nat             // bytes reserved above the thread pointer for the application's block
    const least: nat           // the smallest alignment
    var cnt: nat
    var offset: nat
    var align: nat
    var modules: seq<Module>

    ghost predicate Valid()
      reads this
    {
      && cnt == |modules| && Layout(variant, modules, offset) && offset < W
      && PowerOfTwo(least) && PowerOfTwo(align) && align == MaxAlign(least, modules)
    }

    constructor (variant: Variant, gap: nat, least: nat)
      requires PowerOfTwo(least)
      ensures Valid() && modules == [] && offset == 0 && this.variant == variant && this.gap == gap && this.least == least
    {
      this.variant, this.gap, this.least := variant, gap, least;
      cnt, offset, align, modules := 0, 0, least, [];
    }

    /** The application's block, assigned first. */
    method InitApp(image: nat, len: nat, size: nat, alignment: nat)
      requires Valid() && modules == [] && offset == 0 && PowerOfTwo(alignment)
      requires gap + size + alignment < W
      modifies this
      ensures Valid() && |modules| == 1
      ensures modules[0] == Module(image, len, size, alignment, modules[0].offset)
      ensures variant == AboveTp ==> gap <= modules[0].offset < gap + alignment
      ensures variant == BelowTp ==> size <= modules[0].offset < size + alignment
    {
      hide Pow2, Mod, And;
      ghost var k: nat :| k < 64 && alignment == Pow2(k);
      PowBelowWord(k);
      var at;
      if variant == AboveTp {
        AboveOffsetSpec(gap, image, k);
        at := AboveOffset(gap, image, alignment);
        offset := at + size;
      } else {
        AppOffsetSpec(image, size, k);
        at := AppOffset(image, size, alignment);
        offset := at;
      }
      var m := Module(image, len, size, alignment, at);
      LayoutAppend(variant, modules, 0, m, offset);
      Raise(m);
    }

    /** A library's block, as `load_library` assigns it. */
    method Load(image: nat, len: nat, size: nat, alignment: nat)
      requires Valid() && PowerOfTwo(alignment)
      requires offset + size + alignment < W
      modifies this
      ensures Valid() && |modules| == |old(modules)| + 1 && modules[..|old(modules)|] == old(modules)
      ensures modules[|old(modules)|] == Module(image, len, size, alignment, modules[|old(modules)|].offset)
      ensures offset < old(offset) + size + alignment
    {
      hide Pow2, Mod, And;
      ghost var k: nat :| k < 64 && alignment == Pow2(k);
      var at;
      if variant == AboveTp {
        AboveOffsetSpec(offset, image, k);
        at := AboveOffset(offset, image, alignment);
        LayoutAppend(variant, modules, offset, Module(image, len, size, alignment, at), at + size);
        offset := at + size;
      } else {
        BelowOffsetSpec(offset, image, size, k);
        at := BelowOffset(offset, image, size, alignment);
        LayoutAppend(variant, modules, offset, Module(image, len, size, alignment, at), at);
        offset := at;
      }
      Raise(Module(image, len, size, alignment, at));
    }

    /** Records the module and raises the common alignment. */
    method Raise(m: Module)
      requires cnt == |modules| && Layout(variant, modules + [m], offset) && offset < W
      requires PowerOfTwo(least) && PowerOfTwo(align) && align == MaxAlign(least, modules) && PowerOfTwo(m.align)
      modifies this`cnt, this`align, this`modules
      ensures Valid() && modules == old(modules) + [m]
    {
      hide Pow2, And, Layout;
      ghost var i: nat :| i < 64 && align == Pow2(i);
      ghost var j: nat :| j < 64 && m.align == Pow2(j);
      PowBelowWord(i);
      PowBelowWord(j);
      MaxP2Spec(i, j);
      align := MaxP2(align, m.align);
      cnt := cnt + 1;
      MaxAlignAppend(least, modules, m);
      if i <= j { Pow2Monotone(i, j); } else { Pow2Less(j, i); }
      modules := modules + [m];
    }
  }

  lemma MaxAlignAppend(least: nat, modules: seq<Module>, m: Module)
    ensures MaxAlign(least, modules + [m]) == if MaxAlign(least, modules) <= m.align then m.align else MaxAlign(least, modules)
  {
  }

  lemma {:induction false} MaxAlignBounds(least: nat, modules: seq<Module>, i: nat)
    requires i < |modules|
    ensures modules[i].align <= MaxAlign(least, modules) && least <= MaxAlign(least, modules)
    ensures MaxAlign(least, modules) == least || exists j: nat :: j < |modules| && MaxAlign(least, modules) == modules[j].align
  {
    var rest := modules[..|modules| - 1];
    assert modules == rest + [modules[|modules| - 1]];
    if i < |rest| {
      MaxAlignBounds(least, rest, i);
    } else if rest != [] {
      MaxAlignBounds(least, rest, 0);
    }
  }

  // ----- One thread's storage -----

  /** `update_tls_size`: room for the vector, the blocks, the thread structure and alignment. */
  function TlsSize(cnt: nat, offset: nat, align: nat, pthread: nat): nat
    requires align < W
  {
    Align((1 + cnt) * 8 + offset + pthread + align * 2, align)
  }

  /** Where `__copy_tls` puts things in the `size` bytes at `mem`. */
  datatype Thread = Thread(dtv: int, td: int, tp: int)

  function CopyTls(variant: Variant, mem: nat, size: nat, cnt: nat, align: nat, pthread: nat): Thread
    requires align > 0 && mem + size < W && pthread <= size
  {
    if variant == AboveTp then
      var td := mem + And(Neg(mem + pthread), align - 1);
      Thread(mem + size - 8 * (cnt + 1), td, td + pthread)
    else
      var end := mem + size - pthread;
      var td := end - And(end, align - 1);
      Thread(mem, td, td)
  }

  function BlockAddress(variant: Variant, t: Thread, m: Module): int {
    t.tp + BlockStart(variant, m)
  }

  /** The thread pointer is a multiple of the common alignment, so blocks keep their images' alignment. */
  lemma ThreadPointerAligned(variant: Variant, mem: nat, size: nat, cnt: nat, k: nat, pthread: nat)
    requires k < 64 && mem + size < W && pthread <= size
    ensures var t := CopyTls(variant, mem, size, cnt, Pow2(k), pthread);
            && Mod(t.tp, Pow2(k)) == 0
            && (variant == AboveTp ==> mem <= t.td < mem + Pow2(k) && t.tp == t.td + pthread)
            && (variant == BelowTp ==> mem + size - pthread - Pow2(k) < t.td <= mem + size - pthread && t.tp == t.td)
  {
    hide Pow2, And, Mod, Neg;
    ModZero(Pow2(k));
    if variant == AboveTp {
      LowMask(Neg(mem + pthread), k);
      NegCongruent(mem + pthread, 0, k);
    } else {
      LowMask(mem + size - pthread, k);
      RoundedDown(mem + size - pthread, Pow2(k));
    }
  }

  lemma RoundedDown(x: nat, m: nat)
    requires m > 0
    ensures Mod(x - Mod(x, m), m) == 0
  {
    hide Mod;
    var q := Split(x, m);
    SameRemainder(x - Mod(x, m), 0, m, q);
    ModZero(m);
  }

  /** Adding a multiple of a larger power of two keeps a remainder. */
  lemma AlignedSum(x: int, d: int, i: nat, j: nat)
    requires i <= j && Mod(x, Pow2(j)) == 0
    ensures Mod(x + d, Pow2(i)) == Mod(d, Pow2(i))
  {
    hide Pow2, Mod;
    Pow2Add(i, j - i);
    var q := Split(x, Pow2(j));
    MulAssoc(Pow2(i), Pow2(j - i), q);
    SameRemainder(x + d, d, Pow2(i), Pow2(j - i) * q);
  }

  ghost predicate Inside(lo: int, hi: int, mem: int, size: int) {
    mem <= lo <= hi <= mem + size
  }

  predicate Apart(lo: int, hi: int, lo': int, hi': int) {
    hi <= lo' || hi' <= lo
  }

  /** The size computed for a layout holds a thread's vector, structure and blocks, apart from
      one another, and every block is congruent to its image. */
  lemma ThreadFits(variant: Variant, modules: seq<Module>, offset: nat, least: nat, align: nat, pthread: nat, mem: nat, i: nat)
    requires Layout(variant, modules, offset) && i < |modules|
    requires PowerOfTwo(align) && align < W && align == MaxAlign(least, modules)
    requires (1 + |modules|) * 8 + offset + pthread + align * 3 <= W
    requires mem + TlsSize(|modules|, offset, align, pthread) < W
    requires pthread <= TlsSize(|modules|, offset, align, pthread)
    ensures var size := TlsSize(|modules|, offset, align, pthread);
            var t := CopyTls(variant, mem, size, |modules|, align, pthread);
            var m := modules[i];
            var lo := BlockAddress(variant, t, m);
            && Inside(lo, lo + m.size, mem, size) && Inside(t.td, t.td + pthread, mem, size)
            && Inside(t.dtv, t.dtv + 8 * (|modules| + 1), mem, size)
            && Apart(lo, lo + m.size, t.td, t.td + pthread)
            && Apart(lo, lo + m.size, t.dtv, t.dtv + 8 * (|modules| + 1))
            && Apart(t.td, t.td + pthread, t.dtv, t.dtv + 8 * (|modules| + 1))
            && m.align > 0 && Mod(lo, m.align) == Mod(m.image, m.align)
  {
    hide Pow2, And, Mod, Align;
    var m := modules[i];
    var k: nat :| k < 64 && align == Pow2(k);
    AlignSpec((1 + |modules|) * 8 + offset + pthread + align * 2, k);
    assert Placed(variant, modules, offset, i);
    var j: nat :| j < 64 && m.align == Pow2(j);
    MaxAlignBounds(least, modules, i);
    assert j <= k by { if k < j { Pow2Less(k, j); } }
    var size := TlsSize(|modules|, offset, align, pthread);
    ThreadPointerAligned(variant, mem, size, |modules|, k, pthread);
    var t := CopyTls(variant, mem, size, |modules|, align, pthread);
    AlignedSum(t.tp, BlockStart(variant, m), j, k);
  }
}
