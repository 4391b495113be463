/** Bitwise AND on natural numbers and the masks the sources apply with it. A machine
    word is a natural number below `Pow2(64)`; wrap-around is written out where it occurs. */
module Bits {

  const W: nat := 0x1_0000_0000_0000_0000  // 2^64, the number of values of a 64-bit word

  function Pow2(k: nat): (p: nat)
    ensures p > 0
  {
    if k == 0 then 1 else 2 * Pow2(k - 1)
  }

  function And(a: nat, b: nat): nat {
    if a == 0 || b == 0 then 0
    else 2 * And(a / 2, b / 2) + if a % 2 == 1 && b % 2 == 1 then 1 else 0
  }

  lemma MulAtLeast(d: int, a: int)
    requires d > 0 && a >= 1
    ensures d * a >= d
  {
  }

  lemma MulDistributes(d: int, a: int, b: int)
    ensures d * (a - b) == d * a - d * b
  {
  }

  lemma DivModUnique(x: int, d: int, q: int, r: int)
    requires 0 <= r < d && x == d * q + r
    ensures x / d == q && x % d == r
  {
    var q' := x / d;
    MulDistributes(d, q, q');
    MulDistributes(d, q', q);
    if q > q' {
      MulAtLeast(d, q - q');
    } else if q < q' {
      MulAtLeast(d, q' - q);
    }
  }

  /** The last digit in base `b` and the rest. */
  lemma ModBase(x: nat, b: nat, m: nat)
    requires b > 0 && m > 0
    ensures b * m > 0 && x % (b * m) == b * ((x / b) % m) + x % b
  {
    var y := x / b;
    var q, r := y / m, y % m;
    assert y == m * q + r;
    assert b * y == b * (m * q) + b * r;
    assert b * (m * q) == (b * m) * q;
    assert b * r <= b * (m - 1) by { MulMonotone(b, r, m - 1); }
    MulDistributes(b, m, 1);
    DivModUnique(x, b * m, q, b * r + x % b);
  }

  lemma MulMonotone(d: nat, a: int, b: int)
    requires a <= b
    ensures d * a <= d * b
  {
  }

  lemma {:induction false} Pow2Monotone(j: nat, k: nat)
    requires j <= k
    ensures Pow2(j) <= Pow2(k)
    decreases k
  {
    if j < k {
      Pow2Monotone(j, k - 1);
    }
  }

  lemma {:induction false} Pow2Add(j: nat, k: nat)
    ensures Pow2(j + k) == Pow2(j) * Pow2(k)
  {
    if j > 0 {
      Pow2Add(j - 1, k);
    }
  }

  lemma AndZero(x: nat)
    ensures And(x, 0) == 0 == And(0, x)
  {
  }

  lemma AndDouble(x: nat, m: nat, b: nat)
    requires b < 2
    ensures And(x, 2 * m + b) == 2 * And(x / 2, m) + if b == 1 then x % 2 else 0
  {
    AndZero(m);
    AndZero(x / 2);
    assert (2 * m + b) / 2 == m && (2 * m + b) % 2 == b;
    if x != 0 && 2 * m + b != 0 {
      assert And(x, 2 * m + b) == 2 * And(x / 2, m) + if x % 2 == 1 && b == 1 then 1 else 0;
    }
  }

  /** The low `k` bits. */
  function Low(x: nat, k: nat): nat {
    x % Pow2(k)
  }

  lemma LowStep(x: nat, k: nat)
    ensures Low(x, 0) == 0
    ensures k > 0 ==> Low(x, k) == 2 * Low(x / 2, k - 1) + x % 2
  {
    if k > 0 {
      ModBase(x, 2, Pow2(k - 1));
    }
  }

  /** Masking with the bits `k .. n - 1` keeps exactly those bits. */
  lemma {:induction false} AndMask(x: nat, n: nat, k: nat)
    requires k <= n
    ensures Pow2(k) <= Pow2(n) && And(x, Pow2(n) - Pow2(k)) == Low(x, n) - Low(x, k)
    decreases n
  {
    hide Low, And;
    Pow2Monotone(k, n);
    LowStep(x, n);
    LowStep(x, k);
    if n == 0 {
      AndZero(x);
    } else if k == 0 {
      AndMask(x / 2, n - 1, 0);
      LowStep(x / 2, 0);
      AndDouble(x, Pow2(n - 1) - 1, 1);
    } else {
      AndMask(x / 2, n - 1, k - 1);
      AndDouble(x, Pow2(n - 1) - Pow2(k - 1), 0);
    }
  }

  /** The bits of weight `lo` up to `lo * width`, in place. */
  lemma FieldOf(x: nat, lo: nat, width: nat)
    requires lo > 0 && width > 0
    ensures lo * width > 0 && x % (lo * width) - x % lo == x / lo % width * lo
  {
    ModBase(x, lo, width);
  }

  function Xor(a: nat, b: nat): nat
    decreases a + b
  {
    if a == 0 then b else if b == 0 then a
    else 2 * Xor(a / 2, b / 2) + if a % 2 != b % 2 then 1 else 0
  }

  function ShiftRight(x: nat, k: nat): nat
    decreases k
  {
    if k == 0 then x else ShiftRight(x / 2, k - 1)
  }

  predicate BitSet(x: nat, k: nat) {
    ShiftRight(x, k) % 2 == 1
  }

  /** Bit by bit. */
  lemma {:induction false} XorBits(a: nat, b: nat, k: nat)
    ensures BitSet(Xor(a, b), k) <==> BitSet(a, k) != BitSet(b, k)
    decreases k
  {
    if k > 0 {
      XorHalf(a, b);
      XorBits(a / 2, b / 2, k - 1);
    } else {
      XorHalf(a, b);
    }
  }

  lemma XorHalf(a: nat, b: nat)
    ensures Xor(a, b) / 2 == Xor(a / 2, b / 2) && (Xor(a, b) % 2 == 1 <==> a % 2 != b % 2)
  {
    if a != 0 && b != 0 {
      var half, low := Xor(a / 2, b / 2), if a % 2 != b % 2 then 1 else 0;
      assert Xor(a, b) == 2 * half + low;
    }
  }

  lemma AndOne(x: nat)
    ensures And(x, 1) == x % 2
  {
  }

  lemma {:induction false} AndBit(x: nat, k: nat)
    ensures And(x, Pow2(k)) != 0 <==> BitSet(x, k)
    decreases k
  {
    if k == 0 {
      AndOne(x);
    } else {
      AndBit(x / 2, k - 1);
      AndDouble(x, Pow2(k - 1), 0);
    }
  }
}
