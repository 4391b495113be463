/** Floating-point numbers without rounding: reals, the two infinities, and not-a-number, with the rules of
    IEEE 754 for combining them. */
module Floats {
  datatype Float = Finite(value: real) | Inf(negative: bool) | NaN

  function Add(a: Float, b: Float): Float {
    if a.NaN? || b.NaN? then NaN
    else if a.Finite? && b.Finite? then Finite(a.value + b.value)
    else if a.Inf? && b.Inf? then (if a.negative == b.negative then a else NaN)
    else if a.Inf? then a else b
  }

  function Negate(a: Float): Float {
    match a case Finite(v) => Finite(0.0 - v) case Inf(negative) => Inf(!negative) case NaN => NaN
  }

  function Sub(a: Float, b: Float): Float {
    Add(a, Negate(b))
  }

  function Square(a: Float): Float {
    match a case Finite(v) => Finite(v * v) case Inf(_) => Inf(false) case NaN => NaN
  }

  /** Multiplication by a finite number. */
  function Scale(a: Float, w: real): Float {
    match a
    case Finite(v) => Finite(v * w)
    case Inf(negative) => if w > 0.0 then a else if w < 0.0 then Inf(!negative) else NaN
    case NaN => NaN
  }

  /** Division of a finite number by a count, which may be zero. */
  function Quotient(v: real, n: nat): Float {
    if n > 0 then Finite(v / n as real) else if v > 0.0 then Inf(false) else if v < 0.0 then Inf(true) else NaN
  }

  /** Division by a number above zero. */
  function Div(a: Float, d: real): Float
    requires d > 0.0
  {
    if a.Finite? then Finite(a.value / d) else a
  }

  /** The smaller of a number and 1; not-a-number gives way to the other operand. */
  function MinOne(a: Float): Float {
    match a
    case Finite(v) => Finite(if v < 1.0 then v else 1.0)
    case Inf(negative) => if negative then a else Finite(1.0)
    case NaN => Finite(1.0)
  }

  /** Comparisons with not-a-number are false. */
  predicate Greater(a: Float, r: real) {
    match a case Finite(v) => v > r case Inf(negative) => !negative case NaN => false
  }

  predicate AtLeast(a: Float, r: real) {
    match a case Finite(v) => v >= r case Inf(negative) => !negative case NaN => false
  }

  predicate AtMost(a: Float, r: real) {
    match a case Finite(v) => v <= r case Inf(negative) => negative case NaN => false
  }

  // ----- Sums and deviations -----

  ghost predicate AllFinite(xs: seq<Float>) {
    forall i :: 0 <= i < |xs| ==> xs[i].Finite?
  }

  ghost function Values(xs: seq<Float>): (vs: seq<real>)
    requires AllFinite(xs)
    ensures |vs| == |xs| && forall i :: 0 <= i < |xs| ==> vs[i] == xs[i].value
  {
    seq(|xs|, i requires 0 <= i < |xs| => xs[i].value)
  }

  ghost function RealSum(vs: seq<real>): real {
    if vs == [] then 0.0 else RealSum(vs[..|vs| - 1]) + vs[|vs| - 1]
  }

  ghost function RealSquares(vs: seq<real>, mean: real): real {
    if vs == [] then 0.0
    else RealSquares(vs[..|vs| - 1], mean) + (vs[|vs| - 1] - mean) * (vs[|vs| - 1] - mean)
  }

  ghost function Variance(vs: seq<real>): real
    requires vs != []
  {
    RealSquares(vs, RealSum(vs) / |vs| as real) / |vs| as real
  }

  lemma {:induction false} SquaresExpand(vs: seq<real>, m: real)
    ensures RealSquares(vs, m) == RealSquares(vs, 0.0) - 2.0 * m * RealSum(vs) + |vs| as real * m * m
  {
    hide RealSum, RealSquares;
    if vs == [] {
      SumNone(m);
      SumNone(0.0);
    } else {
      var rest, v := vs[..|vs| - 1], vs[|vs| - 1];
      SquaresExpand(rest, m);
      SumStep(vs, m);
      SumStep(vs, 0.0);
      ExpandStep(RealSquares(rest, 0.0), RealSum(rest), |rest| as real, v, m);
    }
  }

  lemma ExpandStep(squares: real, sum: real, n: real, v: real, m: real)
    ensures squares - 2.0 * m * sum + n * m * m + (v - m) * (v - m)
         == squares + (v - 0.0) * (v - 0.0) - 2.0 * m * (sum + v) + (n + 1.0) * m * m
  {
  }

  lemma SumNone(m: real)
    ensures RealSum([]) == 0.0 && RealSquares([], m) == 0.0
  {
  }

  lemma SumStep(vs: seq<real>, m: real)
    requires vs != []
    ensures RealSum(vs) == RealSum(vs[..|vs| - 1]) + vs[|vs| - 1]
    ensures RealSquares(vs, m) == RealSquares(vs[..|vs| - 1], m) + (vs[|vs| - 1] - m) * (vs[|vs| - 1] - m)
  {
  }

  /** The mean of the squares less the square of the mean. */
  lemma VarianceIs(vs: seq<real>)
    requires vs != []
    ensures var n := |vs| as real; n * n * Variance(vs) == n * RealSquares(vs, 0.0) - RealSum(vs) * RealSum(vs)
  {
    hide RealSum, RealSquares;
    var n, m := |vs| as real, RealSum(vs) / |vs| as real;
    SquaresExpand(vs, m);
    assert Variance(vs) == RealSquares(vs, m) / n;
    hide Variance;
    Centred(n, RealSum(vs), RealSquares(vs, 0.0), m, RealSquares(vs, m));
  }

  lemma Centred(n: real, sum: real, squares: real, m: real, centred: real)
    requires n > 0.0 && m == sum / n && centred == squares - 2.0 * m * sum + n * m * m
    ensures n * n * (centred / n) == n * squares - sum * sum
  {
    TimesOver(sum, n);
    TimesOver(centred, n);
    assert n * m * m == sum * m;
    assert n * (sum * m) == sum * sum;
    assert n * n * (centred / n) == n * (centred / n * n);
  }

  lemma TimesOver(a: real, n: real)
    requires n > 0.0
    ensures a / n * n == a
  {
  }

  /** The standard deviation: a number when all are, and not-a-number otherwise. */
  ghost function Sigma(xs: seq<Float>, sqrt: real -> real): Float {
    if |xs| < 2 then Finite(0.0)
    else if AllFinite(xs) then Finite(sqrt(Variance(Values(xs)))) else NaN
  }

  ghost function Sum(xs: seq<Float>): Float {
    if xs == [] then Finite(0.0) else Add(Sum(xs[..|xs| - 1]), xs[|xs| - 1])
  }

  ghost function Squares(xs: seq<Float>, mean: Float): Float {
    if xs == [] then Finite(0.0)
    else Add(Squares(xs[..|xs| - 1], mean), Square(Sub(xs[|xs| - 1], mean)))
  }

  lemma {:induction false} SumFinite(xs: seq<Float>)
    requires AllFinite(xs)
    ensures Sum(xs) == Finite(RealSum(Values(xs)))
  {
    if xs != [] {
      SumFinite(xs[..|xs| - 1]);
      assert Values(xs)[..|xs| - 1] == Values(xs[..|xs| - 1]);
    }
  }

  /** An infinite sum has an infinite term of its sign; a sum with an infinite or undefined term is not finite. */
  lemma {:induction false} SumInfinite(xs: seq<Float>) returns (k: nat)
    requires !AllFinite(xs)
    ensures !Sum(xs).Finite? && k < |xs| && (Sum(xs).Inf? ==> xs[k] == Sum(xs))
  {
    var rest, last := xs[..|xs| - 1], xs[|xs| - 1];
    if AllFinite(rest) {
      SumFinite(rest);
      k := |xs| - 1;
    } else {
      k := SumInfinite(rest);
    }
  }

  lemma {:induction false} SquaresFinite(xs: seq<Float>, mean: real)
    requires AllFinite(xs)
    ensures Squares(xs, Finite(mean)) == Finite(RealSquares(Values(xs), mean))
  {
    if xs != [] {
      SquaresFinite(xs[..|xs| - 1], mean);
      assert Values(xs)[..|xs| - 1] == Values(xs[..|xs| - 1]);
    }
  }

  lemma {:induction false} SquaresNaN(xs: seq<Float>, mean: Float, k: nat)
    requires k < |xs| && Sub(xs[k], mean).NaN?
    ensures Squares(xs, mean).NaN?
  {
    if k < |xs| - 1 {
      SquaresNaN(xs[..|xs| - 1], mean, k);
    }
  }

  /** Mean, squared differences and root, in the order of the code. */
  method StandardDeviation(xs: seq<Float>, sqrt: real -> real) returns (sigma: Float)
    ensures sigma == Sigma(xs, sqrt)
  {
    if |xs| < 2 { return Finite(0.0); }
    var sum := Finite(0.0);
    for i := 0 to |xs|
      invariant sum == Sum(xs[..i])
    {
      assert xs[..i + 1][..i] == xs[..i];
      sum := Add(sum, xs[i]);
    }
    var mean := Div(sum, |xs| as real);
    var squares := Finite(0.0);
    for i := 0 to |xs|
      invariant squares == Squares(xs[..i], mean)
    {
      assert xs[..i + 1][..i] == xs[..i];
      squares := Add(squares, Square(Sub(xs[i], mean)));
    }
    assert xs[..|xs|] == xs;
    Deviation(xs, sqrt);
    var variance := Div(squares, |xs| as real);
    sigma := if variance.Finite? then Finite(sqrt(variance.value)) else variance;
  }

  lemma Deviation(xs: seq<Float>, sqrt: real -> real)
    requires |xs| >= 2
    ensures var mean := Div(Sum(xs), |xs| as real);
            var variance := Div(Squares(xs, mean), |xs| as real);
            Sigma(xs, sqrt) == if variance.Finite? then Finite(sqrt(variance.value)) else variance
  {
    if AllFinite(xs) {
      SumFinite(xs);
      SquaresFinite(xs, RealSum(Values(xs)) / |xs| as real);
    } else {
      var k := SumInfinite(xs);
      SquaresNaN(xs, Div(Sum(xs), |xs| as real), k);
    }
  }
}
