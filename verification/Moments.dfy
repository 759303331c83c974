/** Average and standard deviation of histogram.c, over exact reals. */
module Moments {
  import opened Histograms

  // ----- Mean and variance -----

  /** average and the radicand of standard_deviation. */
  function Average(h: Summary): real {
    if h.num == 0.0 then 0.0 else h.sum / h.num
  }

  function Variance(h: Summary): real {
    if h.num == 0.0 then 0.0
    else (h.sumSquares * h.num - h.sum * h.sum) / (h.num * h.num)
  }

  /** Sum of the squared distances of the samples to v. */
  ghost function Spread(s: seq<real>, v: real): real {
    if s == [] then 0.0 else Spread(s[..|s| - 1], v) + Square(s[|s| - 1] - v)
  }

  /** q - 2va + nvv, the expanded sum of squared distances to v. */
  ghost function Expanded(n: real, a: real, q: real, v: real): real {
    q - 2.0 * (v * a) + n * (v * v)
  }

  lemma ExpandedStep(n: real, a: real, q: real, v: real, x: real)
    ensures Expanded(n + 1.0, a + x, q + Square(x), v) == Expanded(n, a, q, v) + Square(x - v)
  {
  }

  lemma SquareIsNonNegative(x: real)
    ensures Square(x) >= 0.0
  {
  }

  lemma {:induction false} SpreadExpands(s: seq<real>, v: real)
    ensures Spread(s, v) == Expanded(|s| as real, Sum(s), SumSquares(s), v)
    ensures Spread(s, v) >= 0.0
  {
    if s == [] {
      ExpandedZero(v);
    } else {
      hide Expanded, Square;
      var r, x := s[..|s| - 1], s[|s| - 1];
      SpreadExpands(r, v);
      assert |s| as real == |r| as real + 1.0;
      ExpandedStep(|r| as real, Sum(r), SumSquares(r), v, x);
      SquareIsNonNegative(x - v);
    }
  }

  lemma ExpandedZero(v: real)
    ensures Expanded(0.0, 0.0, 0.0, v) == 0.0
  {
  }

  /** num * sum_squares - sum * sum */
  ghost function Radicand(n: real, a: real, q: real): real {
    n * q - a * a
  }

  lemma RadicandStep(n: real, a: real, q: real, x: real)
    ensures Radicand(n + 1.0, a + x, q + Square(x)) == Radicand(n, a, q) + Expanded(n, a, q, x)
  {
  }

  lemma {:induction false} RadicandStaysNonNegative(s: seq<real>)
    ensures Radicand(|s| as real, Sum(s), SumSquares(s)) >= 0.0
  {
    if s != [] {
      hide Expanded, Radicand, Square;
      var r, x := s[..|s| - 1], s[|s| - 1];
      RadicandStaysNonNegative(r);
      SpreadExpands(r, x);
      assert |s| as real == |r| as real + 1.0;
      RadicandStep(|r| as real, Sum(r), SumSquares(r), x);
    }
  }

  /** The radicand of standard_deviation is never negative, so its square root is defined. */
  lemma RadicandIsNonNegative(s: seq<real>)
    ensures |s| as real * SumSquares(s) - Sum(s) * Sum(s) >= 0.0
  {
    RadicandStaysNonNegative(s);
  }

  /** The variance is the mean squared distance of the samples to their average; without samples
      both are 0. */
  lemma VarianceIsMeanSquaredDistance(s: seq<real>)
    ensures var h := SummaryOf(s);
            if s == [] then Average(h) == 0.0 && Variance(h) == 0.0
            else h.num > 0.0 && Variance(h) == Spread(s, Average(h)) / h.num && Variance(h) >= 0.0
    ensures Average(SummaryOf(s)) * |s| as real == Sum(s)
  {
    hide Average, Variance, Spread, Sum, SumSquares, Count, MinOf, MaxOf;
    if s == [] {
      NoSamples();
    } else {
      VarianceOfSamples(s);
    }
  }

  lemma NoSamples()
    ensures Sum([]) == 0.0 && Average(SummaryOf([])) == 0.0 && Variance(SummaryOf([])) == 0.0
  {
  }

  lemma VarianceOfSamples(s: seq<real>)
    requires s != []
    ensures var h := SummaryOf(s);
            h.num > 0.0 && Variance(h) == Spread(s, Average(h)) / h.num && Variance(h) >= 0.0
    ensures Average(SummaryOf(s)) * |s| as real == Sum(s)
  {
    hide Expanded, Spread, Sum, SumSquares, Count, Square, MinOf, MaxOf;
    var h := SummaryOf(s);
    assert h.num == |s| as real > 0.0 && h.sum == Sum(s) && h.sumSquares == SumSquares(s);
    hide SummaryOf;
    assert Average(h) * h.num == h.sum;
    SpreadExpands(s, Average(h));
    VarianceForms(h);
    hide Average, Variance;
    NonNegativeQuotient(Spread(s, Average(h)), h.num);
  }

  lemma NonNegativeQuotient(x: real, n: real)
    requires x >= 0.0 && n > 0.0
    ensures x / n >= 0.0
  {
  }

  lemma QuotientUnique(x: real, y: real, n: real)
    requires n != 0.0 && x * n == y
    ensures x == y / n
  {
  }

  lemma ProductIsPositive(x: real, y: real, d: real)
    requires x > 0.0 && y > 0.0 && d == x * y
    ensures d > 0.0
  {
  }

  lemma VarianceForms(h: Summary)
    requires h.num > 0.0
    ensures Variance(h) == Expanded(h.num, h.sum, h.sumSquares, Average(h)) / h.num
  {
    var n, a, q := h.num, h.sum, h.sumSquares;
    var m := a / n;
    var w := Expanded(n, a, q, m);
    MeanCancels(n, a, q, m);
    hide Expanded;
    var x := w / n;
    Regroup(x, w, n);
    var d, y := n * n, q * n - a * a;
    ProductIsPositive(n, n, d);
    assert x * d == y;
    QuotientUnique(x, y, d);
  }

  lemma Regroup(x: real, w: real, n: real)
    requires x * n == w
    ensures x * (n * n) == w * n
  {
  }

  lemma MeanCancels(n: real, a: real, q: real, m: real)
    requires m * n == a
    ensures Expanded(n, a, q, m) * n == q * n - a * a
  {
  }

  /** n times x. */
  ghost function Total(n: nat, x: real): real {
    n as real * x
  }

  lemma OneMore(n: nat, x: real)
    ensures Total(n + 1, x) == Total(n, x) + x
  {
  }

  lemma {:induction false} SumIsBounded(s: seq<real>, lo: real, hi: real)
    requires forall v :: v in s ==> lo <= v <= hi
    ensures Total(|s|, lo) <= Sum(s) <= Total(|s|, hi)
  {
    if s == [] {
      return;
    }
    hide Total;
    var r, x := s[..|s| - 1], s[|s| - 1];
    assert x in s && forall v :: v in r ==> v in s;
    SumIsBounded(r, lo, hi);
    OneMore(|r|, lo);
    OneMore(|r|, hi);
  }

  lemma QuotientBetween(a: real, n: real, lo: real, hi: real)
    requires n > 0.0 && n * lo <= a <= n * hi
    ensures lo <= a / n <= hi
  {
  }

  /** The average lies between min_ and max_. */
  lemma AverageBetweenExtremes(s: seq<real>)
    requires s != []
    ensures var h := SummaryOf(s); h.min <= Average(h) <= h.max
  {
    forall v | v in s ensures MinOf(s) <= v <= MaxOf(s) {
      ExtremesBound(s, v);
    }
    SumIsBounded(s, MinOf(s), MaxOf(s));
    hide Sum, MinOf, MaxOf, SumSquares, Count;
    QuotientBetween(Sum(s), |s| as real, MinOf(s), MaxOf(s));
  }
}
