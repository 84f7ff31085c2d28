/** The two-pass population variance and the algebra of Welford's one-pass recurrence. */
module Variance {

  function Sum(xs: seq<real>): real {
    if xs == [] then 0.0 else Sum(xs[..|xs| - 1]) + xs[|xs| - 1]
  }

  /** The sum of the squared distances of the sample from a centre c. */
  function SquaredDeviation(xs: seq<real>, c: real): real {
    if xs == [] then 0.0
    else SquaredDeviation(xs[..|xs| - 1], c) + Square(xs[|xs| - 1] - c)
  }

  function Square(x: real): real {
    x * x
  }

  function Mean(xs: seq<real>): real {
    if xs == [] then 0.0 else Sum(xs) / |xs| as real
  }

  function PopulationVariance(xs: seq<real>): real {
    if xs == [] then 0.0 else SquaredDeviation(xs, Mean(xs)) / |xs| as real
  }

  lemma MeanTimesCount(xs: seq<real>)
    ensures |xs| as real * Mean(xs) == Sum(xs)
  {
  }

  lemma SumSnoc(xs: seq<real>, x: real)
    ensures Sum(xs + [x]) == Sum(xs) + x
    ensures forall c :: SquaredDeviation(xs + [x], c) == SquaredDeviation(xs, c) + Square(x - c)
  {
    hide Square;
    assert (xs + [x])[..|xs|] == xs;
  }

  /** The mixed term of the square of a sum. */
  function Mixed(d: real, y: real): real {
    2.0 * d * y
  }

  lemma SquareFromTwoCentres(x: real, a: real, b: real)
    ensures Square(x - b) == Square(x - a) + Mixed(a - b, x - a) + Square(a - b)
  {
    assert x - b == (x - a) + (a - b);
    assert (x - b) * (x - b) == (x - b) * (x - a) + (x - b) * (a - b);
  }

  /** What moving the centre by d adds, given the sum s of a sample of n values around a. */
  function Shift(s: real, n: real, a: real, d: real): real {
    2.0 * d * (s - n * a) + n * Square(d)
  }

  lemma ShiftStep(s: real, n: real, x: real, a: real, d: real)
    ensures Shift(s + x, n + 1.0, a, d) == Shift(s, n, a, d) + Mixed(d, x - a) + Square(d)
  {
    assert s + x - (n + 1.0) * a == (s - n * a) + (x - a);
    assert (2.0 * d) * ((s - n * a) + (x - a)) == (2.0 * d) * (s - n * a) + (2.0 * d) * (x - a);
  }

  lemma ShiftOfNothing(a: real, d: real)
    ensures Shift(0.0, 0.0, a, d) == 0.0
  {
  }

  /** Moving the centre from a to b changes the squared deviation by a closed form. */
  lemma {:induction false} Recentre(xs: seq<real>, a: real, b: real)
    ensures SquaredDeviation(xs, b) == SquaredDeviation(xs, a) + Shift(Sum(xs), |xs| as real, a, a - b)
  {
    if xs == [] {
      ShiftOfNothing(a, a - b);
    } else {
      hide *;
      var front, x := xs[..|xs| - 1], xs[|xs| - 1];
      Recentre(front, a, b);
      SumSnoc(front, x);
      assert front + [x] == xs;
      SquareFromTwoCentres(x, a, b);
      ShiftStep(Sum(front), |front| as real, x, a, a - b);
    }
  }

  /** The running mean and the running sum of squares after one more value x. */
  function NextMean(n: real, mean: real, x: real): real
    requires n >= 0.0
  {
    mean + (x - mean) / (n + 1.0)
  }

  function NextM2(m2: real, mean: real, mean': real, x: real): real {
    m2 + (x - mean) * (x - mean')
  }

  /**
   One turn of the loop: from the mean and the squared deviation of a prefix, the recurrence
   reaches those of the prefix extended by x.
   */
  lemma WelfordStep(xs: seq<real>, x: real)
    ensures NextMean(|xs| as real, Mean(xs), x) == Mean(xs + [x])
    ensures NextM2(SquaredDeviation(xs, Mean(xs)), Mean(xs), Mean(xs + [x]), x)
         == SquaredDeviation(xs + [x], Mean(xs + [x]))
  {
    hide *;
    SumSnoc(xs, x);
    MeanTimesCount(xs);
    MeanTimesCount(xs + [x]);
    MeanStep(|xs| as real, Sum(xs), x, Mean(xs), Mean(xs + [x]));
    M2Recentred(xs, x, Mean(xs), Mean(xs + [x]));
  }

  lemma M2Recentred(xs: seq<real>, x: real, mean: real, mean': real)
    requires |xs| as real * mean == Sum(xs)
    requires (|xs| as real + 1.0) * mean' == Sum(xs) + x
    ensures NextM2(SquaredDeviation(xs, mean), mean, mean', x) == SquaredDeviation(xs + [x], mean')
  {
    hide *;
    SumSnoc(xs, x);
    Recentre(xs, mean, mean');
    M2Step(|xs| as real, SquaredDeviation(xs, mean), Sum(xs), mean, mean', x);
  }

  lemma MeanStep(n: real, s: real, x: real, mean: real, mean': real)
    requires n >= 0.0
    requires n * mean == s
    requires (n + 1.0) * mean' == s + x
    ensures NextMean(n, mean, x) == mean'
  {
    var m := n + 1.0;
    assert m * mean == s + mean;
    assert m * (mean' - mean) == x - mean;
  }

  lemma M2Step(n: real, m2: real, s: real, mean: real, mean': real, x: real)
    requires n * mean == s
    requires (n + 1.0) * mean' == s + x
    ensures NextM2(m2, mean, mean', x) == m2 + Shift(s, n, mean, mean - mean') + Square(x - mean')
  {
    var e := mean' - mean;
    assert x - mean == (n + 1.0) * e;
    ProductAroundMean(n, e, x - mean, x - mean');
    assert Square(mean - mean') == Square(e);
    assert s - n * mean == 0.0;
  }

  lemma ProductAroundMean(n: real, e: real, d: real, d': real)
    requires d == (n + 1.0) * e
    requires d' == d - e
    ensures d * d' == n * Square(e) + Square(d')
  {
    assert d' == n * e;
    assert d * d' == (d' + e) * d' == d' * d' + e * d';
    assert e * d' == e * (n * e) == n * (e * e);
  }

  lemma SquarePositive(y: real)
    requires y > 0.0
    ensures Square(y) > 0.0
  {
    calc {
      Square(y);
      y * y;
    > 0.0;
    }
  }

  lemma SquareSign(y: real)
    ensures Square(y) >= 0.0
    ensures Square(y) == 0.0 <==> y == 0.0
  {
    if y < 0.0 {
      SquarePositive(-y);
      assert Square(y) == Square(-y);
    } else if y > 0.0 {
      SquarePositive(y);
    }
  }

  lemma {:induction false} DeviationSign(xs: seq<real>, c: real)
    ensures SquaredDeviation(xs, c) >= 0.0
    ensures SquaredDeviation(xs, c) == 0.0 <==> forall i :: 0 <= i < |xs| ==> xs[i] == c
  {
    if xs != [] {
      var n := |xs| - 1;
      DeviationSign(xs[..n], c);
      SquareSign(xs[n] - c);
      assert forall i :: 0 <= i < n ==> xs[i] == xs[..n][i];
    }
  }

  lemma {:induction false} SumOfEqual(xs: seq<real>, c: real)
    requires forall i :: 0 <= i < |xs| ==> xs[i] == c
    ensures Sum(xs) == |xs| as real * c
  {
    if xs != [] {
      SumOfEqual(xs[..|xs| - 1], c);
    }
  }

  ghost predicate AllEqual(xs: seq<real>) {
    forall i, j :: 0 <= i < |xs| && 0 <= j < |xs| ==> xs[i] == xs[j]
  }

  /** The variance is never negative, and vanishes exactly when the sample is constant. */
  lemma VarianceSign(xs: seq<real>)
    ensures PopulationVariance(xs) >= 0.0
    ensures PopulationVariance(xs) == 0.0 <==> AllEqual(xs)
  {
    if xs != [] {
      var m := Mean(xs);
      DeviationSign(xs, m);
      if AllEqual(xs) {
        SumOfEqual(xs, xs[0]);
        assert m == xs[0];
      }
      assert PopulationVariance(xs) == 0.0 <==> SquaredDeviation(xs, m) == 0.0;
    }
  }

  /** The variance in terms of the mean of the squares and the square of the mean. */
  lemma VarianceByMoments(xs: seq<real>)
    requires xs != []
    ensures |xs| as real * PopulationVariance(xs) == SquaredDeviation(xs, 0.0) - |xs| as real * Square(Mean(xs))
    ensures |xs| as real * Mean(xs) == Sum(xs)
  {
    hide Sum, SquaredDeviation, Mean, Shift, Square;
    var n, m := |xs| as real, Mean(xs);
    MeanTimesCount(xs);
    Recentre(xs, m, 0.0);
    TimesQuotient(n, SquaredDeviation(xs, m));
    ShiftFromMean(Sum(xs), n, m);
  }

  lemma TimesQuotient(n: real, x: real)
    requires n > 0.0
    ensures n * (x / n) == x
  {
  }

  lemma ShiftFromMean(s: real, n: real, m: real)
    requires n * m == s
    ensures Shift(s, n, m, m - 0.0) == n * Square(m)
  {
  }

  /** Sums and sums of squares gather every value, whatever the order of gathering. */
  lemma {:induction false} SumsJoin(xs: seq<real>, ys: seq<real>, c: real)
    ensures Sum(xs + ys) == Sum(xs) + Sum(ys)
    ensures SquaredDeviation(xs + ys, c) == SquaredDeviation(xs, c) + SquaredDeviation(ys, c)
  {
    if ys == [] {
      assert xs + ys == xs;
    } else {
      hide Square;
      var front, y := ys[..|ys| - 1], ys[|ys| - 1];
      SumsJoin(xs, front, c);
      SumSnoc(front, y);
      SumSnoc(xs + front, y);
      assert front + [y] == ys && xs + front + [y] == xs + ys;
    }
  }
}
