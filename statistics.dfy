/** The window statistics of filteredIntersection: the std::accumulate folds
    for the mean and the population variance of one coordinate, and the
    threshold test on the standard deviation written without a square root. */
module Statistics {

  /** Left fold of addition, starting from 0 (std::accumulate with +). */
  function Sum(xs: seq<real>): real
  {
    if xs == [] then 0.0 else Sum(xs[..|xs| - 1]) + xs[|xs| - 1]
  }

  /** Arithmetic mean: the sum divided by the count. */
  function Mean(xs: seq<real>): real
    requires |xs| > 0
  {
    Sum(xs) / (|xs| as real)
  }

  /** Left fold of squared deviations from m. */
  function SumSqDev(xs: seq<real>, m: real): (r: real)
    ensures r >= 0.0
  {
    if xs == [] then 0.0
    else
      SquareNonNegative(xs[|xs| - 1] - m);
      SumSqDev(xs[..|xs| - 1], m) + Square(xs[|xs| - 1] - m)
  }

  function Square(d: real): real
  {
    d * d
  }

  /** Population variance: squared deviations from the mean, divided by the
      count (not by count - 1). */
  function Variance(xs: seq<real>): (r: real)
    requires |xs| > 0
    ensures r >= 0.0
  {
    SumSqDev(xs, Mean(xs)) / (|xs| as real)
  }

  /** "sqrt(variance) > limit", stated without the square root: a negative
      limit is exceeded by every standard deviation. */
  predicate Exceeds(variance: real, limit: real)
  {
    limit < 0.0 || variance > Square(limit)
  }

  lemma SquareNonNegative(d: real)
    ensures Square(d) >= 0.0
  {
    if d != 0.0 {
      PositiveSquare(d);
    }
  }

  lemma PositiveSquare(d: real)
    requires d != 0.0
    ensures Square(d) > 0.0
  {
    if d < 0.0 {
      calc {
        Square(d);
     == (-d) * (-d);
     >  { assert -d > 0.0; }
        0.0;
      }
    } else {
      calc {
        Square(d);
     == d * d;
     >  0.0;
      }
    }
  }

  /** The square-root-free test agrees with the source's comparison of the
      standard deviation against the threshold, for whatever non-negative
      root sd of the variance is taken. */
  lemma StdDevGate(variance: real, limit: real, sd: real)
    requires sd >= 0.0 && Square(sd) == variance
    ensures sd > limit <==> Exceeds(variance, limit)
  {
    if limit >= 0.0 {
      if sd > limit {
        calc {
          Square(sd);
       == sd * sd;
       >  { ProductStrict(sd, limit, sd); }
          sd * limit;
       >= { ProductMonotone(limit, limit, sd); }
          limit * limit;
       == Square(limit);
        }
      } else {
        calc {
          Square(sd);
       == sd * sd;
       <= { ProductMonotone(sd, sd, limit); ProductMonotone(limit, sd, limit); }
          limit * limit;
       == Square(limit);
        }
      }
    }
  }

  /** A sum of n copies of a is n * a. */
  lemma {:induction false} SumOfConstant(xs: seq<real>, a: real)
    requires forall i :: 0 <= i < |xs| ==> xs[i] == a
    ensures Sum(xs) == (|xs| as real) * a
  {
    if xs != [] {
      SumOfConstant(xs[..|xs| - 1], a);
    }
  }

  /** Squared deviations from a of copies of a add up to 0. */
  lemma {:induction false} SqDevOfConstant(xs: seq<real>, a: real)
    requires forall i :: 0 <= i < |xs| ==> xs[i] == a
    ensures SumSqDev(xs, a) == 0.0
  {
    if xs != [] {
      SqDevOfConstant(xs[..|xs| - 1], a);
    }
  }

  /** Every single squared deviation is bounded by their sum. */
  lemma {:induction false} SqDevAtLeastTerm(xs: seq<real>, m: real, i: int)
    requires 0 <= i < |xs|
    ensures Square(xs[i] - m) <= SumSqDev(xs, m)
  {
    SquareNonNegative(xs[|xs| - 1] - m);
    if i < |xs| - 1 {
      SqDevAtLeastTerm(xs[..|xs| - 1], m, i);
    }
  }

  /** The variance is zero exactly when all values are equal, and then the
      mean is that common value. */
  lemma ZeroVarianceIffConstant(xs: seq<real>)
    requires |xs| > 0
    ensures Variance(xs) == 0.0 <==> forall i, j :: 0 <= i < |xs| && 0 <= j < |xs| ==> xs[i] == xs[j]
  {
    var n := |xs| as real;
    if forall i, j :: 0 <= i < |xs| && 0 <= j < |xs| ==> xs[i] == xs[j] {
      SumOfConstant(xs, xs[0]);
      assert Mean(xs) == xs[0];
      SqDevOfConstant(xs, xs[0]);
    } else {
      var i, j :| 0 <= i < |xs| && 0 <= j < |xs| && xs[i] != xs[j];
      var m := Mean(xs);
      if xs[i] != m {
        SqDevPositive(xs, m, i);
      } else {
        SqDevPositive(xs, m, j);
      }
      QuotientPositive(SumSqDev(xs, m), n);
    }
  }

  /** One value away from m makes the sum of squared deviations positive. */
  lemma SqDevPositive(xs: seq<real>, m: real, i: int)
    requires 0 <= i < |xs| && xs[i] != m
    ensures SumSqDev(xs, m) > 0.0
  {
    SqDevAtLeastTerm(xs, m, i);
    PositiveSquare(xs[i] - m);
  }

  lemma QuotientPositive(s: real, n: real)
    requires s > 0.0 && n > 0.0
    ensures s / n > 0.0
  {
  }

  /** Dividing by a positive count keeps n * lo <= s <= n * hi within [lo, hi]. */
  lemma QuotientBetween(s: real, n: real, lo: real, hi: real)
    requires n > 0.0
    requires n * lo <= s <= n * hi
    ensures lo <= s / n <= hi
  {
    assert s / n - lo == (s - n * lo) / n;
    assert hi - s / n == (n * hi - s) / n;
  }

  /** Values in [lo, hi] add up to between n * lo and n * hi. */
  lemma {:induction false} SumBetween(xs: seq<real>, lo: real, hi: real)
    requires forall i :: 0 <= i < |xs| ==> lo <= xs[i] <= hi
    ensures (|xs| as real) * lo <= Sum(xs) <= (|xs| as real) * hi
  {
    if xs != [] {
      SumBetween(xs[..|xs| - 1], lo, hi);
    }
  }

  /** The mean of values in [lo, hi] lies in [lo, hi]. */
  lemma MeanBetween(xs: seq<real>, lo: real, hi: real)
    requires |xs| > 0
    requires forall i :: 0 <= i < |xs| ==> lo <= xs[i] <= hi
    ensures lo <= Mean(xs) <= hi
  {
    SumBetween(xs, lo, hi);
    QuotientBetween(Sum(xs), |xs| as real, lo, hi);
  }

  lemma SquareBound(d: real, w: real)
    requires -w <= d <= w
    ensures Square(d) <= w * w
  {
    var e := if d < 0.0 then -d else d;
    assert 0.0 <= e <= w;
    calc {
      Square(d);
   == e * e;
   <= { ProductMonotone(e, e, w); }
      e * w;
   <= { ProductMonotone(w, e, w); }
      w * w;
    }
  }

  /** Multiplying by a positive factor keeps a strict inequality. */
  lemma ProductStrict(k: real, a: real, b: real)
    requires k > 0.0 && a < b
    ensures k * a < k * b
  {
  }

  /** Multiplying by a non-negative factor keeps an inequality. */
  lemma ProductMonotone(k: real, a: real, b: real)
    requires k >= 0.0 && a <= b
    ensures k * a <= k * b
  {
  }

  /** Deviations bounded by w give a sum of squares of at most n * w * w. */
  lemma {:induction false} SqDevBounded(xs: seq<real>, m: real, w: real)
    requires forall i :: 0 <= i < |xs| ==> m - w <= xs[i] <= m + w
    ensures SumSqDev(xs, m) <= (|xs| as real) * (w * w)
  {
    if xs != [] {
      SqDevBounded(xs[..|xs| - 1], m, w);
      SquareBound(xs[|xs| - 1] - m, w);
    }
  }

  /** Values confined to [lo, hi] have a variance of at most (hi - lo)^2. */
  lemma VarianceBounded(xs: seq<real>, lo: real, hi: real)
    requires |xs| > 0
    requires forall i :: 0 <= i < |xs| ==> lo <= xs[i] <= hi
    ensures Variance(xs) <= (hi - lo) * (hi - lo)
  {
    var m := Mean(xs);
    var n := |xs| as real;
    MeanBetween(xs, lo, hi);
    SqDevBounded(xs, m, hi - lo);
    QuotientBetween(SumSqDev(xs, m), n, 0.0, (hi - lo) * (hi - lo));
  }

  /** Values confined to [lo, hi] pass the spread gate whenever the width of
      that range is within the threshold. */
  lemma BoundedValuesPassGate(xs: seq<real>, lo: real, hi: real, limit: real)
    requires |xs| > 0
    requires forall i :: 0 <= i < |xs| ==> lo <= xs[i] <= hi
    requires limit >= 0.0 && Square(hi - lo) <= Square(limit)
    ensures !Exceeds(Variance(xs), limit)
  {
    VarianceBounded(xs, lo, hi);
    var v := Variance(xs);
    assert v <= Square(hi - lo);
  }
}
