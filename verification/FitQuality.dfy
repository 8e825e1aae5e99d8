/** What R-squared, the degenerate fits, the health score and the whole analysis say (aging/dimm_aging_report.py). */
module FitQuality {
  import opened RealAlgebra
  import opened DimmAging

  // ----- R-squared -----

  function ZeroList(n: nat): (xs: seq<real>)
    ensures |xs| == n && forall i :: 0 <= i < n ==> xs[i] == 0.0
  {
    seq(n, _ => 0.0)
  }

  /** Of all horizontal lines the one at the mean has the least residuals. */
  lemma MeanIsBestFlatLine(xs: seq<real>, ys: seq<real>, c: real)
    requires |xs| == |ys| && ys != []
    ensures Residuals(xs, ys, 0.0, Sum(ys) / |ys| as real) <= Residuals(xs, ys, 0.0, c)
  {
    hide Mul, Residuals, Det, Slope, Intercept;
    var zeros, mean := ZeroList(|ys|), Sum(ys) / |ys| as real;
    DeviationIsFlatResidual(xs, ys, mean);
    DeviationIsFlatResidual(xs, ys, c);
    DeviationIsFlatResidual(zeros, ys, mean);
    DeviationIsFlatResidual(zeros, ys, c);
    FitIsLeastSquares(zeros, ys);
    DegenerateFit(zeros, ys);
    Quotient(Sum(ys), |ys| as real, LinearRegression(zeros, ys).intercept);
  }

  /** Without two different x the fit is horizontal, at the mean, and at zero for no samples at all. */
  lemma DegenerateFit(xs: seq<real>, ys: seq<real>)
    requires |xs| == |ys| && AllEqual(xs)
    ensures var fit := LinearRegression(xs, ys);
            && fit.slope == 0.0 && fit.rSquared == 0.0
            && Mul(fit.intercept, |ys| as real) == Sum(ys) && (ys == [] ==> fit.intercept == 0.0)
  {
    hide Det, Slope, Intercept;
    DenominatorSign(xs);
    if |xs| == 1 {
      assert ys[1..] == [];
      assert Sum(ys) == ys[0] + Sum(ys[1..]);
    } else if |xs| >= 2 {
      hide Mul;
      Quotient(Sum(ys), |ys| as real, 0.0);
    }
  }

  /**
   * What R-squared measures: the share of the residuals of the best horizontal line that the fitted line takes away.
   * Where x or y does not vary it is 0.
   */
  lemma RSquaredMeaning(xs: seq<real>, ys: seq<real>)
    requires |xs| == |ys|
    ensures var fit := LinearRegression(xs, ys);
            && (AllEqual(xs) || AllEqual(ys) ==> fit.rSquared == 0.0)
            && (!AllEqual(xs) && !AllEqual(ys) ==>
                  exists c :: && Residuals(xs, ys, 0.0, c) > 0.0
                              && (forall c' :: Residuals(xs, ys, 0.0, c) <= Residuals(xs, ys, 0.0, c'))
                              && Mul(1.0 - fit.rSquared, Residuals(xs, ys, 0.0, c))
                                 == Residuals(xs, ys, fit.slope, fit.intercept))
  {
    hide Mul, Det, Slope, Intercept, Residuals;
    var fit := LinearRegression(xs, ys);
    DenominatorSign(xs);
    if ys != [] {
      var mean := Sum(ys) / |ys| as real;
      TotalSign(ys);
      DeviationIsFlatResidual(xs, ys, mean);
      if !AllEqual(xs) && !AllEqual(ys) {
        var left, total := Residuals(xs, ys, fit.slope, fit.intercept), Deviation(ys, mean);
        assert |xs| >= 2 && fit.rSquared == 1.0 - left / total;
        Quotient(left, total, 0.0);
        forall c' ensures Residuals(xs, ys, 0.0, mean) <= Residuals(xs, ys, 0.0, c') { MeanIsBestFlatLine(xs, ys, c'); }
        assert Mul(1.0 - fit.rSquared, Residuals(xs, ys, 0.0, mean)) == left;
      }
    }
    if AllEqual(xs) { DegenerateFit(xs, ys); }
  }

  // ----- health and the whole analysis -----

  /** Below the critical rate the score falls in proportion; at and above it, it is 0; without errors, 1. */
  lemma HealthMeaning(rate: real, critical: real)
    ensures rate >= critical ==> HealthScore(rate, critical) == 0.0
    ensures rate < critical && rate <= 0.0 ==> HealthScore(rate, critical) == 1.0
    ensures 0.0 < rate < critical ==> Mul(HealthScore(rate, critical), critical) == critical - rate
  {
    if 0.0 < rate < critical {
      hide Mul;
      UnitRatio(rate, critical);
      Quotient(rate, critical, 0.0);
      Distribute(critical, 1.0, rate / critical);
      Distribute(critical, rate / critical, 0.0);
      Distribute(critical, HealthScore(rate, critical), 0.0);
    }
  }

  /** The samples in days since the first one, with their rates. */
  ghost predicate InDays(points: seq<(real, real)>, xs: seq<real>, ys: seq<real>) {
    && |xs| == |points| == |ys|
    && forall i :: 0 <= i < |points| ==> xs[i] == (points[i].0 - points[0].0) / 86400.0 && ys[i] == points[i].1
  }

  lemma {:induction false} DaysSinceAt(points: seq<(real, real)>, t0: real)
    ensures forall i :: 0 <= i < |points| ==> DaysSince(points, t0)[i] == (points[i].0 - t0) / 86400.0
    ensures forall i :: 0 <= i < |points| ==> Rates(points)[i] == points[i].1
  {
    if points != [] {
      DaysSinceAt(points[1..], t0);
      assert forall i :: 0 < i < |points| ==> points[i] == points[1..][i - 1];
    }
  }

  /** The analysis is about the fit in days, the last rate, the warning threshold and the critical rate. */
  lemma AnalysisMeaning(points: seq<(real, real)>, xs: seq<real>, ys: seq<real>, warn: real, critical: real)
    requires InDays(points, xs, ys)
    ensures var report := AnalyzeSeries(points, warn, critical);
            && (points == [] ==> report == Analysis(Fit(0.0, 0.0, 0.0), 0.0, Infinite, 1.0))
            && (points != [] ==>
                  && report.fit == LinearRegression(xs, ys)
                  && report.currentRate == points[|points| - 1].1
                  && report.daysToThreshold == DaysToThreshold(report.currentRate, report.fit.slope, warn)
                  && report.health == HealthScore(report.currentRate, critical))
  {
    if points != [] {
      DaysSinceAt(points, points[0].0);
      assert xs == DaysSince(points, points[0].0) && ys == Rates(points);
    }
  }
}
