/** The least-squares line and its projections (aging/dimm_aging_report.py), over exact reals. */
module DimmAging {
  import opened RealAlgebra

  function Sum(s: seq<real>): real {
    if s == [] then 0.0 else s[0] + Sum(s[1..])
  }

  /** Sum of products over the two lists zipped, stopping with the shorter one. */
  function Dot(xs: seq<real>, ys: seq<real>): real {
    if xs == [] || ys == [] then 0.0 else Mul(xs[0], ys[0]) + Dot(xs[1..], ys[1..])
  }

  /** Sum of squared deviations of `ys` from `mean`. */
  function Deviation(ys: seq<real>, mean: real): real {
    if ys == [] then 0.0 else Square(ys[0] - mean) + Deviation(ys[1..], mean)
  }

  /** Sum of squared residuals of the points against the line `a * x + b`. */
  function Residuals(xs: seq<real>, ys: seq<real>, a: real, b: real): real {
    if xs == [] || ys == [] then 0.0
    else Square(ys[0] - (Mul(a, xs[0]) + b)) + Residuals(xs[1..], ys[1..], a, b)
  }

  function Denominator(xs: seq<real>): real { Det(|xs| as real, Sum(xs), Dot(xs, xs)) }

  datatype Fit = Fit(slope: real, intercept: real, rSquared: real)

  function LinearRegression(xs: seq<real>, ys: seq<real>): Fit {
    var n := |xs| as real;
    if |xs| < 2 then
      Fit(0.0, if ys != [] then ys[0] else 0.0, 0.0)
    else if Denominator(xs) == 0.0 then
      Fit(0.0, Sum(ys) / n, 0.0)
    else
      var slope := Slope(n, Sum(xs), Sum(ys), Dot(xs, xs), Dot(xs, ys));
      var intercept := Intercept(n, Sum(xs), Sum(ys), slope);
      var total := Deviation(ys, Sum(ys) / n);
      Fit(slope, intercept,
          if total > 0.0 then 1.0 - Residuals(xs, ys, slope, intercept) / total else 0.0)
  }

  /** No line has a smaller sum of squared residuals. */
  ghost predicate IsLeastSquares(xs: seq<real>, ys: seq<real>, a: real, b: real) {
    forall a', b' :: Residuals(xs, ys, a, b) <= Residuals(xs, ys, a', b')
  }

  ghost predicate OnLine(xs: seq<real>, ys: seq<real>, a: real, b: real)
    requires |xs| == |ys|
  {
    forall i :: 0 <= i < |xs| ==> ys[i] == Mul(a, xs[i]) + b
  }

  ghost predicate AllEqual(xs: seq<real>) {
    forall i :: 0 <= i < |xs| ==> xs[i] == xs[0]
  }

  ghost predicate NormalEquations(xs: seq<real>, ys: seq<real>, a: real, b: real) {
    && Mul(a, Dot(xs, xs)) + Mul(b, Sum(xs)) == Dot(xs, ys)
    && Mul(a, Sum(xs)) + Mul(b, |xs| as real) == Sum(ys)
  }

  /** The values the line `p * x + q` takes on `xs`, squared and summed. */
  ghost function LineEnergy(xs: seq<real>, p: real, q: real): real {
    if xs == [] then 0.0 else Square(Mul(p, xs[0]) + q) + LineEnergy(xs[1..], p, q)
  }

  /** Residuals are a quadratic in the moments of the samples. */
  lemma {:induction false} ResidualsExpand(xs: seq<real>, ys: seq<real>, a: real, b: real)
    requires |xs| == |ys|
    ensures Residuals(xs, ys, a, b)
         == Quad(Dot(ys, ys), Dot(xs, ys), Sum(ys), Dot(xs, xs), Sum(xs), |xs| as real, a, b)
  {
    hide Quad, Square, Mul;
    if xs == [] {
      ZeroQuad(a, b);
    } else {
      ResidualsExpand(xs[1..], ys[1..], a, b);
      QuadStep(xs[0], ys[0], a, b, Dot(ys[1..], ys[1..]), Dot(xs[1..], ys[1..]), Sum(ys[1..]),
               Dot(xs[1..], xs[1..]), Sum(xs[1..]), |xs[1..]| as real);
      assert |xs| as real == |xs[1..]| as real + 1.0;
    }
  }

  lemma {:induction false} LineEnergyExpand(xs: seq<real>, p: real, q: real)
    ensures LineEnergy(xs, p, q) == Quad(0.0, 0.0, 0.0, Dot(xs, xs), Sum(xs), |xs| as real, p, q)
  {
    hide Quad, Square, Mul;
    if xs == [] {
      ZeroQuad(p, q);
    } else {
      LineEnergyExpand(xs[1..], p, q);
      EnergyStep(xs[0], p, q, Dot(xs[1..], xs[1..]), Sum(xs[1..]), |xs[1..]| as real);
      assert |xs| as real == |xs[1..]| as real + 1.0;
    }
  }

  lemma {:induction false} LineEnergySign(xs: seq<real>, p: real, q: real)
    ensures LineEnergy(xs, p, q) >= 0.0
    ensures LineEnergy(xs, p, q) == 0.0 ==> forall i :: 0 <= i < |xs| ==> Mul(p, xs[i]) + q == 0.0
  {
    hide Square, Mul;
    if xs != [] {
      LineEnergySign(xs[1..], p, q);
      SquareSign(Mul(p, xs[0]) + q);
      forall i | 0 < i < |xs| ensures xs[i] == xs[1..][i - 1] {}
    }
  }

  /** Against a solution of the normal equations every other line loses by the energy of the difference. */
  lemma ResidualGap(xs: seq<real>, ys: seq<real>, a: real, b: real, a': real, b': real)
    requires |xs| == |ys| && NormalEquations(xs, ys, a, b)
    ensures Residuals(xs, ys, a', b') == Residuals(xs, ys, a, b) + LineEnergy(xs, a' - a, b' - b)
  {
    hide Quad, Square, Mul;
    ResidualsExpand(xs, ys, a, b);
    ResidualsExpand(xs, ys, a', b');
    LineEnergyExpand(xs, a' - a, b' - b);
    QuadGap(Dot(ys, ys), Dot(xs, xs), Sum(xs), |xs| as real, a, b, a' - a, b' - b);
    assert a + (a' - a) == a' && b + (b' - b) == b';
  }

  /** With all x equal to c the line `x == c` has no energy, and the products are c times the sums. */
  lemma {:induction false} ConstantSums(xs: seq<real>, ys: seq<real>, c: real)
    requires |xs| == |ys| && forall i :: 0 <= i < |xs| ==> xs[i] == c
    ensures LineEnergy(xs, 1.0, -c) == 0.0
    ensures Dot(xs, ys) == Mul(c, Sum(ys)) && Sum(xs) == Mul(c, |xs| as real)
  {
    hide Square, Mul;
    if xs == [] {
      ZeroProduct(c, 0.0);
    } else {
      ConstantSums(xs[1..], ys[1..], c);
      Distribute(c, ys[0], Sum(ys[1..]));
      Distribute(c, 1.0, |xs[1..]| as real);
      Distribute(1.0, c, c);
      SquareSign(Mul(1.0, xs[0]) + -c);
      assert |xs| as real == 1.0 + |xs[1..]| as real;
    }
  }

  /** The denominator is never negative, and vanishes exactly when all x agree. */
  lemma DenominatorSign(xs: seq<real>)
    ensures Denominator(xs) >= 0.0
    ensures Denominator(xs) == 0.0 <==> AllEqual(xs)
  {
    var n := |xs| as real;
    if xs == [] {
      assert Denominator(xs) == 0.0;
    } else {
      hide Quad, Square, Mul, Det;
      var mean := Sum(xs) / n;
      var spread := LineEnergy(xs, 1.0, -mean);
      Quotient(Sum(xs), n, xs[0]);
      LineEnergyExpand(xs, 1.0, -mean);
      LineEnergySign(xs, 1.0, -mean);
      SpreadIdentity(n, Sum(xs), Dot(xs, xs), mean);
      MulSign(n, spread);
      ZeroProduct(n, spread);
      if AllEqual(xs) {
        ConstantSums(xs, xs, xs[0]);
      }
      if spread == 0.0 {
        forall i | 0 <= i < |xs| ensures xs[i] == mean { Distribute(mean, xs[i], 0.0); }
      }
    }
  }

  /** Every branch of the fit solves the normal equations. */
  lemma FitSolvesNormalEquations(xs: seq<real>, ys: seq<real>)
    requires |xs| == |ys|
    ensures NormalEquations(xs, ys, LinearRegression(xs, ys).slope, LinearRegression(xs, ys).intercept)
  {
    hide Mul, Det, Slope, Intercept;
    var n := |xs| as real;
    ZeroProduct(0.0, Dot(xs, xs));
    ZeroProduct(0.0, Sum(xs));
    if |xs| == 0 {
      ZeroProduct(0.0, 0.0);
    } else if |xs| == 1 {
      assert n == 1.0 && xs[1..] == [] && ys[1..] == [];
      assert Sum(xs) == xs[0] && Sum(ys) == ys[0] && Dot(xs, ys) == Mul(xs[0], ys[0]);
      Distribute(ys[0], xs[0], n);
      Distribute(n, ys[0], ys[0]);
    } else if Denominator(xs) == 0.0 {
      DenominatorSign(xs);
      ConstantSums(xs, ys, xs[0]);
      var mean := Sum(ys) / n;
      Quotient(Sum(ys), n, 0.0);
      Reassociate(xs[0], mean, n);
      Reassociate(mean, xs[0], n);
      Distribute(mean, xs[0], xs[0]);
    } else {
      Cramer(n, Sum(xs), Sum(ys), Dot(xs, xs), Dot(xs, ys));
    }
  }

  /** The returned line minimises the squared residuals over all lines, in every branch. */
  lemma FitIsLeastSquares(xs: seq<real>, ys: seq<real>)
    requires |xs| == |ys|
    ensures IsLeastSquares(xs, ys, LinearRegression(xs, ys).slope, LinearRegression(xs, ys).intercept)
  {
    hide Mul, LinearRegression;
    var fit := LinearRegression(xs, ys);
    FitSolvesNormalEquations(xs, ys);
    forall a, b ensures Residuals(xs, ys, fit.slope, fit.intercept) <= Residuals(xs, ys, a, b) {
      ResidualGap(xs, ys, fit.slope, fit.intercept, a, b);
      LineEnergySign(xs, a - fit.slope, b - fit.intercept);
    }
  }

  /** The other minimisers differ from the fit by a line that vanishes on every sample. */
  lemma OtherMinimiser(xs: seq<real>, ys: seq<real>, a: real, b: real)
    requires |xs| == |ys|
    ensures var fit := LinearRegression(xs, ys);
            IsLeastSquares(xs, ys, a, b) <==> LineEnergy(xs, a - fit.slope, b - fit.intercept) == 0.0
  {
    hide Mul, LinearRegression;
    var fit := LinearRegression(xs, ys);
    FitIsLeastSquares(xs, ys);
    FitSolvesNormalEquations(xs, ys);
    ResidualGap(xs, ys, fit.slope, fit.intercept, a, b);
    LineEnergySign(xs, a - fit.slope, b - fit.intercept);
    if IsLeastSquares(xs, ys, a, b) {
      assert Residuals(xs, ys, a, b) <= Residuals(xs, ys, fit.slope, fit.intercept);
    }
  }

  /** The fit is the only minimiser exactly when two samples have different x. */
  lemma FitIsUnique(xs: seq<real>, ys: seq<real>)
    requires |xs| == |ys|
    ensures !AllEqual(xs) <==>
            forall a, b :: IsLeastSquares(xs, ys, a, b) ==>
              a == LinearRegression(xs, ys).slope && b == LinearRegression(xs, ys).intercept
  {
    hide Mul, LinearRegression, IsLeastSquares;
    var fit := LinearRegression(xs, ys);
    if AllEqual(xs) {
      var c := if xs == [] then 0.0 else xs[0];
      ConstantSums(xs, xs, c);
      var a, b := fit.slope + 1.0, fit.intercept - c;
      assert a - fit.slope == 1.0 && b - fit.intercept == -c;
      OtherMinimiser(xs, ys, a, b);
      assert a != fit.slope;
    } else {
      var j :| 0 <= j < |xs| && xs[j] != xs[0];
      forall a, b | IsLeastSquares(xs, ys, a, b) ensures a == fit.slope && b == fit.intercept {
        OtherMinimiser(xs, ys, a, b);
        LineEnergySign(xs, a - fit.slope, b - fit.intercept);
        TwoPointsFixLine(a - fit.slope, b - fit.intercept, xs[j], xs[0]);
      }
    }
  }

  lemma {:induction false} DeviationIsFlatResidual(xs: seq<real>, ys: seq<real>, mean: real)
    requires |xs| == |ys|
    ensures Deviation(ys, mean) == Residuals(xs, ys, 0.0, mean)
  {
    hide Square, Mul;
    if xs != [] {
      DeviationIsFlatResidual(xs[1..], ys[1..], mean);
      ZeroProduct(0.0, xs[0]);
    }
  }

  lemma {:induction false} DeviationSign(ys: seq<real>, mean: real)
    ensures Deviation(ys, mean) >= 0.0
    ensures Deviation(ys, mean) == 0.0 <==> forall i :: 0 <= i < |ys| ==> ys[i] == mean
  {
    hide Square;
    if ys != [] {
      DeviationSign(ys[1..], mean);
      SquareSign(ys[0] - mean);
      assert forall i :: 0 < i < |ys| ==> ys[i] == ys[1..][i - 1];
    }
  }

  lemma {:induction false} ResidualsSign(xs: seq<real>, ys: seq<real>, a: real, b: real)
    requires |xs| == |ys|
    ensures Residuals(xs, ys, a, b) >= 0.0
    ensures Residuals(xs, ys, a, b) == 0.0 <==> OnLine(xs, ys, a, b)
  {
    hide Square, Mul;
    if xs != [] {
      ResidualsSign(xs[1..], ys[1..], a, b);
      SquareSign(ys[0] - (Mul(a, xs[0]) + b));
      assert forall i :: 0 < i < |xs| ==> xs[i] == xs[1..][i - 1] && ys[i] == ys[1..][i - 1];
    }
  }

  /** The total deviation is positive exactly when the rates vary. */
  lemma TotalSign(ys: seq<real>)
    requires ys != []
    ensures var total := Deviation(ys, Sum(ys) / |ys| as real);
            total >= 0.0 && (total == 0.0 <==> AllEqual(ys))
  {
    hide Mul;
    var n := |ys| as real;
    DeviationSign(ys, Sum(ys) / n);
    if AllEqual(ys) {
      ConstantSums(ys, ys, ys[0]);
      Quotient(Sum(ys), n, ys[0]);
    }
  }

  /** R-squared lies in [0, 1]. It is 1 exactly when the samples vary in x and in y and all lie on the line. */
  lemma RSquaredRange(xs: seq<real>, ys: seq<real>)
    requires |xs| == |ys|
    ensures var fit := LinearRegression(xs, ys);
            && 0.0 <= fit.rSquared <= 1.0
            && (fit.rSquared == 1.0 <==>
                  !AllEqual(xs) && !AllEqual(ys) && OnLine(xs, ys, fit.slope, fit.intercept))
  {
    hide Mul, Det, Slope, Intercept, OnLine;
    DenominatorSign(xs);
    var fit := LinearRegression(xs, ys);
    if |xs| >= 2 && Denominator(xs) != 0.0 {
      var mean := Sum(ys) / |xs| as real;
      TotalSign(ys);
      DeviationIsFlatResidual(xs, ys, mean);
      ResidualsSign(xs, ys, fit.slope, fit.intercept);
      FitIsLeastSquares(xs, ys);
      assert Residuals(xs, ys, fit.slope, fit.intercept) <= Residuals(xs, ys, 0.0, mean);
      if !AllEqual(ys) {
        UnitRatio(Residuals(xs, ys, fit.slope, fit.intercept), Deviation(ys, mean));
      }
    } else if |xs| < 2 {
      assert AllEqual(xs);
    }
  }

  datatype Days = Infinite | Finite(days: real)

  function DaysToThreshold(currentRate: real, slope: real, threshold: real): Days {
    if slope <= 0.0 then Infinite
    else
      var remaining := threshold - currentRate;
      if remaining <= 0.0 then Finite(0.0) else Finite(remaining / slope)
  }

  /** `d` is the first non-negative time at which the extrapolated rate has reached the threshold. */
  ghost predicate FirstCrossing(currentRate: real, slope: real, threshold: real, d: real) {
    && d >= 0.0
    && currentRate + Mul(slope, d) >= threshold
    && forall t :: 0.0 <= t < d ==> currentRate + Mul(slope, t) < threshold
  }

  /**
   * A finite projection is the first crossing. An infinite one means that the threshold is never
   * reached, unless the slope is not positive and the rate has already reached the threshold: then
   * the code reports infinity although the crossing time is 0.
   */
  lemma DaysToThresholdMeaning(currentRate: real, slope: real, threshold: real)
    ensures var r := DaysToThreshold(currentRate, slope, threshold);
            && (r.Infinite? <==> slope <= 0.0)
            && (r.Finite? ==> FirstCrossing(currentRate, slope, threshold, r.days))
            && (r.Infinite? ==>
                  ((forall t :: t >= 0.0 ==> currentRate + Mul(slope, t) < threshold) <==> currentRate < threshold))
            && (r.Infinite? && currentRate >= threshold ==> FirstCrossing(currentRate, slope, threshold, 0.0))
  {
    hide Mul;
    if slope > 0.0 {
      var d := DaysToThreshold(currentRate, slope, threshold).days;
      ZeroProduct(slope, 0.0);
      if threshold > currentRate {
        Quotient(threshold - currentRate, slope, 0.0);
        Distribute(slope, d, d);
        MulSign(slope, d);
      }
      forall t | 0.0 <= t < d ensures Mul(slope, t) < Mul(slope, d) { MulMonotone(slope, t, d); }
    } else {
      forall t | t >= 0.0 ensures Mul(slope, t) <= 0.0 { MulSign(t, slope); Distribute(slope, t, t); }
      ZeroProduct(slope, 0.0);
    }
  }

  function HealthScore(currentRate: real, critical: real): (h: real)
    ensures 0.0 <= h <= 1.0
    ensures h == 0.0 <==> currentRate >= critical
    ensures h == 1.0 <==> currentRate < critical && currentRate <= 0.0
  {
    if currentRate >= critical then 0.0
    else if currentRate <= 0.0 then 1.0
    else
      UnitRatio(currentRate, critical);
      var v := 1.0 - currentRate / critical;
      if v > 0.0 then v else 0.0
  }

  /** A worse rate never scores healthier. */
  lemma HealthIsAntitone(r1: real, r2: real, critical: real)
    requires r1 <= r2
    ensures HealthScore(r1, critical) >= HealthScore(r2, critical)
  {
    if 0.0 < r1 && r2 < critical {
      hide Mul;
      Quotient(r1, critical, 0.0);
      Quotient(r2, critical, 0.0);
      Distribute(critical, r1 / critical, 0.0);
      Distribute(critical, r2 / critical, 0.0);
      MulMonotone(critical, r2 / critical, r1 / critical);
      UnitRatio(r1, critical);
      UnitRatio(r2, critical);
    }
  }

  datatype Analysis = Analysis(fit: Fit, currentRate: real, daysToThreshold: Days, health: real)

  /** Residuals of a line in the rescaled time `k * (x - c)` are those of the corresponding line in x. */
  lemma {:induction false} ResidualsRescale(xs: seq<real>, xs': seq<real>, ys: seq<real>, c: real, k: real,
                                            a: real, b: real)
    requires |xs| == |xs'| == |ys|
    requires forall i :: 0 <= i < |xs| ==> xs'[i] == Mul(k, xs[i] - c)
    ensures Residuals(xs', ys, a, b) == Residuals(xs, ys, Mul(a, k), b - Mul(Mul(a, k), c))
  {
    hide Mul, Square;
    if xs != [] {
      assert forall i :: 0 <= i < |xs[1..]| ==> xs'[1..][i] == Mul(k, xs[1..][i] - c);
      ResidualsRescale(xs[1..], xs'[1..], ys[1..], c, k, a, b);
      Reassociate(a, k, xs[0] - c);
      Distribute(Mul(a, k), xs[0], c);
    }
  }

  lemma RescaledMinimiser(xs: seq<real>, xs': seq<real>, ys: seq<real>, c: real, k: real)
    requires |xs| == |xs'| == |ys| && k != 0.0
    requires forall i :: 0 <= i < |xs| ==> xs'[i] == Mul(k, xs[i] - c)
    ensures var fit := LinearRegression(xs', ys);
            IsLeastSquares(xs, ys, Mul(fit.slope, k), fit.intercept - Mul(Mul(fit.slope, k), c))
  {
    hide Mul, LinearRegression;
    var fit := LinearRegression(xs', ys);
    FitIsLeastSquares(xs', ys);
    ResidualsRescale(xs, xs', ys, c, k, fit.slope, fit.intercept);
    forall a, b
      ensures Residuals(xs, ys, Mul(fit.slope, k), fit.intercept - Mul(Mul(fit.slope, k), c)) <= Residuals(xs, ys, a, b)
    {
      Quotient(a, k, 0.0);
      ResidualsRescale(xs, xs', ys, c, k, a / k, b + Mul(a, c));
      assert b + Mul(a, c) - Mul(a, c) == b;
      assert Residuals(xs', ys, fit.slope, fit.intercept) <= Residuals(xs', ys, a / k, b + Mul(a, c));
    }
  }

  /** Shifting and rescaling time divides the slope by the scale and leaves R-squared alone. */
  lemma FitIsCovariant(xs: seq<real>, xs': seq<real>, ys: seq<real>, c: real, k: real)
    requires |xs| == |xs'| == |ys| && k != 0.0
    requires forall i :: 0 <= i < |xs| ==> xs'[i] == Mul(k, xs[i] - c)
    ensures Mul(LinearRegression(xs', ys).slope, k) == LinearRegression(xs, ys).slope
    ensures LinearRegression(xs', ys).rSquared == LinearRegression(xs, ys).rSquared
  {
    hide Mul, Det, Slope, Intercept;
    var fit, fit' := LinearRegression(xs, ys), LinearRegression(xs', ys);
    DenominatorSign(xs);
    DenominatorSign(xs');
    if AllEqual(xs) {
      ZeroProduct(0.0, k);
    } else {
      var j :| 0 <= j < |xs| && xs[j] != xs[0];
      Distribute(k, xs[j] - c, xs[0] - c);
      ZeroProduct(k, xs[j] - c - (xs[0] - c));
      RescaledMinimiser(xs, xs', ys, c, k);
      FitIsUnique(xs, ys);
      ResidualsRescale(xs, xs', ys, c, k, fit'.slope, fit'.intercept);
    }
  }

  /** Times become days since the first sample. */
  function DaysSince(points: seq<(real, real)>, t0: real): (xs: seq<real>)
    ensures |xs| == |points|
  {
    if points == [] then [] else [(points[0].0 - t0) / 86400.0] + DaysSince(points[1..], t0)
  }

  function Rates(points: seq<(real, real)>): (ys: seq<real>)
    ensures |ys| == |points|
  {
    if points == [] then [] else [points[0].1] + Rates(points[1..])
  }

  function AnalyzeSeries(points: seq<(real, real)>, warn: real, critical: real): Analysis {
    if points == [] then Analysis(Fit(0.0, 0.0, 0.0), 0.0, Infinite, 1.0)
    else
      var ys := Rates(points);
      var fit := LinearRegression(DaysSince(points, points[0].0), ys);
      var current := ys[|ys| - 1];
      Analysis(fit, current, DaysToThreshold(current, fit.slope, warn), HealthScore(current, critical))
  }
}
