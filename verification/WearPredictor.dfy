/** Wear projection for storage devices (storage/wear_predictor.py), over exact reals. */
module WearPredictor {
  import opened Wrappers
  import opened RealAlgebra
  import opened DimmAging

  const MIN_HISTORY_HOURS := 72.0
  const MAX_DAYS := 3650.0

  /** The second, independent fit: no line when there are fewer than two samples or one single x. */
  function OlsSlopeIntercept(xs: seq<real>, ys: seq<real>): Option<(real, real)> {
    var n := |xs| as real;
    if |xs| < 2 then None
    else if Det(n, Sum(xs), Dot(xs, xs)) == 0.0 then None
    else
      var slope := Slope(n, Sum(xs), Sum(ys), Dot(xs, xs), Dot(xs, ys));
      Some((slope, Intercept(n, Sum(xs), Sum(ys), slope)))
  }

  /** It answers exactly when the least-squares line is unique, and then with that line. */
  lemma OlsAgreesWithLinearRegression(xs: seq<real>, ys: seq<real>)
    requires |xs| == |ys|
    ensures OlsSlopeIntercept(xs, ys).Some? <==> !AllEqual(xs)
    ensures !AllEqual(xs) ==>
              var fit := LinearRegression(xs, ys);
              && OlsSlopeIntercept(xs, ys).value == (fit.slope, fit.intercept)
              && IsLeastSquares(xs, ys, fit.slope, fit.intercept)
  {
    hide Mul, Det, Slope, Intercept;
    DenominatorSign(xs);
    FitIsLeastSquares(xs, ys);
    if |xs| < 2 { assert AllEqual(xs); }
  }

  datatype Prediction = Prediction(
    insufficientData: bool,
    slopePerHour: Option<real>,
    hoursRemaining: Option<real>,
    daysRemaining: Option<real>,
    ratePctPerDay: Option<real>,
    prob90d: Option<real>,
    currentValue: Option<real>)

  const EMPTY := Prediction(false, None, None, None, None, None, None)

  function Hours(timestamps: seq<real>, t0: real): (hs: seq<real>)
    ensures |hs| == |timestamps| && forall i :: 0 <= i < |hs| ==> hs[i] == (timestamps[i] - t0) / 3600.0
  {
    seq(|timestamps|, i requires 0 <= i < |timestamps| => (timestamps[i] - t0) / 3600.0)
  }

  predicate EnoughHistory(timestamps: seq<real>, values: seq<real>) {
    && |timestamps| == |values| > 0
    && timestamps[|timestamps| - 1] - timestamps[0] >= 72.0 * 3600.0
  }

  /** The hours until the extrapolated wear is 100 percent, not below zero. */
  function HoursToWearOut(current: real, slope: real): real
    requires slope > 0.0
  {
    var hours := (100.0 - current) / slope;
    if hours < 0.0 then 0.0 else hours
  }

  lemma WearOutMeaning(current: real, slope: real)
    requires slope > 0.0
    ensures var h := HoursToWearOut(current, slope);
            && FirstCrossing(current, slope, 100.0, h)
            && FirstCrossing(current, Mul(slope, 24.0), 100.0, h / 24.0)
            && DaysToThreshold(current, Mul(slope, 24.0), 100.0) == Finite(h / 24.0)
            && (h < 2160.0 <==> current + Mul(slope, 2160.0) > 100.0)
  {
    hide Mul;
    var h := HoursToWearOut(current, slope);
    var perDay := Mul(slope, 24.0);
    MulSign(slope, 24.0);
    Quotient(100.0 - current, slope, 0.0);
    Quotient(100.0 - current, perDay, h / 24.0);
    Distribute(slope, (100.0 - current) / slope, 0.0);
    MulSign(slope, (100.0 - current) / slope);
    MulMonotone(slope, h, 2160.0);
    MulMonotone(slope, 2160.0, h);
    ZeroProduct(slope, 0.0);
    DaysToThresholdMeaning(current, slope, 100.0);
    DaysToThresholdMeaning(current, perDay, 100.0);
    if h > 0.0 {
      Quotient(h, 24.0, 0.0);
      Distribute(24.0, h / 24.0, 0.0);
      Reassociate(h / 24.0, 24.0, slope);
      Distribute(h / 24.0, perDay, 0.0);
      Distribute(24.0, slope, 0.0);
      Distribute(slope, h, 0.0);
    }
  }

  method PredictDevice(timestamps: seq<real>, values: seq<real>) returns (result: Prediction)
    ensures result.insufficientData <==>
              !EnoughHistory(timestamps, values) || OlsSlopeIntercept(Hours(timestamps, timestamps[0]), values).None?
    ensures result.insufficientData ==> result == EMPTY.(insufficientData := true)
    ensures !result.insufficientData ==>
              var slope := OlsSlopeIntercept(Hours(timestamps, timestamps[0]), values).value.0;
              var current := values[|values| - 1];
              && result.slopePerHour == Some(slope)
              && result.currentValue == Some(current)
              && (slope <= 0.0 ==>
                    result == EMPTY.(slopePerHour := Some(slope), currentValue := Some(current)))
              && (slope > 0.0 ==>
                    && result.hoursRemaining.Some? && result.daysRemaining.Some?
                    && FirstCrossing(current, slope, 100.0, result.hoursRemaining.value)
                    && result.ratePctPerDay == Some(Mul(slope, 24.0))
                    && result.daysRemaining.value <= 3650.0
                    && (result.daysRemaining.value == 3650.0
                        || FirstCrossing(current, Mul(slope, 24.0), 100.0, result.daysRemaining.value))
                    && (result.daysRemaining.value == 3650.0 ==> result.hoursRemaining.value >= 3650.0 * 24.0)
                    && result.prob90d == Some(if current + Mul(slope, 2160.0) > 100.0 then 1.0 else 0.0))
  {
    result := EMPTY;
    if timestamps == [] || values == [] || |timestamps| != |values| {
      result := result.(insufficientData := true);
      return;
    }
    var hours := Hours(timestamps, timestamps[0]);
    var spanHours := hours[|hours| - 1] - hours[0];
    if spanHours < MIN_HISTORY_HOURS {
      result := result.(insufficientData := true);
      return;
    }
    var fit := OlsSlopeIntercept(hours, values);
    if fit.None? {
      result := result.(insufficientData := true);
      return;
    }
    var slope := fit.value.0;
    var current := values[|values| - 1];
    result := result.(currentValue := Some(current), slopePerHour := Some(slope));
    if slope <= 0.0 {
      return;
    }
    WearOutMeaning(current, slope);
    result := result.(ratePctPerDay := Some(slope * 24.0));
    var hoursRemaining := HoursToWearOut(current, slope);
    var daysRemaining := if hoursRemaining / 24.0 < MAX_DAYS then hoursRemaining / 24.0 else MAX_DAYS;
    result := result.(hoursRemaining := Some(hoursRemaining), daysRemaining := Some(daysRemaining),
                      prob90d := Some(if hoursRemaining < 90.0 * 24.0 then 1.0 else 0.0));
  }

  /** After the 72-hour span check the fit cannot fail: the first and the last time differ. */
  lemma FitExistsAfterSpanCheck(timestamps: seq<real>, values: seq<real>)
    requires EnoughHistory(timestamps, values)
    ensures OlsSlopeIntercept(Hours(timestamps, timestamps[0]), values).Some?
  {
    var hours := Hours(timestamps, timestamps[0]);
    assert hours[|hours| - 1] != hours[0];
    OlsAgreesWithLinearRegression(hours, values);
  }

  /**
   * The two tools project one device alike: on the same samples 24 times the hourly slope is the daily slope
   * of the aging report, and for a threshold of 100 both predict the same day.
   */
  lemma ProjectionsAgree(points: seq<(real, real)>, critical: real)
    requires EnoughHistory(Times(points), Rates(points))
    ensures OlsSlopeIntercept(Hours(Times(points), points[0].0), Rates(points)).Some?
    ensures var slope := OlsSlopeIntercept(Hours(Times(points), points[0].0), Rates(points)).value.0;
            var report := AnalyzeSeries(points, 100.0, critical);
            && report.fit.slope == Mul(slope, 24.0)
            && report.daysToThreshold ==
                 if slope <= 0.0 then Infinite else Finite(HoursToWearOut(report.currentRate, slope) / 24.0)
  {
    var hours, days, ys := Hours(Times(points), points[0].0), DaysSince(points, points[0].0), Rates(points);
    FitExistsAfterSpanCheck(Times(points), ys);
    OlsAgreesWithLinearRegression(hours, ys);
    HoursAreDays(points);
    hide Mul, OlsSlopeIntercept, LinearRegression, Hours, DaysSince, Times, IsLeastSquares;
    FitIsCovariant(days, hours, ys, 0.0, 24.0);
    var slope := OlsSlopeIntercept(hours, ys).value.0;
    MulSign(24.0, slope);
    MulSign(24.0, -slope);
    Distribute(24.0, slope, 0.0);
    Distribute(24.0, 0.0, slope);
    Distribute(slope, 24.0, 0.0);
    if slope > 0.0 { WearOutMeaning(ys[|ys| - 1], slope); }
  }

  lemma HoursAreDays(points: seq<(real, real)>)
    requires points != []
    ensures var hours, days := Hours(Times(points), points[0].0), DaysSince(points, points[0].0);
            forall i :: 0 <= i < |points| ==> hours[i] == Mul(24.0, days[i] - 0.0)
  {
    forall i | 0 <= i < |points|
      ensures Hours(Times(points), points[0].0)[i] == Mul(24.0, DaysSince(points, points[0].0)[i] - 0.0) {
      DaysSinceAt(points, points[0].0, i);
    }
  }

  function Times(points: seq<(real, real)>): (ts: seq<real>)
    ensures |ts| == |points| && forall i :: 0 <= i < |ts| ==> ts[i] == points[i].0
  {
    seq(|points|, i requires 0 <= i < |points| => points[i].0)
  }

  lemma {:induction false} DaysSinceAt(points: seq<(real, real)>, t0: real, i: nat)
    requires i < |points|
    ensures DaysSince(points, t0)[i] == (points[i].0 - t0) / 86400.0
  {
    if i > 0 { DaysSinceAt(points[1..], t0, i - 1); }
  }
}
