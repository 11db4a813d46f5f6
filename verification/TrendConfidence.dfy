/**
 `_calculate_trend_confidence` of shared/db_capacity_planner.py: R-squared of the line fitted
 to a series at x = 0, 1, 2, ..., in exact arithmetic.

 The sums over i are inner products: of the deviations of x and y from their means, and of
 the fit's errors with themselves.
 */
module TrendConfidence {
  function Sum(s: seq<real>): real {
    if s == [] then 0.0 else Sum(s[..|s| - 1]) + s[|s| - 1]
  }

  function Mean(s: seq<real>): real
    requires s != []
  {
    Sum(s) / |s| as real
  }

  function Times(a: real, b: real): real { a * b }

  // The inner product.
  function Dot(u: seq<real>, v: seq<real>): real
    requires |u| == |v|
  {
    if u == [] then 0.0
    else
      var n := |u| - 1;
      Dot(u[..n], v[..n]) + Times(u[n], v[n])
  }

  function Indices(n: nat): (r: seq<real>)
    ensures |r| == n && forall i :: 0 <= i < n ==> r[i] == i as real
  {
    seq(n, i requires 0 <= i < n => i as real)
  }

  // Each element less m.
  function Deviations(s: seq<real>, m: real): (r: seq<real>)
    ensures |r| == |s| && forall i :: 0 <= i < |s| ==> r[i] == s[i] - m
  {
    seq(|s|, i requires 0 <= i < |s| => s[i] - m)
  }

  // How far each point lies above the line.
  function Errors(x: seq<real>, y: seq<real>, slope: real, intercept: real): (r: seq<real>)
    requires |x| == |y|
    ensures |r| == |y| && forall i :: 0 <= i < |y| ==> r[i] == y[i] - (slope * x[i] + intercept)
  {
    seq(|y|, i requires 0 <= i < |y| => y[i] - (slope * x[i] + intercept))
  }

  datatype Fit = Fit(sxx: real, sxy: real, slope: real, intercept: real, ssTot: real, ssRes: real)

  function FitLine(y: seq<real>): Fit
    requires |y| >= 2
  {
    var x := Indices(|y|);
    var dx, dy := Deviations(x, Mean(x)), Deviations(y, Mean(y));
    var sxy, sxx := Dot(dx, dy), Dot(dx, dx);
    SpreadIsPositive(|y|);
    var slope := sxy / sxx;
    var intercept := Mean(y) - slope * Mean(x);
    var errors := Errors(x, y, slope, intercept);
    Fit(sxx, sxy, slope, intercept, Dot(dy, dy), Dot(errors, errors))
  }

  // Into the unit interval.
  function Clamp(r: real): real {
    var m := if r < 1.0 then r else 1.0;
    if m > 0.0 then m else 0.0
  }

  // The code.  Its test for a zero sxx is dropped, as it never succeeds: SpreadIsPositive.
  function Confidence(values: seq<real>): real {
    if |values| < 3 then 0.0
    else
      var f := FitLine(values);
      if f.ssTot == 0.0 then 1.0 else Clamp(1.0 - f.ssRes / f.ssTot)
  }

  // ----- Inner products

  lemma TimesPositive(a: real, b: real)
    requires a > 0.0 && b > 0.0
    ensures Times(a, b) > 0.0
  {
  }

  lemma SquareSign(a: real)
    ensures Times(a, a) >= 0.0 && (Times(a, a) > 0.0 <==> a != 0.0)
  {
    if a > 0.0 {
      TimesPositive(a, a);
    } else if a < 0.0 {
      TimesPositive(-a, -a);
      assert Times(a, a) == Times(-a, -a);
    } else {
      assert Times(a, a) == 0.0;
    }
  }

  lemma {:induction false} DotSelf(u: seq<real>)
    ensures Dot(u, u) >= 0.0
    ensures Dot(u, u) == 0.0 <==> forall i :: 0 <= i < |u| ==> u[i] == 0.0
  {
    if u != [] {
      var n := |u| - 1;
      DotSelf(u[..n]);
      SquareSign(u[n]);
      assert forall i :: 0 <= i < n ==> u[..n][i] == u[i];
      assert Dot(u, u) == 0.0 <==> Dot(u[..n], u[..n]) == 0.0 && u[n] == 0.0;
    }
  }

  lemma {:induction false} DotSymmetric(u: seq<real>, v: seq<real>)
    requires |u| == |v|
    ensures Dot(u, v) == Dot(v, u)
  {
    if u != [] {
      DotSymmetric(u[..|u| - 1], v[..|u| - 1]);
    }
  }

  lemma TimesLinear(u: real, v: real, w: real, k: real)
    ensures Times(u, v - k * w) == Times(u, v) - k * Times(u, w)
  {
    assert u * (k * w) == k * (u * w);
  }

  lemma Distribute(k: real, q: real, t: real)
    ensures k * (q + t) == k * q + k * t
  {
  }

  // r is v less k times w.
  ghost predicate Combined(r: seq<real>, v: seq<real>, k: real, w: seq<real>) {
    |r| == |v| == |w| && forall i :: 0 <= i < |r| ==> r[i] == v[i] - k * w[i]
  }

  lemma CombinedSooner(r: seq<real>, v: seq<real>, k: real, w: seq<real>)
    requires Combined(r, v, k, w) && r != []
    ensures var n := |r| - 1; Combined(r[..n], v[..n], k, w[..n]) && r[n] == v[n] - k * w[n]
  {
  }

  lemma {:induction false} DotLinear(u: seq<real>, v: seq<real>, w: seq<real>, r: seq<real>, k: real)
    requires Combined(r, v, k, w) && |u| == |r|
    ensures Dot(u, r) == Dot(u, v) - Times(k, Dot(u, w))
  {
    if u != [] {
      var n := |u| - 1;
      CombinedSooner(r, v, k, w);
      DotLinear(u[..n], v[..n], w[..n], r[..n], k);
      DotLinearStep(Dot(u[..n], v[..n]), Dot(u[..n], w[..n]), u[n], v[n], w[n], r[n], k);
    }
  }

  lemma DotLinearStep(p: real, q: real, u: real, v: real, w: real, r: real, k: real)
    requires r == v - k * w
    ensures (p - Times(k, q)) + Times(u, r) == (p + Times(u, v)) - Times(k, q + Times(u, w))
  {
    TimesLinear(u, v, w, k);
    Distribute(k, q, Times(u, w));
  }

  // ----- The fit

  // The x values differ, so their spread is never zero.
  lemma SpreadIsPositive(n: nat)
    requires n >= 2
    ensures var dx := Deviations(Indices(n), Mean(Indices(n))); Dot(dx, dx) > 0.0
  {
    var dx := Deviations(Indices(n), Mean(Indices(n)));
    DotSelf(dx);
    assert dx[0] != dx[1];
  }

  // The errors of a line through the means.
  lemma ErrorsAreDeviations(x: seq<real>, y: seq<real>, xm: real, ym: real, k: real, c: real)
    requires |x| == |y| && c == ym - k * xm
    ensures Combined(Errors(x, y, k, c), Deviations(y, ym), k, Deviations(x, xm))
  {
    forall i | 0 <= i < |y| ensures Errors(x, y, k, c)[i] == Deviations(y, ym)[i] - k * Deviations(x, xm)[i] {
      assert k * (x[i] - xm) == k * x[i] - k * xm;
    }
  }

  // The errors of the least-squares line are orthogonal to x, which leaves of the total
  // exactly slope * sxy explained.
  lemma {:induction false} ErrorsAreOrthogonal(dx: seq<real>, dy: seq<real>, e: seq<real>, k: real)
    requires |dx| == |dy| == |e| && Times(k, Dot(dx, dx)) == Dot(dx, dy)
    requires Combined(e, dy, k, dx)
    ensures Dot(e, e) == Dot(dy, dy) - Times(k, Dot(dx, dy))
  {
    DotLinear(dx, dy, dx, e, k);
    DotLinear(dy, dy, dx, e, k);
    DotLinear(e, dy, dx, e, k);
    DotSymmetric(e, dx);
    DotSymmetric(e, dy);
    DotSymmetric(dy, dx);
  }

  lemma Quotient(a: real, b: real)
    requires b > 0.0
    ensures (a / b) * b == a
  {
  }

  lemma SlopeTimesSpread(y: seq<real>)
    requires |y| >= 2
    ensures var f := FitLine(y); f.sxx > 0.0 && Times(f.slope, f.sxx) == f.sxy
  {
    SpreadIsPositive(|y|);
    Quotient(FitLine(y).sxy, FitLine(y).sxx);
  }

  // The fit in terms of the deviations from the means and of its errors.
  lemma FitParts(y: seq<real>) returns (dx: seq<real>, dy: seq<real>, e: seq<real>)
    requires |y| >= 2
    ensures |dx| == |dy| == |e| && Combined(e, dy, FitLine(y).slope, dx)
    ensures FitLine(y) ==
            Fit(Dot(dx, dx), Dot(dx, dy), FitLine(y).slope, FitLine(y).intercept, Dot(dy, dy), Dot(e, e))
  {
    var f, x := FitLine(y), Indices(|y|);
    dx, dy, e := Deviations(x, Mean(x)), Deviations(y, Mean(y)), Errors(x, y, f.slope, f.intercept);
    ErrorsAreDeviations(x, y, Mean(x), Mean(y), f.slope, f.intercept);
  }

  // What makes a fit the least-squares one, in its own terms.
  ghost predicate LeastSquares(f: Fit) {
    f.sxx > 0.0 && Times(f.slope, f.sxx) == f.sxy && f.ssRes == f.ssTot - Times(f.slope, f.sxy)
  }

  lemma {:induction false} PartsAreLeastSquares(f: Fit, dx: seq<real>, dy: seq<real>, e: seq<real>)
    requires |dx| == |dy| == |e| && Combined(e, dy, f.slope, dx)
    requires f == Fit(Dot(dx, dx), Dot(dx, dy), f.slope, f.intercept, Dot(dy, dy), Dot(e, e))
    requires f.sxx > 0.0 && Times(f.slope, f.sxx) == f.sxy
    ensures LeastSquares(f)
  {
    ErrorsAreOrthogonal(dx, dy, e, f.slope);
  }

  lemma ResidualOfFit(y: seq<real>)
    requires |y| >= 2
    ensures LeastSquares(FitLine(y))
  {
    SlopeTimesSpread(y);
    var dx, dy, e := FitParts(y);
    PartsAreLeastSquares(FitLine(y), dx, dy, e);
  }

  // ----- No other line does better

  lemma {:induction false} DotConstant(u: seq<real>, b: real, bs: seq<real>)
    requires |bs| == |u| && forall i :: 0 <= i < |bs| ==> bs[i] == b
    ensures Dot(u, bs) == Times(b, Sum(u))
  {
    if u != [] {
      var n := |u| - 1;
      DotConstant(u[..n], b, bs[..n]);
      Distribute(b, Sum(u[..n]), u[n]);
    }
  }

  lemma {:induction false} SumCombined(r: seq<real>, v: seq<real>, k: real, w: seq<real>)
    requires Combined(r, v, k, w)
    ensures Sum(r) == Sum(v) - Times(k, Sum(w))
  {
    if r != [] {
      var n := |r| - 1;
      CombinedSooner(r, v, k, w);
      SumCombined(r[..n], v[..n], k, w[..n]);
      Distribute(k, Sum(w[..n]), w[n]);
    }
  }

  lemma {:induction false} SumDeviations(s: seq<real>, m: real)
    ensures Sum(Deviations(s, m)) == Sum(s) - Times(|s| as real, m)
  {
    if s != [] {
      var n := |s| - 1;
      SumDeviations(s[..n], m);
      assert Deviations(s, m)[..n] == Deviations(s[..n], m);
      assert |s| as real == n as real + 1.0;
      Distribute(m, n as real, 1.0);
    }
  }

  lemma DeviationsCancel(s: seq<real>)
    requires s != []
    ensures Sum(Deviations(s, Mean(s))) == 0.0
  {
    SumDeviations(s, Mean(s));
    Quotient(Sum(s), |s| as real);
  }

  // The errors of the fit sum to 0 and are orthogonal to the deviations of x.
  lemma ErrorsBalance(y: seq<real>)
    requires |y| >= 2
    ensures var f, x := FitLine(y), Indices(|y|);
            var e := Errors(x, y, f.slope, f.intercept);
            Sum(e) == 0.0 && Dot(e, Deviations(x, Mean(x))) == 0.0
  {
    var f, x := FitLine(y), Indices(|y|);
    var dx, dy, e := Deviations(x, Mean(x)), Deviations(y, Mean(y)), Errors(x, y, f.slope, f.intercept);
    ErrorsAreDeviations(x, y, Mean(x), Mean(y), f.slope, f.intercept);
    DeviationsCancel(x);
    DeviationsCancel(y);
    SumCombined(e, dy, f.slope, dx);
    SlopeTimesSpread(y);
    DotLinear(dx, dy, dx, e, f.slope);
    DotSymmetric(e, dx);
  }

  // Errors of another line, in terms of those of the fit.
  lemma OtherErrors(e: seq<real>, d: seq<real>, e': seq<real>)
    requires Combined(e', e, -1.0, d) && Dot(e, d) == 0.0
    ensures Dot(e', e') == Dot(e, e) + Dot(d, d)
  {
    DotLinear(e', e, d, e', -1.0);
    DotLinear(e, e, d, e', -1.0);
    DotLinear(d, e, d, e', -1.0);
    DotSymmetric(e', e);
    DotSymmetric(e', d);
    DotSymmetric(e, d);
  }

  function Constant(n: nat, b: real): (r: seq<real>)
    ensures |r| == n && forall i :: 0 <= i < n ==> r[i] == b
  {
    seq(n, i => b)
  }

  // b + a * dx[i], for the deviations dx.
  function LineOver(dx: seq<real>, a: real, b: real): (d: seq<real>)
    ensures Combined(d, Constant(|dx|, b), -a, dx)
  {
    seq(|dx|, i requires 0 <= i < |dx| => b - (-a) * dx[i])
  }

  lemma OrthogonalToLines(e: seq<real>, dx: seq<real>, d: seq<real>, a: real, b: real)
    requires |e| == |dx| && Combined(d, Constant(|dx|, b), -a, dx)
    requires Sum(e) == 0.0 && Dot(e, dx) == 0.0
    ensures Dot(e, d) == 0.0
  {
    DotConstant(e, b, Constant(|e|, b));
    DotLinear(e, Constant(|e|, b), dx, d, -a);
    TimesZero(b);
    TimesZero(-a);
  }

  lemma TimesZero(k: real)
    ensures Times(k, 0.0) == 0.0
  {
  }

  lemma BetweenLines(y: real, x: real, m: real, k: real, c: real, k': real, c': real)
    ensures y - (k' * x + c') ==
            (y - (k * x + c)) - (-1.0) * (((k - k') * m + (c - c')) - (-(k - k')) * (x - m))
  {
  }

  lemma ErrorsBetweenLines(x: seq<real>, y: seq<real>, m: real, k: real, c: real, k': real, c': real)
    requires |x| == |y|
    ensures Combined(Errors(x, y, k', c'), Errors(x, y, k, c), -1.0,
                     LineOver(Deviations(x, m), k - k', (k - k') * m + (c - c')))
  {
    var d := LineOver(Deviations(x, m), k - k', (k - k') * m + (c - c'));
    forall i | 0 <= i < |y| ensures Errors(x, y, k', c')[i] == Errors(x, y, k, c)[i] - (-1.0) * d[i] {
      BetweenLines(y[i], x[i], m, k, c, k', c');
    }
  }

  // Errors that balance are the smallest among all lines.
  lemma BalancedIsBest(e: seq<real>, dx: seq<real>, a: real, b: real, e': seq<real>)
    requires |e| == |dx| && Sum(e) == 0.0 && Dot(e, dx) == 0.0
    requires Combined(e', e, -1.0, LineOver(dx, a, b))
    ensures Dot(e, e) <= Dot(e', e')
  {
    var d := LineOver(dx, a, b);
    OrthogonalToLines(e, dx, d, a, b);
    OtherErrors(e, d, e');
    DotSelf(d);
  }

  // So of all lines the fitted one has the smallest sum of squared errors.
  lemma FitIsBest(y: seq<real>, slope: real, intercept: real)
    requires |y| >= 2
    ensures var other := Errors(Indices(|y|), y, slope, intercept);
            FitLine(y).ssRes <= Dot(other, other)
  {
    var f, x := FitLine(y), Indices(|y|);
    var m, k, c := Mean(x), f.slope, f.intercept;
    ErrorsBalance(y);
    ErrorsBetweenLines(x, y, m, k, c, slope, intercept);
    BalancedIsBest(Errors(x, y, k, c), Deviations(x, m), k - slope, (k - slope) * m + (c - intercept),
                   Errors(x, y, slope, intercept));
  }

  // The total is 0 exactly for a constant series.
  lemma TotalIsZeroIff(y: seq<real>)
    requires |y| >= 2
    ensures FitLine(y).ssTot == 0.0 <==> forall i :: 0 <= i < |y| ==> y[i] == Mean(y)
  {
    DotSelf(Deviations(y, Mean(y)));
  }

  // Fewer than three points have no confidence, and a constant series has full confidence.
  lemma EdgesOfConfidence(y: seq<real>)
    ensures |y| < 3 ==> Confidence(y) == 0.0
    ensures |y| >= 3 && (forall i :: 0 <= i < |y| ==> y[i] == Mean(y)) ==> Confidence(y) == 1.0
  {
    if |y| >= 3 {
      TotalIsZeroIff(y);
    }
  }

  lemma ExplainedPart(k: real, sxx: real, sxy: real)
    requires sxx > 0.0 && k * sxx == sxy
    ensures k * sxy >= 0.0 && sxx * (k * sxy) == sxy * sxy
  {
    SquareSign(k);
    assert k * sxy == Times(k, k) * sxx;
  }

  // For every series the residual sum of squares lies between 0 and the total one.
  lemma ResidualWithinTotal(y: seq<real>)
    requires |y| >= 2
    ensures 0.0 <= FitLine(y).ssRes <= FitLine(y).ssTot
  {
    var f := FitLine(y);
    ResidualOfFit(y);
    DotSelf(Errors(Indices(|y|), y, f.slope, f.intercept));
    ExplainedPart(f.slope, f.sxx, f.sxy);
  }

  // The Cauchy-Schwarz inequality for the deviations, which is the same fact.
  lemma CauchySchwarz(y: seq<real>)
    requires |y| >= 2
    ensures var f := FitLine(y); f.sxy * f.sxy <= f.sxx * f.ssTot
  {
    var f := FitLine(y);
    ResidualOfFit(y);
    ResidualWithinTotal(y);
    ExplainedPart(f.slope, f.sxx, f.sxy);
    assert f.sxx * f.ssRes >= 0.0;
    assert f.sxx * f.ssRes == f.sxx * f.ssTot - f.sxx * (f.slope * f.sxy);
  }

  lemma RatioInUnit(part: real, whole: real)
    requires 0.0 <= part <= whole && whole > 0.0
    ensures 0.0 <= part / whole <= 1.0 && (part / whole) * whole == part
  {
  }

  // So the clamp never changes anything; for a series that varies the confidence is the
  // squared correlation coefficient, and it is 1 exactly when the points lie on a line.
  lemma ClampIsIdle(y: seq<real>)
    requires |y| >= 3
    ensures 0.0 <= Confidence(y) <= 1.0
    ensures var f := FitLine(y);
            f.ssTot != 0.0 ==>
              && Confidence(y) == 1.0 - f.ssRes / f.ssTot
              && Confidence(y) * (f.sxx * f.ssTot) == f.sxy * f.sxy
              && (Confidence(y) == 1.0 <==>
                  forall i :: 0 <= i < |y| ==> y[i] == f.slope * i as real + f.intercept)
  {
    ConfidenceIsUnclamped(y);
    if FitLine(y).ssTot != 0.0 {
      ResidualOfFit(y);
      Correlation(1.0 - Confidence(y), FitLine(y));
      StraightIffNoResidual(y);
    }
  }

  lemma ConfidenceIsUnclamped(y: seq<real>)
    requires |y| >= 3
    ensures 0.0 <= Confidence(y) <= 1.0
    ensures var f := FitLine(y);
            f.ssTot != 0.0 ==> Confidence(y) == 1.0 - f.ssRes / f.ssTot && (1.0 - Confidence(y)) * f.ssTot == f.ssRes
  {
    var f := FitLine(y);
    ResidualWithinTotal(y);
    if f.ssTot != 0.0 {
      RatioInUnit(f.ssRes, f.ssTot);
    }
  }

  lemma Correlation(q: real, f: Fit)
    requires f.sxx > 0.0 && q * f.ssTot == f.ssRes && f.slope * f.sxx == f.sxy && f.ssRes == f.ssTot - f.slope * f.sxy
    ensures (1.0 - q) * (f.sxx * f.ssTot) == f.sxy * f.sxy
    ensures f.ssTot != 0.0 ==> (q == 0.0 <==> f.ssRes == 0.0)
  {
    assert (1.0 - q) * f.ssTot == f.slope * f.sxy;
    assert (1.0 - q) * (f.sxx * f.ssTot) == f.sxx * ((1.0 - q) * f.ssTot);
    ExplainedPart(f.slope, f.sxx, f.sxy);
  }

  lemma NoErrorsIffStraight(x: seq<real>, y: seq<real>, slope: real, intercept: real)
    requires |x| == |y|
    ensures var e := Errors(x, y, slope, intercept);
            Dot(e, e) == 0.0 <==> forall i :: 0 <= i < |y| ==> y[i] == slope * x[i] + intercept
  {
    DotSelf(Errors(x, y, slope, intercept));
  }

  lemma StraightIffNoResidual(y: seq<real>)
    requires |y| >= 2
    ensures var f := FitLine(y);
            f.ssRes == 0.0 <==> forall i :: 0 <= i < |y| ==> y[i] == f.slope * i as real + f.intercept
  {
    var f, x := FitLine(y), Indices(|y|);
    NoErrorsIffStraight(x, y, f.slope, f.intercept);
    assert forall i :: 0 <= i < |y| ==> x[i] == i as real;
  }
}
