/** Feature formulas over a NaN-free series: returns, rolling mean, exponential
    smoothing, rolling volatility, rolling z-score and RSI. A rolling window of
    size w at index t holds the w values ending at t; fewer than w values give
    an undefined result. `log` and `sqrt` are parameters. */
module Features {
  import opened Series

  // ---------------------------------------------------------------------
  // Returns
  // ---------------------------------------------------------------------

  /** `pct_change().fillna(0)`: period-over-period simple return, 0 first. */
  function SimpleReturns(p: seq<real>): (r: seq<real>)
    requires AllPositive(p)
    ensures |r| == |p|
    ensures |p| > 0 ==> r[0] == 0.0
    ensures forall t :: 1 <= t < |p| ==> r[t] == p[t] / p[t - 1] - 1.0
  {
    seq(|p|, t requires 0 <= t < |p| => if t == 0 then 0.0 else p[t] / p[t - 1] - 1.0)
  }

  /** Growth to a, then from a to b, is growth to b. */
  lemma RatioChain(p0: real, a: real, b: real, c: real, f: real)
    requires p0 > 0.0 && a > 0.0
    requires c == a / p0 && f == b / a
    ensures c * f == b / p0
  {
  }

  /** One more return of b / a - 1 takes a growth of a / p0 to b / p0. */
  lemma CompoundRatioStep(s: seq<real>, t: nat, p0: real, a: real, b: real)
    requires t < |s| && p0 > 0.0 && a > 0.0
    requires Compound(s[..t]) == a / p0
    requires s[t] == b / a - 1.0
    ensures Compound(s[..t + 1]) == b / p0
  {
    CompoundSnoc(s, t);
    RatioChain(p0, a, b, Compound(s[..t]), 1.0 + s[t]);
  }

  /** Compounding the simple returns up to t recovers the price relative to
      the first price: the returns and the price carry the same information. */
  lemma {:induction false} SimpleReturnsCompound(p: seq<real>, t: nat)
    requires AllPositive(p) && t < |p|
    ensures Compound(SimpleReturns(p)[..t + 1]) == p[t] / p[0]
  {
    var r := SimpleReturns(p);
    if t == 0 {
      CompoundSnoc(r, 0);
      assert r[..0] == [];
      DivSelf(p[0]);
    } else {
      SimpleReturnsCompound(p, t - 1);
      CompoundRatioStep(r, t, p[0], p[t - 1], p[t]);
    }
  }

  lemma DivSelf(x: real)
    requires x > 0.0
    ensures x / x == 1.0
  {
    assert (x / x) * x == x;
  }

  /** `log(price).diff()`, optionally with the leading NaN filled with 0. */
  function LogReturns(log: real -> real, p: seq<real>, fillna: bool): (r: seq<Option<real>>)
    ensures |r| == |p|
    ensures |p| > 0 ==> r[0] == (if fillna then Some(0.0) else None)
    ensures forall t :: 1 <= t < |p| ==> r[t] == Some(log(p[t]) - log(p[t - 1]))
  {
    seq(|p|, t requires 0 <= t < |p| =>
      if t == 0 then (if fillna then Some(0.0) else None)
      else Some(log(p[t]) - log(p[t - 1])))
  }

  lemma SumSnoc(s: seq<real>, t: nat)
    requires t < |s|
    ensures Sum(s[..t + 1]) == Sum(s[..t]) + s[t]
  {
    assert s[..t + 1] == s[..t] + [s[t]];
    SumAppend(s[..t], [s[t]]);
    assert Sum([s[t]]) == s[t] + Sum([]);
  }

  /** The filled log returns up to t add up to the log of the price relative
      to the first price. */
  lemma {:induction false} LogReturnsTelescope(log: real -> real, p: seq<real>, t: nat)
    requires t < |p|
    ensures Sum(FillNa(LogReturns(log, p, true), 0.0)[..t + 1]) == log(p[t]) - log(p[0])
  {
    var r := FillNa(LogReturns(log, p, true), 0.0);
    SumSnoc(r, t);
    if t == 0 {
      assert r[..0] == [];
    } else {
      LogReturnsTelescope(log, p, t - 1);
    }
  }

  // ---------------------------------------------------------------------
  // Rolling windows
  // ---------------------------------------------------------------------

  /** The w values ending at index t. */
  function Window(x: seq<real>, w: nat, t: nat): (r: seq<real>)
    requires w <= t + 1 <= |x|
    ensures |r| == w
    ensures forall k :: 0 <= k < w ==> r[k] == x[t + 1 - w + k]
  {
    x[t + 1 - w..t + 1]
  }

  /** `rolling(w).mean()`. */
  function Sma(p: seq<real>, w: nat): (r: seq<Option<real>>)
    ensures |r| == |p|
    ensures forall t :: 0 <= t < |p| ==> (r[t].None? <==> w == 0 || t + 1 < w)
    ensures forall t :: 0 <= t < |p| && 1 <= w <= t + 1 ==>
      r[t] == Some(Sum(Window(p, w, t)) / w as real)
  {
    seq(|p|, t requires 0 <= t < |p| => if t + 1 < w then None else Mean(Window(p, w, t)))
  }

  /** Sliding the window one step changes w times the mean by the entering
      value minus the leaving one. */
  lemma SmaSlide(p: seq<real>, w: nat, t: nat)
    requires 1 <= w <= t + 1 && t + 1 < |p|
    ensures Sma(p, w)[t + 1].Some? && Sma(p, w)[t].Some?
    ensures (Sma(p, w)[t + 1].value - Sma(p, w)[t].value) * w as real == p[t + 1] - p[t + 1 - w]
  {
    var mid := p[t + 2 - w..t + 1];
    assert Window(p, w, t) == [p[t + 1 - w]] + mid;
    assert Window(p, w, t + 1) == mid + [p[t + 1]];
    SumAppend([p[t + 1 - w]], mid);
    SumAppend(mid, [p[t + 1]]);
    assert Sum([p[t + 1 - w]]) == p[t + 1 - w] + Sum([]);
    assert Sum([p[t + 1]]) == p[t + 1] + Sum([]);
    var a, b, n := Sum(Window(p, w, t + 1)), Sum(Window(p, w, t)), w as real;
    assert (a / n - b / n) * n == a - b;
  }

  /** Exponential smoothing without bias adjustment (`ewm(adjust=False)`):
      the first output is the first input, then each output moves a fraction
      alpha of the way towards the next input. */
  function Ewm(x: seq<real>, alpha: real): (y: seq<real>)
    ensures |y| == |x|
    ensures |x| > 0 ==> y[0] == x[0]
  {
    if |x| <= 1 then x
    else
      var prev := Ewm(x[..|x| - 1], alpha);
      prev + [(1.0 - alpha) * prev[|prev| - 1] + alpha * x[|x| - 1]]
  }

  /** The smoothing recurrence: each output after the first moves a fraction
      alpha of the way from the previous output towards the current input. */
  lemma {:induction false} EwmStep(x: seq<real>, alpha: real, t: nat)
    requires 1 <= t < |x|
    ensures Ewm(x, alpha)[t] == (1.0 - alpha) * Ewm(x, alpha)[t - 1] + alpha * x[t]
  {
    var n := |x| - 1;
    var init := x[..n];
    assert init[..|init|] == init;
    if t < n {
      EwmStep(init, alpha, t);
      assert init[t] == x[t];
    }
  }

  /** Smoothing with 0 <= alpha <= 1 stays within any bounds of its input. */
  lemma {:induction false} EwmWithin(x: seq<real>, alpha: real, lo: real, hi: real, t: nat)
    requires 0.0 <= alpha <= 1.0
    requires forall i :: 0 <= i < |x| ==> lo <= x[i] <= hi
    requires t < |x|
    ensures lo <= Ewm(x, alpha)[t] <= hi
  {
    var y := Ewm(x, alpha);
    if t > 0 {
      EwmWithin(x, alpha, lo, hi, t - 1);
      EwmStep(x, alpha, t);
      Blend(alpha, y[t - 1], x[t], lo, hi);
    }
  }

  /** A weighted average of two values in [lo, hi] stays in [lo, hi]. */
  lemma Blend(alpha: real, u: real, v: real, lo: real, hi: real)
    requires 0.0 <= alpha <= 1.0
    requires lo <= u <= hi && lo <= v <= hi
    ensures lo <= (1.0 - alpha) * u + alpha * v <= hi
  {
    MulNonNeg(1.0 - alpha, u - lo);
    MulNonNeg(alpha, v - lo);
    MulNonNeg(1.0 - alpha, hi - u);
    MulNonNeg(alpha, hi - v);
  }

  /** Smoothing non-negative values gives non-negative values. */
  lemma {:induction false} EwmNonNeg(x: seq<real>, alpha: real, t: nat)
    requires 0.0 <= alpha <= 1.0
    requires forall i :: 0 <= i < |x| ==> x[i] >= 0.0
    requires t < |x|
    ensures Ewm(x, alpha)[t] >= 0.0
  {
    var y := Ewm(x, alpha);
    if t > 0 {
      EwmNonNeg(x, alpha, t - 1);
      EwmStep(x, alpha, t);
      MulNonNeg(1.0 - alpha, y[t - 1]);
      MulNonNeg(alpha, x[t]);
    }
  }

  /** `ewm(span=w, adjust=False).mean()`; pandas refuses a span below 1. */
  function Ema(p: seq<real>, span: nat): (y: seq<real>)
    requires span >= 1
    ensures |y| == |p|
  {
    Ewm(p, 2.0 / (span as real + 1.0))
  }

  /** The EMA starts at the first price, follows the recurrence with smoothing
      factor 2 / (span + 1), and stays within any bounds of the prices. */
  lemma EmaSpec(p: seq<real>, span: nat, lo: real, hi: real, t: nat)
    requires span >= 1
    requires forall i :: 0 <= i < |p| ==> lo <= p[i] <= hi
    requires t < |p|
    ensures var y, a := Ema(p, span), 2.0 / (span as real + 1.0);
      && (t == 0 ==> y[0] == p[0])
      && (t >= 1 ==> y[t] == (1.0 - a) * y[t - 1] + a * p[t])
      && lo <= y[t] <= hi
  {
    var a := 2.0 / (span as real + 1.0);
    assert 0.0 < a <= 1.0;
    EwmWithin(p, a, lo, hi, t);
    if t >= 1 {
      EwmStep(p, a, t);
    }
  }

  /** Rolling sample standard deviation ending at t. */
  function RollingStd(sqrt: real -> real, x: seq<real>, w: nat, t: nat): (r: Option<real>)
    requires t < |x|
    ensures r.None? <==> w < 2 || t + 1 < w
  {
    if t + 1 < w then None else Std(sqrt, Window(x, w, t))
  }

  /** `rolling(w).std() * sqrt(trading_days)`. */
  function RollingVol(sqrt: real -> real, x: seq<real>, w: nat, tradingDays: nat): (v: seq<Option<real>>)
    ensures |v| == |x|
    ensures forall t :: 0 <= t < |x| ==> (v[t].None? <==> w < 2 || t + 1 < w)
  {
    seq(|x|, t requires 0 <= t < |x| =>
      match RollingStd(sqrt, x, w, t)
      case None => None
      case Some(sd) => Some(sd * sqrt(tradingDays as real)))
  }

  /** Rolling volatility is never negative where it is defined. */
  lemma RollingVolNonNeg(sqrt: real -> real, x: seq<real>, w: nat, tradingDays: nat, t: nat)
    requires SqrtLaw(sqrt)
    requires t < |x|
    ensures RollingVol(sqrt, x, w, tradingDays)[t].Some? ==>
      RollingVol(sqrt, x, w, tradingDays)[t].value >= 0.0
  {
    var v := RollingVol(sqrt, x, w, tradingDays);
    if v[t].Some? {
      StdZeroIffConstant(sqrt, Window(x, w, t));
      var sd := RollingStd(sqrt, x, w, t).value;
      assert sqrt(tradingDays as real) >= 0.0;
      MulNonNeg(sd, sqrt(tradingDays as real));
    }
  }

  /** `(x - rolling mean) / rolling std`, a zero rolling std counting as
      undefined. */
  function ZScore(sqrt: real -> real, x: seq<real>, w: nat): (z: seq<Option<real>>)
    ensures |z| == |x|
    ensures forall t :: 0 <= t < |x| ==>
      (z[t].None? <==> RollingStd(sqrt, x, w, t).None? || RollingStd(sqrt, x, w, t) == Some(0.0))
  {
    seq(|x|, t requires 0 <= t < |x| =>
      match RollingStd(sqrt, x, w, t)
      case None => None
      case Some(sd) =>
        if sd == 0.0 then None
        else Some((x[t] - Sum(Window(x, w, t)) / w as real) / sd))
  }

  /** The z-score is undefined exactly on the first w - 1 points, for a
      window below two values, and where the window is constant; where it is
      defined, it measures the distance from the rolling mean in units of the
      rolling standard deviation. */
  lemma ZScoreUndefinedIff(sqrt: real -> real, x: seq<real>, w: nat, t: nat)
    requires SqrtLaw(sqrt)
    requires t < |x|
    ensures ZScore(sqrt, x, w)[t].None? <==>
      w < 2 || t + 1 < w || Constant(Window(x, w, t))
    ensures ZScore(sqrt, x, w)[t].Some? ==>
      var sd := RollingStd(sqrt, x, w, t).value;
      sd > 0.0 && ZScore(sqrt, x, w)[t].value * sd == x[t] - Sum(Window(x, w, t)) / w as real
  {
    if w >= 2 && t + 1 >= w {
      StdZeroIffConstant(sqrt, Window(x, w, t));
    }
  }

  // ---------------------------------------------------------------------
  // Relative strength index
  // ---------------------------------------------------------------------

  /** `diff().clip(lower=0)` without the leading NaN. */
  function Gains(p: seq<real>): (g: seq<real>)
    ensures |p| > 0 ==> |g| == |p| - 1
    ensures |p| == 0 ==> g == []
    ensures forall i :: 0 <= i < |g| ==> g[i] >= 0.0
    ensures forall i :: 0 <= i < |g| ==> g[i] == (if p[i + 1] > p[i] then p[i + 1] - p[i] else 0.0)
  {
    if |p| == 0 then []
    else seq(|p| - 1, i requires 0 <= i < |p| - 1 => if p[i + 1] > p[i] then p[i + 1] - p[i] else 0.0)
  }

  /** `-diff().clip(upper=0)` without the leading NaN. */
  function Losses(p: seq<real>): (l: seq<real>)
    ensures |p| > 0 ==> |l| == |p| - 1
    ensures |p| == 0 ==> l == []
    ensures forall i :: 0 <= i < |l| ==> l[i] >= 0.0
    ensures forall i :: 0 <= i < |l| ==> l[i] == (if p[i + 1] < p[i] then p[i] - p[i + 1] else 0.0)
  {
    if |p| == 0 then []
    else seq(|p| - 1, i requires 0 <= i < |p| - 1 => if p[i + 1] < p[i] then p[i] - p[i + 1] else 0.0)
  }

  /** The small constant added to the average loss. */
  const Eps: real := 0.000000000001

  /** `100 - 100 / (1 + up / (down + eps))`, which lies in [0, 100) for
      non-negative averages. */
  function RsiValue(up: real, down: real): (v: real)
    requires up >= 0.0 && down >= 0.0
    ensures 0.0 <= v < 100.0
  {
    var rs := up / (down + Eps);
    assert rs >= 0.0;
    var q := 100.0 / (1.0 + rs);
    assert 0.0 < q <= 100.0 by {
      assert q * (1.0 + rs) == 100.0;
      MulNonNeg(q, rs);
    }
    100.0 - q
  }

  /** Smoothed average gain and loss (`ewm(alpha=1/w, adjust=False)`). */
  function RsiAverages(p: seq<real>, w: nat): (r: (seq<real>, seq<real>))
    requires w >= 1
    ensures |r.0| == |Gains(p)| && |r.1| == |Losses(p)|
  {
    (Ewm(Gains(p), 1.0 / w as real), Ewm(Losses(p), 1.0 / w as real))
  }

  /** The smoothed gains and losses are non-negative. */
  lemma RsiAveragesNonNeg(p: seq<real>, w: nat)
    requires w >= 1
    ensures forall i :: 0 <= i < |RsiAverages(p, w).0| ==> RsiAverages(p, w).0[i] >= 0.0
    ensures forall i :: 0 <= i < |RsiAverages(p, w).1| ==> RsiAverages(p, w).1[i] >= 0.0
  {
    var a := 1.0 / w as real;
    SmoothingFactor(w);
    EwmAllNonNeg(Gains(p), a);
    EwmAllNonNeg(Losses(p), a);
  }

  /** The factor 1/w of a window w >= 1 lies in (0, 1]. */
  lemma SmoothingFactor(w: nat)
    requires w >= 1
    ensures 0.0 < 1.0 / w as real <= 1.0
  {
  }

  lemma EwmAllNonNeg(x: seq<real>, alpha: real)
    requires 0.0 <= alpha <= 1.0
    requires forall i :: 0 <= i < |x| ==> x[i] >= 0.0
    ensures forall i :: 0 <= i < |x| ==> Ewm(x, alpha)[i] >= 0.0
  {
    forall i | 0 <= i < |x| ensures Ewm(x, alpha)[i] >= 0.0 {
      EwmNonNeg(x, alpha, i);
    }
  }

  /** RSI with smoothing factor 1/w; undefined at the first point. */
  function Rsi(p: seq<real>, w: nat): (r: seq<Option<real>>)
    requires w >= 1
    ensures |r| == |p|
    ensures |p| > 0 ==> r[0].None?
    ensures forall t :: 1 <= t < |p| ==> r[t].Some? && 0.0 <= r[t].value < 100.0
  {
    var avg := RsiAverages(p, w);
    RsiAveragesNonNeg(p, w);
    seq(|p|, t requires 0 <= t < |p| =>
      if t == 0 then None else Some(RsiValue(avg.0[t - 1], avg.1[t - 1])))
  }

  lemma RsiValueNoGain(down: real)
    requires down >= 0.0
    ensures RsiValue(0.0, down) == 0.0
  {
  }

  /** The RSI at t >= 1 is the value of the smoothed averages at the
      (t - 1)-th price change. */
  lemma RsiAt(p: seq<real>, w: nat, t: nat)
    requires w >= 1 && 1 <= t < |p|
    ensures RsiAverages(p, w).0[t - 1] >= 0.0 && RsiAverages(p, w).1[t - 1] >= 0.0
    ensures Rsi(p, w)[t] == Some(RsiValue(RsiAverages(p, w).0[t - 1], RsiAverages(p, w).1[t - 1]))
  {
    RsiAveragesNonNeg(p, w);
  }

  /** A price that never rises has no gains. */
  lemma NoGains(p: seq<real>)
    requires forall i, j :: 0 <= i <= j < |p| ==> p[j] <= p[i]
    ensures forall i :: 0 <= i < |Gains(p)| ==> 0.0 <= Gains(p)[i] <= 0.0
  {
    forall i | 0 <= i < |Gains(p)| ensures 0.0 <= Gains(p)[i] <= 0.0 {
      assert p[i + 1] <= p[i];
    }
  }

  /** A price that never rises has RSI 0 after the first point. */
  lemma RsiOfNonRisingPrice(p: seq<real>, w: nat, t: nat)
    requires w >= 1
    requires forall i, j :: 0 <= i <= j < |p| ==> p[j] <= p[i]
    requires 1 <= t < |p|
    ensures Rsi(p, w)[t] == Some(0.0)
  {
    var a := 1.0 / w as real;
    assert 0.0 <= a <= 1.0;
    NoGains(p);
    EwmWithin(Gains(p), a, 0.0, 0.0, t - 1);
    RsiAt(p, w, t);
    var up, down := RsiAverages(p, w).0[t - 1], RsiAverages(p, w).1[t - 1];
    assert up == 0.0;
    RsiValueNoGain(down);
  }
}
