/** Long-only momentum with volatility targeting. The raw signal is 1 where
    the price is above its simple moving average and 0 elsewhere (also where
    the average is not yet defined). It is scaled by volTarget / vol, capped
    at 1, where vol is the 20-bar rolling volatility of the log returns,
    back-filled over its leading undefined bars. A missing or zero
    volatility gives a scale of 1. */
module Momentum {
  import opened Series
  import Features

  /** The rolling-volatility window and the annualisation constant. */
  const VolWindow: nat := 20
  const TradingDays: nat := 252

  /** `(price > sma(price, lookback)).astype(float)`: a comparison with NaN is
      false. */
  function RawSignal(p: seq<real>, lookback: nat): (raw: seq<real>)
    ensures |raw| == |p|
    ensures forall t :: 0 <= t < |p| ==> raw[t] == 0.0 || raw[t] == 1.0
    ensures forall t :: 0 <= t < |p| ==>
      (raw[t] == 1.0 <==> Features.Sma(p, lookback)[t].Some? && p[t] > Features.Sma(p, lookback)[t].value)
  {
    var ma := Features.Sma(p, lookback);
    seq(|p|, t requires 0 <= t < |p| => if ma[t].Some? && p[t] > ma[t].value then 1.0 else 0.0)
  }

  /** `rolling_vol(log_returns(price), 20).fillna(method="bfill")`; the log
      returns have their leading NaN filled with 0. */
  function Vol(log: real -> real, sqrt: real -> real, p: seq<real>): (vol: seq<Option<real>>)
    ensures |vol| == |p|
  {
    var ret := FillNa(Features.LogReturns(log, p, true), 0.0);
    BFill(Features.RollingVol(sqrt, ret, VolWindow, TradingDays))
  }

  /** `(vol_target / vol.replace(0, nan)).clip(upper=1.0).fillna(1.0)` at one bar. */
  function ScaleOf(volTarget: real, v: Option<real>): (s: real)
    ensures s <= 1.0
    ensures v.None? || v.value == 0.0 ==> s == 1.0
  {
    if v.None? || v.value == 0.0 then 1.0
    else if volTarget / v.value < 1.0 then volTarget / v.value
    else 1.0
  }

  /** `momentum_long_only`: the raw signal times the scale, bar by bar. */
  function MomentumLongOnly(log: real -> real, sqrt: real -> real, p: seq<real>, lookback: nat, volTarget: real)
    : (pos: seq<real>)
    ensures |pos| == |p|
  {
    var raw := RawSignal(p, lookback);
    var vol := Vol(log, sqrt, p);
    seq(|p|, t requires 0 <= t < |p| => Exposure(raw[t], ScaleOf(volTarget, vol[t])))
  }

  /** `raw_signal * scale` at one bar: the scale where the signal is on,
      nothing where it is off. */
  function Exposure(raw: real, scale: real): (e: real)
    ensures raw == 1.0 ==> e == scale
    ensures raw == 0.0 ==> e == 0.0
  {
    raw * scale
  }

  // ---------------------------------------------------------------------
  // Properties
  // ---------------------------------------------------------------------

  /** The volatility is undefined everywhere on a series shorter than the
      window, and defined everywhere otherwise; each leading bar carries the
      first defined value. */
  lemma VolDefinedIff(log: real -> real, sqrt: real -> real, p: seq<real>, t: nat)
    requires t < |p|
    ensures Vol(log, sqrt, p)[t].Some? <==> |p| >= VolWindow
    ensures |p| >= VolWindow && t < VolWindow ==> Vol(log, sqrt, p)[t] == Vol(log, sqrt, p)[VolWindow - 1]
  {
    var ret := FillNa(Features.LogReturns(log, p, true), 0.0);
    var rv := Features.RollingVol(sqrt, ret, VolWindow, TradingDays);
    NextDefinedIsSoonest(rv, t);
    if |p| >= VolWindow {
      assert rv[VolWindow - 1].Some?;
      if t < VolWindow {
        assert forall k :: t <= k < VolWindow - 1 ==> rv[k].None?;
        NextDefinedIsSoonest(rv, VolWindow - 1);
      }
    }
  }

  /** The volatility is never negative where defined. */
  lemma VolNonNeg(log: real -> real, sqrt: real -> real, p: seq<real>, t: nat)
    requires SqrtLaw(sqrt) && t < |p|
    ensures Vol(log, sqrt, p)[t].Some? ==> Vol(log, sqrt, p)[t].value >= 0.0
  {
    var ret := FillNa(Features.LogReturns(log, p, true), 0.0);
    var rv := Features.RollingVol(sqrt, ret, VolWindow, TradingDays);
    NextDefinedIsSoonest(rv, t);
    if Vol(log, sqrt, p)[t].Some? {
      var j :| t <= j < |rv| && rv[j] == NextDefined(rv, t);
      Features.RollingVolNonNeg(sqrt, ret, VolWindow, TradingDays, j);
    }
  }

  /** With a non-negative target and a non-negative volatility the scale
      lies in [0, 1], and it is positive when the target is. */
  lemma ScaleBounds(volTarget: real, v: Option<real>)
    requires volTarget >= 0.0
    requires v.Some? ==> v.value >= 0.0
    ensures 0.0 <= ScaleOf(volTarget, v) <= 1.0
    ensures volTarget > 0.0 ==> ScaleOf(volTarget, v) > 0.0
  {
    if v.Some? && v.value != 0.0 {
      QuotientSign(volTarget, v.value);
    }
  }

  lemma QuotientSign(a: real, b: real)
    requires a >= 0.0 && b > 0.0
    ensures a / b >= 0.0
    ensures a > 0.0 ==> a / b > 0.0
  {
  }

  /** Below the cap, the scaled exposure has exactly the target volatility:
      scale * vol == volTarget. At the cap, the volatility is at most the
      target. */
  lemma ScaleTargetsVol(volTarget: real, v: Option<real>)
    requires v.Some? && v.value > 0.0
    ensures ScaleOf(volTarget, v) < 1.0 ==> ScaleOf(volTarget, v) * v.value == volTarget
    ensures ScaleOf(volTarget, v) == 1.0 ==> v.value <= volTarget
  {
    QuotientTimes(volTarget, v.value);
    if volTarget / v.value >= 1.0 {
      AtLeastOne(volTarget, v.value);
    }
  }

  lemma QuotientTimes(a: real, b: real)
    requires b > 0.0
    ensures (a / b) * b == a
  {
  }

  lemma AtLeastOne(a: real, b: real)
    requires b > 0.0 && a / b >= 1.0
    ensures b <= a
  {
    QuotientTimes(a, b);
    assert a == (a / b) * b >= 1.0 * b;
  }

  /** The position lies in [0, 1] for a non-negative target. */
  lemma PositionBounds(log: real -> real, sqrt: real -> real, p: seq<real>, lookback: nat, volTarget: real, t: nat)
    requires SqrtLaw(sqrt) && volTarget >= 0.0 && t < |p|
    ensures 0.0 <= MomentumLongOnly(log, sqrt, p, lookback, volTarget)[t] <= 1.0
  {
    VolNonNeg(log, sqrt, p, t);
    ScaleBounds(volTarget, Vol(log, sqrt, p)[t]);
    PositionAt(log, sqrt, p, lookback, volTarget, t);
  }

  /** The position at t is the scale at t where the raw signal is 1, and 0
      where it is 0. */
  lemma PositionAt(log: real -> real, sqrt: real -> real, p: seq<real>, lookback: nat, volTarget: real, t: nat)
    requires t < |p|
    ensures MomentumLongOnly(log, sqrt, p, lookback, volTarget)[t] ==
      if RawSignal(p, lookback)[t] == 1.0 then ScaleOf(volTarget, Vol(log, sqrt, p)[t]) else 0.0
  {
  }

  /** For a positive target the position is held exactly where the price is
      above its moving average. */
  lemma HeldIffAboveAverage(log: real -> real, sqrt: real -> real, p: seq<real>, lookback: nat, volTarget: real, t: nat)
    requires SqrtLaw(sqrt) && volTarget > 0.0 && t < |p|
    ensures MomentumLongOnly(log, sqrt, p, lookback, volTarget)[t] > 0.0 <==>
      Features.Sma(p, lookback)[t].Some? && p[t] > Features.Sma(p, lookback)[t].value
    ensures MomentumLongOnly(log, sqrt, p, lookback, volTarget)[t] == 0.0 <==>
      !(Features.Sma(p, lookback)[t].Some? && p[t] > Features.Sma(p, lookback)[t].value)
  {
    VolNonNeg(log, sqrt, p, t);
    ScaleBounds(volTarget, Vol(log, sqrt, p)[t]);
    PositionAt(log, sqrt, p, lookback, volTarget, t);
  }

  /** On a series shorter than the volatility window no scaling happens:
      the position is the raw signal. */
  lemma ShortSeriesUnscaled(log: real -> real, sqrt: real -> real, p: seq<real>, lookback: nat, volTarget: real, t: nat)
    requires |p| < VolWindow && t < |p|
    ensures MomentumLongOnly(log, sqrt, p, lookback, volTarget)[t] == RawSignal(p, lookback)[t]
  {
    VolDefinedIff(log, sqrt, p, t);
    PositionAt(log, sqrt, p, lookback, volTarget, t);
  }

  /** Where the position is held and scaled down, it is volTarget / vol:
      sized so that its volatility is the target (ScaleTargetsVol). */
  lemma HeldPositionHitsTarget(log: real -> real, sqrt: real -> real, p: seq<real>, lookback: nat, volTarget: real, t: nat)
    requires t < |p|
    requires RawSignal(p, lookback)[t] == 1.0
    requires Vol(log, sqrt, p)[t].Some? && Vol(log, sqrt, p)[t].value > 0.0
    requires MomentumLongOnly(log, sqrt, p, lookback, volTarget)[t] < 1.0
    ensures MomentumLongOnly(log, sqrt, p, lookback, volTarget)[t] == volTarget / Vol(log, sqrt, p)[t].value
  {
    PositionAt(log, sqrt, p, lookback, volTarget, t);
  }
}
