/** Performance statistics of a return series and an equity curve. Each one
    drops the missing entries first and yields `None` where pandas would
    yield NaN. The square root and the fractional power are parameters. */
module Metrics {
  import opened Series

  // ---------------------------------------------------------------------
  // CAGR
  // ---------------------------------------------------------------------

  /** Compound annual growth rate: `(last / first) ** (1 / years) - 1` with
      `years = n / trading_days`, undefined for an empty curve and for a
      non-positive number of years. A zero trading-day count raises in the
      original; here the caller must rule it out. */
  function Cagr(pow: (real, real) -> real, equity: seq<Option<real>>, tradingDays: int): (r: Option<real>)
    requires tradingDays != 0
    requires DropNa(equity) != [] ==> DropNa(equity)[0] != 0.0
    ensures r.Some? ==> DropNa(equity) != [] && tradingDays > 0
  {
    var ec := DropNa(equity);
    if ec == [] then None
    else
      YearsSign(|ec| as real, tradingDays as real);
      var totalReturn := ec[|ec| - 1] / ec[0] - 1.0;
      var years := |ec| as real / tradingDays as real;
      if years <= 0.0 then None
      else Some(pow(1.0 + totalReturn, 1.0 / years) - 1.0)
  }

  /** CAGR is undefined exactly for an empty curve or a negative trading-day
      count; otherwise the power's base is last / first and its exponent is
      trading_days / n. */
  lemma CagrSpec(pow: (real, real) -> real, equity: seq<Option<real>>, tradingDays: int)
    requires tradingDays != 0
    requires DropNa(equity) != [] ==> DropNa(equity)[0] != 0.0
    ensures Cagr(pow, equity, tradingDays).None? <==> DropNa(equity) == [] || tradingDays < 0
    ensures Cagr(pow, equity, tradingDays).Some? ==>
      var ec := DropNa(equity);
      Cagr(pow, equity, tradingDays).value ==
        pow(ec[|ec| - 1] / ec[0], tradingDays as real / |ec| as real) - 1.0
  {
    var ec := DropNa(equity);
    if ec != [] {
      YearsSign(|ec| as real, tradingDays as real);
    }
  }

  /** n / d years, for n > 0: positive exactly when d is, and then its
      reciprocal is d / n. */
  lemma YearsSign(n: real, d: real)
    requires n > 0.0 && d != 0.0
    ensures n / d > 0.0 <==> d > 0.0
    ensures d > 0.0 ==> 1.0 / (n / d) == d / n
  {
    if d < 0.0 {
      assert n / d == -(n / -d);
      assert n / -d > 0.0;
    }
  }

  // ---------------------------------------------------------------------
  // Volatility, Sharpe and Sortino
  // ---------------------------------------------------------------------

  /** `std() * sqrt(trading_days)` of the defined returns. The square root of
      a negative trading-day count is NaN. */
  function AnnualizedVol(sqrt: real -> real, rets: seq<Option<real>>, tradingDays: int): (v: Option<real>)
    requires SqrtLaw(sqrt)
    ensures v.None? <==> |DropNa(rets)| < 2 || tradingDays < 0
    ensures v.Some? ==> v.value >= 0.0
  {
    var r := DropNa(rets);
    if |r| < 2 || tradingDays < 0 then None
    else
      StdZeroIffConstant(sqrt, r);
      var sd := Std(sqrt, r).value;
      MulNonNeg(sd, sqrt(tradingDays as real));
      Some(sd * sqrt(tradingDays as real))
  }

  /** Every element shifted down by c. */
  function Shift(s: seq<real>, c: real): (r: seq<real>)
    ensures |r| == |s|
    ensures forall i :: 0 <= i < |s| ==> r[i] == s[i] - c
  {
    seq(|s|, i requires 0 <= i < |s| => s[i] - c)
  }

  /** Shifting by a constant keeps a series constant and keeps it non-constant. */
  lemma ShiftConstant(s: seq<real>, c: real)
    ensures Constant(Shift(s, c)) <==> Constant(s)
  {
    if Constant(Shift(s, c)) {
      forall i, j | 0 <= i < |s| && 0 <= j < |s| ensures s[i] == s[j] {
        assert Shift(s, c)[i] == Shift(s, c)[j];
      }
    }
  }

  /** Shifting by a constant shifts the sum by n times that constant. */
  lemma {:induction false} ShiftSum(s: seq<real>, c: real)
    ensures Sum(Shift(s, c)) == Sum(s) - |s| as real * c
  {
    if s != [] {
      assert Shift(s, c)[1..] == Shift(s[1..], c);
      ShiftSum(s[1..], c);
    }
  }

  /** The annualised mean excess return over the annualised standard
      deviation of the excess returns; undefined where that deviation is 0
      or undefined. */
  function Sharpe(sqrt: real -> real, rets: seq<Option<real>>, rf: real, tradingDays: int): (r: Option<real>)
    requires SqrtLaw(sqrt)
    requires tradingDays != 0
    ensures r.Some? ==> |DropNa(rets)| >= 2 && tradingDays > 0
  {
    var excess := Shift(DropNa(rets), rf / tradingDays as real);
    match Std(sqrt, excess)
    case None => None
    case Some(denom) =>
      if denom == 0.0 || tradingDays < 0 then None
      else
        StdZeroIffConstant(sqrt, excess);
        Some(Annualized(Mean(excess).value, tradingDays as real, denom, sqrt(tradingDays as real)))
  }

  /** The Sharpe ratio is undefined exactly when there are fewer than two
      returns, when they are all equal, or when the trading-day count is
      negative. */
  lemma SharpeUndefinedIff(sqrt: real -> real, rets: seq<Option<real>>, rf: real, tradingDays: int)
    requires SqrtLaw(sqrt)
    requires tradingDays != 0
    ensures var r := DropNa(rets);
      Sharpe(sqrt, rets, rf, tradingDays).None? <==> |r| < 2 || Constant(r) || tradingDays < 0
  {
    var r := DropNa(rets);
    var excess := Shift(r, rf / tradingDays as real);
    ShiftConstant(r, rf / tradingDays as real);
    if |r| >= 2 {
      StdZeroIffConstant(sqrt, excess);
    }
  }

  /** Where the Sharpe ratio is defined, its sign is the sign of the mean
      return minus the per-period risk-free rate. */
  lemma SharpeSign(sqrt: real -> real, rets: seq<Option<real>>, rf: real, tradingDays: int)
    requires SqrtLaw(sqrt)
    requires tradingDays != 0
    requires Sharpe(sqrt, rets, rf, tradingDays).Some?
    ensures var r, c := DropNa(rets), rf / tradingDays as real;
      |r| >= 2 &&
      (Sharpe(sqrt, rets, rf, tradingDays).value > 0.0 <==> Mean(r).value > c) &&
      (Sharpe(sqrt, rets, rf, tradingDays).value < 0.0 <==> Mean(r).value < c)
  {
    var r, c := DropNa(rets), rf / tradingDays as real;
    var excess := Shift(r, c);
    StdZeroIffConstant(sqrt, excess);
    MeanOfShift(r, c);
    RatioSign(Mean(excess).value, tradingDays as real, Std(sqrt, excess).value, sqrt(tradingDays as real));
  }

  /** Shifting every value down by c shifts the mean down by c. */
  lemma MeanOfShift(r: seq<real>, c: real)
    requires r != []
    ensures Mean(Shift(r, c)).value == Mean(r).value - c
  {
    ShiftSum(r, c);
    MeanShift(Sum(r), |r| as real, c);
  }

  /** The mean of values shifted down by c is the mean shifted down by c. */
  lemma MeanShift(sum: real, n: real, c: real)
    requires n > 0.0
    ensures (sum - n * c) / n == sum / n - c
  {
  }

  /** The per-period mean m, annualised as `m * td`, over the per-period
      deviation sd annualised as `sd * s`, where s stands for sqrt(td). */
  function Annualized(m: real, td: real, sd: real, s: real): real
    requires sd > 0.0 && s > 0.0
  {
    MulPos(sd, s);
    (m * td) / (sd * s)
  }

  /** An annualised ratio with positive td, sd and s has the sign of m. */
  lemma RatioSign(m: real, td: real, sd: real, s: real)
    requires td > 0.0 && sd > 0.0 && s > 0.0
    ensures Annualized(m, td, sd, s) > 0.0 <==> m > 0.0
    ensures Annualized(m, td, sd, s) < 0.0 <==> m < 0.0
  {
    MulPos(sd, s);
    DivSign(m * td, sd * s);
    SignOfProduct(m, td);
  }

  /** Dividing by a positive number keeps the sign. */
  lemma DivSign(x: real, y: real)
    requires y > 0.0
    ensures x / y > 0.0 <==> x > 0.0
    ensures x / y < 0.0 <==> x < 0.0
  {
    if x > 0.0 {
      assert x / y > 0.0;
    } else if x < 0.0 {
      assert (-x) / y > 0.0;
    }
  }

  /** Multiplying by a positive number keeps the sign. */
  lemma SignOfProduct(x: real, y: real)
    requires y > 0.0
    ensures x * y > 0.0 <==> x > 0.0
    ensures x * y < 0.0 <==> x < 0.0
  {
    if x > 0.0 {
      MulPos(x, y);
    } else if x < 0.0 {
      MulPos(-x, y);
    }
  }

  /** `r[r < 0]`: the strictly negative returns, in order. */
  function Negatives(s: seq<real>): (r: seq<real>)
    ensures |r| <= |s|
    ensures forall v :: v in r <==> v in s && v < 0.0
  {
    if s == [] then []
    else
      assert s == [s[0]] + s[1..];
      if s[0] < 0.0 then [s[0]] + Negatives(s[1..]) else Negatives(s[1..])
  }

  /** `r[r < 0]` keeps the negative returns in their order and with their
      repeats: it distributes over concatenation, keeps a single negative
      value and drops a single other one. */
  lemma {:induction false} NegativesAppend(a: seq<real>, b: seq<real>)
    ensures Negatives(a + b) == Negatives(a) + Negatives(b)
    ensures forall v :: Negatives([v]) == if v < 0.0 then [v] else []
  {
    if a != [] {
      assert (a + b)[1..] == a[1..] + b;
      NegativesAppend(a[1..], b);
    } else {
      assert a + b == b;
    }
    forall v ensures Negatives([v]) == if v < 0.0 then [v] else [] {
      assert [v][1..] == [];
    }
  }

  /** A series without negative values has no negatives to keep. */
  lemma {:induction false} NegativesOfNonNegative(s: seq<real>)
    requires forall v :: v in s ==> v >= 0.0
    ensures Negatives(s) == []
  {
    if s != [] {
      assert s[0] in s;
      assert forall v :: v in s[1..] ==> v in s;
      NegativesOfNonNegative(s[1..]);
    }
  }

  /** The annualised mean return minus the risk-free rate over the annualised
      standard deviation of the negative returns; undefined where that
      deviation is 0 or undefined. */
  function Sortino(sqrt: real -> real, rets: seq<Option<real>>, rf: real, tradingDays: int): (r: Option<real>)
    requires SqrtLaw(sqrt)
    requires tradingDays != 0
    ensures r.Some? ==> |Negatives(DropNa(rets))| >= 2 && tradingDays > 0
  {
    var r := DropNa(rets);
    var downside := Negatives(r);
    match Std(sqrt, downside)
    case None => None
    case Some(ddStd) =>
      if ddStd == 0.0 || tradingDays < 0 then None
      else
        StdZeroIffConstant(sqrt, downside);
        Some(Annualized(Mean(r).value - rf / tradingDays as real, tradingDays as real, ddStd, sqrt(tradingDays as real)))
  }

  /** The Sortino ratio is undefined exactly when there are fewer than two
      negative returns, when the negative returns are all equal, or when the
      trading-day count is negative. */
  lemma SortinoUndefinedIff(sqrt: real -> real, rets: seq<Option<real>>, rf: real, tradingDays: int)
    requires SqrtLaw(sqrt)
    requires tradingDays != 0
    ensures var d := Negatives(DropNa(rets));
      Sortino(sqrt, rets, rf, tradingDays).None? <==> |d| < 2 || Constant(d) || tradingDays < 0
  {
    var d := Negatives(DropNa(rets));
    if |d| >= 2 {
      StdZeroIffConstant(sqrt, d);
    }
  }

  /** Where the Sortino ratio is defined, its sign is the sign of the mean
      return minus the per-period risk-free rate. */
  lemma SortinoSign(sqrt: real -> real, rets: seq<Option<real>>, rf: real, tradingDays: int)
    requires SqrtLaw(sqrt)
    requires tradingDays != 0
    requires Sortino(sqrt, rets, rf, tradingDays).Some?
    ensures var r, c := DropNa(rets), rf / tradingDays as real;
      |r| >= 1 &&
      (Sortino(sqrt, rets, rf, tradingDays).value > 0.0 <==> Mean(r).value > c) &&
      (Sortino(sqrt, rets, rf, tradingDays).value < 0.0 <==> Mean(r).value < c)
  {
    var r, c := DropNa(rets), rf / tradingDays as real;
    var d := Negatives(r);
    var sd, s := Std(sqrt, d).value, sqrt(tradingDays as real);
    StdZeroIffConstant(sqrt, d);
    RatioSign(Mean(r).value - c, tradingDays as real, sd, s);
  }

  /** With no losing period the Sortino ratio is undefined. */
  lemma SortinoNoLosses(sqrt: real -> real, rets: seq<Option<real>>, rf: real, tradingDays: int)
    requires SqrtLaw(sqrt)
    requires tradingDays != 0
    requires forall i :: 0 <= i < |rets| && rets[i].Some? ==> rets[i].value >= 0.0
    ensures Sortino(sqrt, rets, rf, tradingDays).None?
  {
    var r := DropNa(rets);
    assert forall v :: v in r ==> v >= 0.0;
    NegativesOfNonNegative(r);
  }

  // ---------------------------------------------------------------------
  // Drawdown, Calmar and hit ratio
  // ---------------------------------------------------------------------

  /** `cummax()` at t: the highest value up to and including t. */
  function Peak(ec: seq<real>, t: nat): (r: real)
    requires t < |ec|
    ensures forall i :: 0 <= i <= t ==> ec[i] <= r
    ensures r in ec[..t + 1]
    ensures ec[0] > 0.0 ==> r > 0.0
  {
    var s := ec[..t + 1];
    assert forall i :: 0 <= i <= t ==> s[i] == ec[i];
    Max(s)
  }

  /** `ec / cummax() - 1`: the relative distance below the running peak. */
  function Drawdowns(ec: seq<real>): (dd: seq<real>)
    requires |ec| > 0 && ec[0] > 0.0
    ensures |dd| == |ec|
    ensures forall t :: 0 <= t < |ec| ==> dd[t] == ec[t] / Peak(ec, t) - 1.0
  {
    seq(|ec|, t requires 0 <= t < |ec| => ec[t] / Peak(ec, t) - 1.0)
  }

  /** The deepest drawdown of the defined values of the curve, undefined for
      an empty curve. The curve must start positive, so that every running
      peak is positive. */
  function MaxDrawdown(equity: seq<Option<real>>): (r: Option<real>)
    requires DropNa(equity) != [] ==> DropNa(equity)[0] > 0.0
    ensures r.None? <==> DropNa(equity) == []
  {
    var ec := DropNa(equity);
    if ec == [] then None else Some(Min(Drawdowns(ec)))
  }

  /** Each drawdown is at most 0, and above -1 where the curve is positive. */
  lemma DrawdownBounds(ec: seq<real>, t: nat)
    requires |ec| > 0 && ec[0] > 0.0 && t < |ec|
    ensures Drawdowns(ec)[t] <= 0.0
    ensures ec[t] > 0.0 ==> Drawdowns(ec)[t] > -1.0
    ensures Drawdowns(ec)[t] == 0.0 <==> ec[t] == Peak(ec, t)
  {
    RelativeToPeak(ec[t], Peak(ec, t));
  }

  /** A value x at or below a positive peak p sits at x / p - 1 <= 0, above
      -1 when x is positive, and at 0 exactly on the peak. */
  lemma RelativeToPeak(x: real, p: real)
    requires p > 0.0 && x <= p
    ensures x / p - 1.0 <= 0.0
    ensures x > 0.0 ==> x / p - 1.0 > -1.0
    ensures x / p - 1.0 == 0.0 <==> x == p
  {
    if x / p == 1.0 {
      assert x == (x / p) * p;
    }
  }

  /** Every value is at least the one before it. */
  predicate NonDecreasing(s: seq<real>)
  {
    forall i, j :: 0 <= i <= j < |s| ==> s[i] <= s[j]
  }

  /** For a curve that starts positive, the maximum drawdown is at most 0;
      for a positive curve it lies in (-1, 0]. */
  lemma MaxDrawdownBounds(equity: seq<Option<real>>)
    requires DropNa(equity) != [] && DropNa(equity)[0] > 0.0
    ensures MaxDrawdown(equity).value <= 0.0
    ensures AllPositive(DropNa(equity)) ==> MaxDrawdown(equity).value > -1.0
  {
    var ec := DropNa(equity);
    var dd := Drawdowns(ec);
    forall t | 0 <= t < |ec| ensures -1.0 < dd[t] <= 0.0 || (ec[t] <= 0.0 && dd[t] <= 0.0) {
      DrawdownBounds(ec, t);
    }
  }

  /** The maximum drawdown is 0 exactly when the curve never falls. */
  lemma MaxDrawdownZeroIff(equity: seq<Option<real>>)
    requires DropNa(equity) != [] && DropNa(equity)[0] > 0.0
    ensures MaxDrawdown(equity) == Some(0.0) <==> NonDecreasing(DropNa(equity))
  {
    var ec := DropNa(equity);
    if Min(Drawdowns(ec)) == 0.0 {
      NoDrawdownRising(ec);
    }
    if NonDecreasing(ec) {
      RisingNoDrawdown(ec);
    }
  }

  /** Without any drawdown every value is a new peak, so the curve never falls. */
  lemma NoDrawdownRising(ec: seq<real>)
    requires |ec| > 0 && ec[0] > 0.0
    requires Min(Drawdowns(ec)) == 0.0
    ensures NonDecreasing(ec)
  {
    var dd := Drawdowns(ec);
    forall i, j | 0 <= i <= j < |ec| ensures ec[i] <= ec[j] {
      DrawdownBounds(ec, j);
      assert dd[j] >= Min(dd);
    }
  }

  /** On a curve that never falls every value is its own peak, so there is
      no drawdown. */
  lemma RisingNoDrawdown(ec: seq<real>)
    requires |ec| > 0 && ec[0] > 0.0
    requires NonDecreasing(ec)
    ensures Min(Drawdowns(ec)) == 0.0
  {
    var dd := Drawdowns(ec);
    forall t | 0 <= t < |ec| ensures dd[t] == 0.0 {
      var p := Peak(ec, t);
      var k :| 0 <= k < t + 1 && ec[..t + 1][k] == p;
      assert ec[k] <= ec[t];
      DrawdownBounds(ec, t);
    }
    assert Min(dd) in dd;
  }

  /** `abs`. */
  function Abs(x: real): (r: real)
    ensures r >= 0.0 && (r == x || r == -x)
  {
    if x < 0.0 then -x else x
  }

  /** Annualised mean return over the size of the maximum drawdown; undefined
      where the drawdown is 0 or undefined, or where no return is defined. */
  function Calmar(rets: seq<Option<real>>, equity: seq<Option<real>>, tradingDays: int): (r: Option<real>)
    requires DropNa(equity) != [] ==> DropNa(equity)[0] > 0.0
    ensures r.None? <==>
      MaxDrawdown(equity).None? || MaxDrawdown(equity) == Some(0.0) || DropNa(rets) == []
  {
    CalmarOf(Mean(DropNa(rets)), MaxDrawdown(equity), tradingDays)
  }

  /** The Calmar ratio from a mean return and a maximum drawdown. */
  function CalmarOf(mean: Option<real>, mdd: Option<real>, tradingDays: int): (r: Option<real>)
    ensures r.None? <==> mean.None? || mdd.None? || mdd == Some(0.0)
  {
    if mdd.None? || Abs(mdd.value) == 0.0 || mean.None? then None
    else Some(mean.value * tradingDays as real / Abs(mdd.value))
  }

  /** Where the Calmar ratio is defined, times the size of the drawdown it
      gives back the annualised mean return, so for a positive trading-day
      count it has the sign of the mean return. */
  lemma CalmarValue(mean: Option<real>, mdd: Option<real>, tradingDays: int)
    requires CalmarOf(mean, mdd, tradingDays).Some?
    ensures mean.Some? && mdd.Some?
    ensures var c := CalmarOf(mean, mdd, tradingDays).value;
      && c * Abs(mdd.value) == mean.value * tradingDays as real
      && (tradingDays > 0 ==> (c > 0.0 <==> mean.value > 0.0) && (c < 0.0 <==> mean.value < 0.0))
  {
    var a, m := Abs(mdd.value), mean.value;
    var annual := m * tradingDays as real;
    DivSign(annual, a);
    DivMul(annual, a);
    if tradingDays > 0 {
      SignOfProduct(m, tradingDays as real);
    }
  }

  lemma DivMul(x: real, a: real)
    requires a != 0.0
    ensures (x / a) * a == x
  {
  }

  /** `(r > 0)` counted. */
  function CountPositive(s: seq<real>): (c: nat)
    ensures c <= |s|
    ensures c == 0 <==> forall i :: 0 <= i < |s| ==> s[i] <= 0.0
    ensures c == |s| <==> AllPositive(s)
  {
    if s == [] then 0
    else
      assert forall i :: 1 <= i < |s| ==> s[i] == s[1..][i - 1];
      (if s[0] > 0.0 then 1 else 0) + CountPositive(s[1..])
  }

  /** The count adds up over concatenation, and a single return counts 1
      exactly when it is positive, so `CountPositive` is the number of
      strictly positive entries. */
  lemma {:induction false} CountPositiveAppend(a: seq<real>, b: seq<real>)
    ensures CountPositive(a + b) == CountPositive(a) + CountPositive(b)
    ensures forall v :: CountPositive([v]) == if v > 0.0 then 1 else 0
  {
    if a != [] {
      assert (a + b)[1..] == a[1..] + b;
      CountPositiveAppend(a[1..], b);
    } else {
      assert a + b == b;
    }
    forall v ensures CountPositive([v]) == if v > 0.0 then 1 else 0 {
      assert [v][1..] == [];
    }
  }

  /** Fraction of defined returns that are strictly positive; undefined when
      no return is defined. */
  function HitRatio(rets: seq<Option<real>>): (h: Option<real>)
    ensures h.None? <==> DropNa(rets) == []
    ensures h.Some? ==> 0.0 <= h.value <= 1.0
    ensures h.Some? ==> (h.value == 0.0 <==> forall i :: 0 <= i < |DropNa(rets)| ==> DropNa(rets)[i] <= 0.0)
    ensures h.Some? ==> (h.value == 1.0 <==> AllPositive(DropNa(rets)))
  {
    var r := DropNa(rets);
    if |r| == 0 then None
    else
      var c, n := CountPositive(r) as real, |r| as real;
      Fraction(c, n);
      Some(c / n)
  }

  /** A count c out of n > 0 gives a fraction in [0, 1] that is 0 exactly
      for c = 0 and 1 exactly for c = n. */
  lemma Fraction(c: real, n: real)
    requires 0.0 <= c <= n && n > 0.0
    ensures 0.0 <= c / n <= 1.0
    ensures c / n == 0.0 <==> c == 0.0
    ensures c / n == 1.0 <==> c == n
  {
    var f := c / n;
    assert f * n == c;
    if f > 1.0 {
      MulPos(f - 1.0, n);
    }
    if f < 0.0 {
      MulPos(-f, n);
    }
    if f == 1.0 {
      assert c == n;
    }
  }
}
