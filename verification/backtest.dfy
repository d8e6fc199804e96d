/** The vectorised single-asset backtest: prices and a target-position signal
    in, daily strategy returns, the compounded equity curve, the positions
    held and the trading costs out. Dates are positions 0..n-1; a missing
    price or signal is `None`. The signal arrives on the same dates as the
    price. */
module Backtest {
  import opened Series
  import Features
  import Metrics

  /** The four series of a backtest, each one value per priced date. */
  datatype BacktestResult = BacktestResult(
    strategyReturns: seq<real>,
    equityCurve: seq<real>,
    positions: seq<real>,
    costs: seq<real>)

  /** The six headline statistics; `None` where the statistic is NaN. */
  datatype Summary = Summary(
    cagr: Option<real>,
    sharpe: Option<real>,
    sortino: Option<real>,
    maxDrawdown: Option<real>,
    calmar: Option<real>,
    hitRatio: Option<real>)

  /** Every defined price is positive. */
  predicate PositivePrices(price: seq<Option<real>>)
  {
    forall i :: 0 <= i < |price| && price[i].Some? ==> price[i].value > 0.0
  }

  lemma DropNaPositive(price: seq<Option<real>>)
    requires PositivePrices(price)
    ensures AllPositive(DropNa(price))
  {
    var p := DropNa(price);
    forall i | 0 <= i < |p| ensures p[i] > 0.0 {
      assert p[i] in p;
      var j :| 0 <= j < |price| && price[j] == Some(p[i]);
    }
  }

  // ---------------------------------------------------------------------
  // Aligning the signal with the priced dates
  // ---------------------------------------------------------------------

  /** The rows (price, signal) of the dates whose price is defined, in date
      order: `price.dropna()` with the signal reindexed onto its dates. */
  function Priced(price: seq<Option<real>>, signal: seq<Option<real>>): (rows: seq<(real, Option<real>)>)
    requires |signal| == |price|
    ensures |rows| <= |price|
  {
    if price == [] then []
    else
      var rest := Priced(price[1..], signal[1..]);
      match price[0]
      case None => rest
      case Some(v) => [(v, signal[0])] + rest
  }

  /** A row is priced exactly when some date carries that price and that
      signal. */
  lemma {:induction false} PricedRows(price: seq<Option<real>>, signal: seq<Option<real>>)
    requires |signal| == |price|
    ensures forall row :: row in Priced(price, signal) <==>
      exists i :: 0 <= i < |price| && price[i] == Some(row.0) && signal[i] == row.1
  {
    if price != [] {
      var rest := Priced(price[1..], signal[1..]);
      PricedRows(price[1..], signal[1..]);
      assert forall i :: 1 <= i < |price| ==> price[i] == price[1..][i - 1] && signal[i] == signal[1..][i - 1];
      forall row: (real, Option<real>) | row in rest
        ensures exists i :: 1 <= i < |price| && price[i] == Some(row.0) && signal[i] == row.1
      {
        var k :| 0 <= k < |price[1..]| && price[1..][k] == Some(row.0) && signal[1..][k] == row.1;
        assert price[k + 1] == Some(row.0) && signal[k + 1] == row.1;
      }
      forall row: (real, Option<real>) | exists i :: 0 <= i < |price| && price[i] == Some(row.0) && signal[i] == row.1
        ensures row in Priced(price, signal)
      {
        var i :| 0 <= i < |price| && price[i] == Some(row.0) && signal[i] == row.1;
        if i > 0 {
          assert price[1..][i - 1] == Some(row.0) && signal[1..][i - 1] == row.1;
        }
      }
    }
  }

  /** The priced rows keep the dates' order and repeats: they distribute
      over concatenation, a date without a price gives no row, and a date
      with a price gives its price and its own signal. */
  lemma {:induction false} PricedAppend(p1: seq<Option<real>>, s1: seq<Option<real>>,
                                        p2: seq<Option<real>>, s2: seq<Option<real>>)
    requires |s1| == |p1| && |s2| == |p2|
    ensures Priced(p1 + p2, s1 + s2) == Priced(p1, s1) + Priced(p2, s2)
    ensures forall s :: Priced([None], [s]) == []
    ensures forall v, s :: Priced([Some(v)], [s]) == [(v, s)]
  {
    if p1 != [] {
      assert (p1 + p2)[1..] == p1[1..] + p2 && (s1 + s2)[1..] == s1[1..] + s2;
      PricedAppend(p1[1..], s1[1..], p2, s2);
    } else {
      assert p1 + p2 == p2 && s1 + s2 == s2;
    }
    forall s ensures Priced([None], [s]) == [] {
      var none: seq<Option<real>> := [None];
      assert none[1..] == [] && [s][1..] == [];
    }
    forall v, s ensures Priced([Some(v)], [s]) == [(v, s)] {
      assert [Some(v)][1..] == [] && [s][1..] == [];
    }
  }

  function Firsts(rows: seq<(real, Option<real>)>): (r: seq<real>)
    ensures |r| == |rows|
    ensures forall k :: 0 <= k < |rows| ==> r[k] == rows[k].0
  {
    seq(|rows|, k requires 0 <= k < |rows| => rows[k].0)
  }

  function Seconds(rows: seq<(real, Option<real>)>): (r: seq<Option<real>>)
    ensures |r| == |rows|
    ensures forall k :: 0 <= k < |rows| ==> r[k] == rows[k].1
  {
    seq(|rows|, k requires 0 <= k < |rows| => rows[k].1)
  }

  /** The priced rows carry exactly the NaN-free prices, in order. */
  lemma {:induction false} PricedPrices(price: seq<Option<real>>, signal: seq<Option<real>>)
    requires |signal| == |price|
    ensures Firsts(Priced(price, signal)) == DropNa(price)
  {
    if price != [] {
      var rest := Priced(price[1..], signal[1..]);
      PricedPrices(price[1..], signal[1..]);
      if price[0].Some? {
        var row := (price[0].value, signal[0]);
        assert Priced(price, signal) == [row] + rest;
        assert Firsts([row] + rest) == [row.0] + Firsts(rest);
      }
    }
  }

  /** With every price defined, the signal is taken as it is. */
  lemma {:induction false} PricedAllDefined(price: seq<Option<real>>, signal: seq<Option<real>>)
    requires |signal| == |price|
    requires forall i :: 0 <= i < |price| ==> price[i].Some?
    ensures Seconds(Priced(price, signal)) == signal
  {
    if price != [] {
      PricedAllDefined(price[1..], signal[1..]);
      assert signal == [signal[0]] + signal[1..];
    }
  }

  /** `reindex(...).ffill().fillna(0)`: the latest defined signal, else 0. */
  function Aligned(sig: seq<Option<real>>): (a: seq<real>)
    ensures |a| == |sig|
  {
    FillNa(FFill(sig), 0.0)
  }

  /** The aligned signal at t is the most recent defined signal at or before
      t, with nothing newer in between, or 0 when there is none. */
  lemma AlignedIsLatestSignal(sig: seq<Option<real>>, t: nat)
    requires t < |sig|
    ensures (forall j :: 0 <= j <= t ==> sig[j].None?) ==> Aligned(sig)[t] == 0.0
    ensures (exists j :: 0 <= j <= t && sig[j].Some?) ==>
      exists j :: 0 <= j <= t && sig[j] == Some(Aligned(sig)[t]) &&
        forall k :: j < k <= t ==> sig[k].None?
  {
    LastDefinedIsMostRecent(sig, t);
  }

  // ---------------------------------------------------------------------
  // Positions, trades and costs
  // ---------------------------------------------------------------------

  function Min2(a: real, b: real): real { if a <= b then a else b }
  function Max2(a: real, b: real): real { if a <= b then b else a }

  /** pandas `clip(lower, upper)`, which swaps the bounds when lower > upper. */
  function Clip(x: real, lower: real, upper: real): (r: real)
    ensures Min2(lower, upper) <= r <= Max2(lower, upper)
    ensures Min2(lower, upper) <= x <= Max2(lower, upper) ==> r == x
  {
    var lo, hi := Min2(lower, upper), Max2(lower, upper);
    if x < lo then lo else if x > hi then hi else x
  }

  /** The aligned signal clipped to [0, cap], or to [-cap, cap] when short
      positions are allowed. */
  function Positions(sig: seq<Option<real>>, allowShort: bool, cap: real): (pos: seq<real>)
    ensures |pos| == |sig|
  {
    var a := Aligned(sig);
    seq(|sig|, t requires 0 <= t < |sig| => Clip(a[t], if allowShort then -cap else 0.0, cap))
  }

  /** For a non-negative cap, long-only positions lie in [0, cap] and others
      in [-cap, cap]; an aligned signal already within bounds is kept. */
  lemma PositionBounds(sig: seq<Option<real>>, allowShort: bool, cap: real, t: nat)
    requires cap >= 0.0 && t < |sig|
    ensures var pos, lower := Positions(sig, allowShort, cap)[t], if allowShort then -cap else 0.0;
      && lower <= pos <= cap
      && (lower <= Aligned(sig)[t] <= cap ==> pos == Aligned(sig)[t])
  {
  }

  /** `diff().abs().fillna(abs())`: the size of each position change, the
      first one measured from flat. */
  function Trades(pos: seq<real>): (tr: seq<real>)
    ensures |tr| == |pos|
    ensures forall t :: 0 <= t < |pos| ==> tr[t] >= 0.0
  {
    seq(|pos|, t requires 0 <= t < |pos| =>
      if t == 0 then Metrics.Abs(pos[0]) else Metrics.Abs(pos[t] - pos[t - 1]))
  }

  /** A trade happens exactly where the position changes, the first date
      counting as a change from flat. */
  lemma TradesZeroIff(pos: seq<real>, t: nat)
    requires t < |pos|
    ensures Trades(pos)[t] == 0.0 <==> pos[t] == (if t == 0 then 0.0 else pos[t - 1])
  {
  }

  /** Cost per date: traded size times the fee plus slippage, in basis points. */
  function Costs(trades: seq<real>, feeBps: real, slippageBps: real): (c: seq<real>)
    ensures |c| == |trades|
  {
    seq(|trades|, t requires 0 <= t < |trades| => trades[t] * ((feeBps + slippageBps) / 10000.0))
  }

  /** Costs are non-negative for non-negative rates, and zero where nothing
      is traded or both rates are zero. */
  lemma CostsSpec(pos: seq<real>, feeBps: real, slippageBps: real, t: nat)
    requires feeBps >= 0.0 && slippageBps >= 0.0 && t < |pos|
    ensures Costs(Trades(pos), feeBps, slippageBps)[t] >= 0.0
    ensures Trades(pos)[t] == 0.0 || feeBps + slippageBps == 0.0 ==>
      Costs(Trades(pos), feeBps, slippageBps)[t] == 0.0
  {
    MulNonNeg(Trades(pos)[t], (feeBps + slippageBps) / 10000.0);
  }

  // ---------------------------------------------------------------------
  // Returns and equity
  // ---------------------------------------------------------------------

  /** `shift(1).fillna(0)`: yesterday's position, flat on the first date. */
  function Lagged(pos: seq<real>): (l: seq<real>)
    ensures |l| == |pos|
  {
    seq(|pos|, t requires 0 <= t < |pos| => if t == 0 then 0.0 else pos[t - 1])
  }

  /** Yesterday's position times today's price return, less today's cost. */
  function StrategyReturns(pos: seq<real>, ret: seq<real>, cost: seq<real>): (s: seq<real>)
    requires |ret| == |pos| && |cost| == |pos|
    ensures |s| == |pos|
  {
    var lag := Lagged(pos);
    seq(|pos|, t requires 0 <= t < |pos| => lag[t] * ret[t] - cost[t])
  }

  lemma StrategyReturnAt(pos: seq<real>, ret: seq<real>, cost: seq<real>, t: nat)
    requires |ret| == |pos| && |cost| == |pos| && t < |pos|
    ensures StrategyReturns(pos, ret, cost)[t] == Lagged(pos)[t] * ret[t] - cost[t]
  {
  }

  /** No look-ahead: the first return is minus the first cost, each later
      return earns the previous position, and two position series that agree
      before t (with the same costs) earn the same return at t. */
  lemma NoLookAhead(pos: seq<real>, other: seq<real>, ret: seq<real>, cost: seq<real>, t: nat)
    requires |ret| == |pos| && |cost| == |pos| && |other| == |pos| && t < |pos|
    requires pos[..t] == other[..t]
    ensures StrategyReturns(pos, ret, cost)[t] ==
      (if t == 0 then -cost[0] else pos[t - 1] * ret[t] - cost[t])
    ensures StrategyReturns(pos, ret, cost)[t] == StrategyReturns(other, ret, cost)[t]
  {
    if t > 0 {
      assert pos[t - 1] == pos[..t][t - 1] == other[..t][t - 1] == other[t - 1];
    }
  }

  /** `(1 + r).cumprod()`. */
  function Equity(strat: seq<real>): (e: seq<real>)
    ensures |e| == |strat|
  {
    seq(|strat|, t requires 0 <= t < |strat| => Compound(strat[..t + 1]))
  }

  /** The equity curve starts at 1 + r[0] and grows by 1 + r[t] each date. */
  lemma EquityRecurrence(strat: seq<real>, t: nat)
    requires t < |strat|
    ensures Equity(strat)[t] ==
      (if t == 0 then 1.0 + strat[0] else Equity(strat)[t - 1] * (1.0 + strat[t]))
  {
    var s := strat[..t + 1];
    assert s[..t] == strat[..t] && s[t] == strat[t];
    assert Compound(s) == Compound(s[..t]) * (1.0 + s[t]);
    if t == 0 {
      assert s[..0] == [];
      assert Compound(s[..0]) == 1.0;
    }
  }

  // ---------------------------------------------------------------------
  // The backtest
  // ---------------------------------------------------------------------

  /** The accounting of the backtest on the priced dates: `ret` holds the
      price returns and `sig` the signal on those dates. */
  function Run(ret: seq<real>, sig: seq<Option<real>>, feeBps: real, slippageBps: real,
               allowShort: bool, cap: real): (r: BacktestResult)
    requires |sig| == |ret|
    ensures |r.strategyReturns| == |ret| && |r.equityCurve| == |ret|
    ensures |r.positions| == |ret| && |r.costs| == |ret|
  {
    var pos := Positions(sig, allowShort, cap);
    var cost := Costs(Trades(pos), feeBps, slippageBps);
    var strat := StrategyReturns(pos, ret, cost);
    BacktestResult(strat, Equity(strat), pos, cost)
  }

  /** `backtest_signals`: drop the dates without a price, take the price
      returns there, and run the accounting. Every output has one value per
      defined price. */
  function BacktestSignals(price: seq<Option<real>>, signal: seq<Option<real>>, feeBps: real,
                           slippageBps: real, allowShort: bool, cap: real): (r: BacktestResult)
    requires |signal| == |price| && PositivePrices(price)
    ensures |r.strategyReturns| == |DropNa(price)| && |r.equityCurve| == |DropNa(price)|
    ensures |r.positions| == |DropNa(price)| && |r.costs| == |DropNa(price)|
  {
    var rows := Priced(price, signal);
    PricedPrices(price, signal);
    DropNaPositive(price);
    Run(Features.SimpleReturns(Firsts(rows)), Seconds(rows), feeBps, slippageBps, allowShort, cap)
  }

  /** The backtest's series, stage by stage. */
  lemma RunStages(ret: seq<real>, sig: seq<Option<real>>, feeBps: real, slippageBps: real,
                  allowShort: bool, cap: real)
    requires |sig| == |ret|
    ensures var r, pos := Run(ret, sig, feeBps, slippageBps, allowShort, cap), Positions(sig, allowShort, cap);
      && r.positions == pos
      && r.costs == Costs(Trades(pos), feeBps, slippageBps)
      && r.strategyReturns == StrategyReturns(pos, ret, r.costs)
      && r.equityCurve == Equity(r.strategyReturns)
  {
  }

  /** Two series agree on their first m entries. */
  predicate AgreeUpTo<T(==)>(a: seq<T>, b: seq<T>, m: nat)
  {
    m <= |a| && m <= |b| && forall t :: 0 <= t < m ==> a[t] == b[t]
  }

  /** No look-ahead in the whole accounting: two runs whose returns and
      signals agree up to some date agree on every output up to that date. */
  lemma RunAgree(ret: seq<real>, sig: seq<Option<real>>, ret': seq<real>, sig': seq<Option<real>>,
                 feeBps: real, slippageBps: real, allowShort: bool, cap: real, m: nat)
    requires |sig| == |ret| && |sig'| == |ret'|
    requires AgreeUpTo(ret, ret', m) && AgreeUpTo(sig, sig', m)
    ensures var r, r' := Run(ret, sig, feeBps, slippageBps, allowShort, cap),
                         Run(ret', sig', feeBps, slippageBps, allowShort, cap);
      && AgreeUpTo(r.positions, r'.positions, m)
      && AgreeUpTo(r.costs, r'.costs, m)
      && AgreeUpTo(r.strategyReturns, r'.strategyReturns, m)
      && AgreeUpTo(r.equityCurve, r'.equityCurve, m)
  {
    var pos, pos' := Positions(sig, allowShort, cap), Positions(sig', allowShort, cap);
    PositionsAgree(sig, sig', allowShort, cap, m);
    TradesAgree(pos, pos', m);
    CostsAgree(Trades(pos), Trades(pos'), feeBps, slippageBps, m);
    var cost, cost' := Costs(Trades(pos), feeBps, slippageBps), Costs(Trades(pos'), feeBps, slippageBps);
    StrategyAgree(pos, ret, cost, pos', ret', cost', m);
    EquityAgree(StrategyReturns(pos, ret, cost), StrategyReturns(pos', ret', cost'), m);
  }

  /** The whole backtest is causal: with the prices and signals cut after
      some date, every output agrees with that of the full inputs on all
      priced dates up to the cut. */
  lemma BacktestPrefix(price: seq<Option<real>>, signal: seq<Option<real>>, feeBps: real,
                       slippageBps: real, allowShort: bool, cap: real, m: nat)
    requires |signal| == |price| && PositivePrices(price) && m <= |price|
    ensures PositivePrices(price[..m])
    ensures var k := |DropNa(price[..m])|;
      var whole, cut := BacktestSignals(price, signal, feeBps, slippageBps, allowShort, cap),
                        BacktestSignals(price[..m], signal[..m], feeBps, slippageBps, allowShort, cap);
      && AgreeUpTo(cut.positions, whole.positions, k)
      && AgreeUpTo(cut.costs, whole.costs, k)
      && AgreeUpTo(cut.strategyReturns, whole.strategyReturns, k)
      && AgreeUpTo(cut.equityCurve, whole.equityCurve, k)
  {
    assert forall i :: 0 <= i < m ==> price[..m][i] == price[i];
    var rows, rows' := Priced(price, signal), Priced(price[..m], signal[..m]);
    PricedPrefix(price, signal, m);
    var k := |rows'|;
    PricedPrices(price, signal);
    PricedPrices(price[..m], signal[..m]);
    DropNaPositive(price);
    DropNaPositive(price[..m]);
    var p, p' := Firsts(rows), Firsts(rows');
    assert AgreeUpTo(p', p, k) && AgreeUpTo(Seconds(rows'), Seconds(rows), k);
    SimpleReturnsAgree(p', p, k);
    RunAgree(Features.SimpleReturns(p'), Seconds(rows'), Features.SimpleReturns(p), Seconds(rows),
             feeBps, slippageBps, allowShort, cap, k);
  }

  /** Cutting the inputs cuts the priced rows. */
  lemma {:induction false} PricedPrefix(price: seq<Option<real>>, signal: seq<Option<real>>, m: nat)
    requires |signal| == |price| && m <= |price|
    ensures |Priced(price[..m], signal[..m])| <= |Priced(price, signal)|
    ensures Priced(price[..m], signal[..m]) == Priced(price, signal)[..|Priced(price[..m], signal[..m])|]
  {
    if m > 0 {
      assert price[..m][1..] == price[1..][..m - 1];
      assert signal[..m][1..] == signal[1..][..m - 1];
      PricedPrefix(price[1..], signal[1..], m - 1);
    }
  }

  lemma PositionsAgree(sig: seq<Option<real>>, sig': seq<Option<real>>, allowShort: bool, cap: real, m: nat)
    requires AgreeUpTo(sig, sig', m)
    ensures AgreeUpTo(Positions(sig, allowShort, cap), Positions(sig', allowShort, cap), m)
  {
    forall t | 0 <= t < m ensures Aligned(sig)[t] == Aligned(sig')[t] {
      LastDefinedAgree(sig, sig', m, t);
    }
  }

  lemma {:induction false} LastDefinedAgree(s: seq<Option<real>>, s': seq<Option<real>>, m: nat, t: nat)
    requires AgreeUpTo(s, s', m) && t < m
    ensures LastDefined(s, t) == LastDefined(s', t)
  {
    if s[t].None? && t > 0 {
      LastDefinedAgree(s, s', m, t - 1);
    }
  }

  lemma SimpleReturnsAgree(p: seq<real>, p': seq<real>, m: nat)
    requires AllPositive(p) && AllPositive(p') && AgreeUpTo(p, p', m)
    ensures AgreeUpTo(Features.SimpleReturns(p), Features.SimpleReturns(p'), m)
  {
  }

  lemma TradesAgree(pos: seq<real>, pos': seq<real>, m: nat)
    requires AgreeUpTo(pos, pos', m)
    ensures AgreeUpTo(Trades(pos), Trades(pos'), m)
  {
  }

  lemma CostsAgree(trades: seq<real>, trades': seq<real>, feeBps: real, slippageBps: real, m: nat)
    requires AgreeUpTo(trades, trades', m)
    ensures AgreeUpTo(Costs(trades, feeBps, slippageBps), Costs(trades', feeBps, slippageBps), m)
  {
  }

  lemma StrategyAgree(pos: seq<real>, ret: seq<real>, cost: seq<real>,
                      pos': seq<real>, ret': seq<real>, cost': seq<real>, m: nat)
    requires |ret| == |pos| && |cost| == |pos| && |ret'| == |pos'| && |cost'| == |pos'|
    requires AgreeUpTo(pos, pos', m) && AgreeUpTo(ret, ret', m) && AgreeUpTo(cost, cost', m)
    ensures AgreeUpTo(StrategyReturns(pos, ret, cost), StrategyReturns(pos', ret', cost'), m)
  {
    forall t | 0 <= t < m
      ensures StrategyReturns(pos, ret, cost)[t] == StrategyReturns(pos', ret', cost')[t]
    {
      StrategyReturnAt(pos, ret, cost, t);
      StrategyReturnAt(pos', ret', cost', t);
    }
  }

  lemma EquityAgree(strat: seq<real>, strat': seq<real>, m: nat)
    requires AgreeUpTo(strat, strat', m)
    ensures AgreeUpTo(Equity(strat), Equity(strat'), m)
  {
    forall t | 0 <= t < m ensures Equity(strat)[t] == Equity(strat')[t] {
      assert strat[..t + 1] == strat'[..t + 1];
    }
  }

  /** Without price moves and without costs nothing is earned: every
      strategy return is 0 and the equity stays at 1. */
  lemma NoMoveNoCost(ret: seq<real>, sig: seq<Option<real>>, allowShort: bool, cap: real, t: nat)
    requires |sig| == |ret| && t < |ret|
    requires forall k :: 0 <= k < |ret| ==> ret[k] == 0.0
    ensures Run(ret, sig, 0.0, 0.0, allowShort, cap).strategyReturns[t] == 0.0
    ensures Run(ret, sig, 0.0, 0.0, allowShort, cap).equityCurve[t] == 1.0
  {
    var pos := Positions(sig, allowShort, cap);
    var cost := Costs(Trades(pos), 0.0, 0.0);
    FreeCosts(Trades(pos), 0.0, 0.0);
    StrategyIdle(pos, ret, cost);
    EquityIdle(StrategyReturns(pos, ret, cost), t);
  }

  /** Zero rates cost nothing. */
  lemma FreeCosts(trades: seq<real>, feeBps: real, slippageBps: real)
    requires feeBps + slippageBps == 0.0
    ensures forall k :: 0 <= k < |trades| ==> Costs(trades, feeBps, slippageBps)[k] == 0.0
  {
  }

  /** Zero returns and zero costs earn zero, whatever the position. */
  lemma StrategyIdle(pos: seq<real>, ret: seq<real>, cost: seq<real>)
    requires |ret| == |pos| && |cost| == |pos|
    requires forall k :: 0 <= k < |pos| ==> ret[k] == 0.0 && cost[k] == 0.0
    ensures forall k :: 0 <= k < |pos| ==> StrategyReturns(pos, ret, cost)[k] == 0.0
  {
    forall k | 0 <= k < |pos| ensures StrategyReturns(pos, ret, cost)[k] == 0.0 {
      StrategyReturnAt(pos, ret, cost, k);
    }
  }

  /** Zero strategy returns keep the equity at 1. */
  lemma EquityIdle(strat: seq<real>, t: nat)
    requires t < |strat|
    requires forall k :: 0 <= k < |strat| ==> strat[k] == 0.0
    ensures Equity(strat)[t] == 1.0
  {
    assert strat[..t + 1] == seq(t + 1, k => 0.0);
    CompoundZeros(t + 1);
  }

  lemma {:induction false} CompoundZeros(n: nat)
    ensures Compound(seq(n, k => 0.0)) == 1.0
  {
    if n > 0 {
      assert seq(n, k => 0.0)[..n - 1] == seq(n - 1, k => 0.0);
      CompoundZeros(n - 1);
    }
  }

  /** A constant price has zero returns. */
  lemma FlatReturns(p: seq<real>)
    requires AllPositive(p) && Constant(p)
    ensures forall k :: 0 <= k < |p| ==> Features.SimpleReturns(p)[k] == 0.0
  {
    forall k | 1 <= k < |p| ensures Features.SimpleReturns(p)[k] == 0.0 {
      assert p[k - 1] > 0.0 && p[k] == p[k - 1];
      Features.DivSelf(p[k - 1]);
    }
  }

  /** A backtest of a constant price without costs earns nothing: every
      strategy return is 0 and the equity stays at 1. */
  lemma FlatPriceNoCost(price: seq<Option<real>>, signal: seq<Option<real>>, allowShort: bool, cap: real, t: nat)
    requires |signal| == |price| && PositivePrices(price) && Constant(DropNa(price))
    requires t < |DropNa(price)|
    ensures BacktestSignals(price, signal, 0.0, 0.0, allowShort, cap).strategyReturns[t] == 0.0
    ensures BacktestSignals(price, signal, 0.0, 0.0, allowShort, cap).equityCurve[t] == 1.0
  {
    var rows := Priced(price, signal);
    PricedPrices(price, signal);
    DropNaPositive(price);
    FlatReturns(Firsts(rows));
    NoMoveNoCost(Features.SimpleReturns(Firsts(rows)), Seconds(rows), allowShort, cap, t);
  }

  /** Holding one unit throughout (a signal of 1 with a cap of at least 1)
      without costs, the equity at t is the price at t over the first price. */
  lemma AlwaysLongTracksPrice(p: seq<real>, sig: seq<Option<real>>, allowShort: bool, cap: real, t: nat)
    requires AllPositive(p) && |sig| == |p| && cap >= 1.0 && t < |p|
    requires forall i :: 0 <= i < |sig| ==> sig[i] == Some(1.0)
    ensures Run(Features.SimpleReturns(p), sig, 0.0, 0.0, allowShort, cap).equityCurve[t] == p[t] / p[0]
  {
    var ret := Features.SimpleReturns(p);
    var pos := Positions(sig, allowShort, cap);
    FullPosition(sig, allowShort, cap);
    FreeCosts(Trades(pos), 0.0, 0.0);
    var cost := Costs(Trades(pos), 0.0, 0.0);
    HoldingEarnsReturns(pos, ret, cost);
    EquityAgree(StrategyReturns(pos, ret, cost), ret, |ret|);
    Features.SimpleReturnsCompound(p, t);
  }

  /** A signal of 1 throughout, with a cap of at least 1, holds one unit. */
  lemma FullPosition(sig: seq<Option<real>>, allowShort: bool, cap: real)
    requires cap >= 1.0
    requires forall i :: 0 <= i < |sig| ==> sig[i] == Some(1.0)
    ensures forall k :: 0 <= k < |sig| ==> Positions(sig, allowShort, cap)[k] == 1.0
  {
    forall k | 0 <= k < |sig| ensures Positions(sig, allowShort, cap)[k] == 1.0 {
      assert FFill(sig)[k] == Some(1.0);
    }
  }

  /** Holding one unit at no cost earns the price returns, the first of
      which is 0. */
  lemma HoldingEarnsReturns(pos: seq<real>, ret: seq<real>, cost: seq<real>)
    requires |ret| == |pos| && |cost| == |pos|
    requires forall k :: 0 <= k < |pos| ==> pos[k] == 1.0 && cost[k] == 0.0
    requires |ret| > 0 ==> ret[0] == 0.0
    ensures AgreeUpTo(StrategyReturns(pos, ret, cost), ret, |ret|)
  {
    forall k | 0 <= k < |pos| ensures StrategyReturns(pos, ret, cost)[k] == ret[k] {
      StrategyReturnAt(pos, ret, cost, k);
    }
  }

  /** Paying more per trade never helps: with the same returns and signal,
      higher rates give an equity curve that is nowhere higher, as long as no
      single day loses everything. */
  lemma HigherCostsLowerEquity(ret: seq<real>, sig: seq<Option<real>>, allowShort: bool, cap: real,
                               lowBps: real, highBps: real, t: nat)
    requires |sig| == |ret| && t < |ret|
    requires lowBps <= highBps
    requires forall k :: 0 <= k < |ret| ==> 1.0 + Run(ret, sig, highBps, 0.0, allowShort, cap).strategyReturns[k] >= 0.0
    ensures 0.0 <= Run(ret, sig, highBps, 0.0, allowShort, cap).equityCurve[t]
                <= Run(ret, sig, lowBps, 0.0, allowShort, cap).equityCurve[t]
  {
    HigherCostsLowerReturns(ret, sig, allowShort, cap, lowBps, highBps);
    var hi, lo := Run(ret, sig, highBps, 0.0, allowShort, cap), Run(ret, sig, lowBps, 0.0, allowShort, cap);
    RunEquity(ret, sig, highBps, 0.0, allowShort, cap);
    RunEquity(ret, sig, lowBps, 0.0, allowShort, cap);
    EquityMonotone(hi.strategyReturns, lo.strategyReturns, t);
  }

  /** The equity curve compounds the strategy returns. */
  lemma RunEquity(ret: seq<real>, sig: seq<Option<real>>, feeBps: real, slippageBps: real,
                  allowShort: bool, cap: real)
    requires |sig| == |ret|
    ensures var r := Run(ret, sig, feeBps, slippageBps, allowShort, cap);
      r.equityCurve == Equity(r.strategyReturns)
  {
  }

  /** Higher rates give a strategy return that is nowhere higher. */
  lemma HigherCostsLowerReturns(ret: seq<real>, sig: seq<Option<real>>, allowShort: bool, cap: real,
                                lowBps: real, highBps: real)
    requires |sig| == |ret|
    requires lowBps <= highBps
    ensures forall k :: 0 <= k < |ret| ==>
      Run(ret, sig, highBps, 0.0, allowShort, cap).strategyReturns[k]
        <= Run(ret, sig, lowBps, 0.0, allowShort, cap).strategyReturns[k]
  {
    var pos := Positions(sig, allowShort, cap);
    var tr := Trades(pos);
    CostsMonotone(tr, lowBps, highBps);
    CostlierEarnsLess(pos, ret, Costs(tr, highBps, 0.0), Costs(tr, lowBps, 0.0));
  }

  /** Higher rates cost at least as much on every date. */
  lemma CostsMonotone(trades: seq<real>, lowBps: real, highBps: real)
    requires lowBps <= highBps
    requires forall k :: 0 <= k < |trades| ==> trades[k] >= 0.0
    ensures forall k :: 0 <= k < |trades| ==> Costs(trades, lowBps, 0.0)[k] <= Costs(trades, highBps, 0.0)[k]
  {
    forall k | 0 <= k < |trades| ensures Costs(trades, lowBps, 0.0)[k] <= Costs(trades, highBps, 0.0)[k] {
      MulNonNeg(trades[k], (highBps - lowBps) / 10000.0);
    }
  }

  /** With the same positions and returns, higher costs give lower returns. */
  lemma CostlierEarnsLess(pos: seq<real>, ret: seq<real>, hiCost: seq<real>, loCost: seq<real>)
    requires |ret| == |pos| && |hiCost| == |pos| && |loCost| == |pos|
    requires forall k :: 0 <= k < |pos| ==> loCost[k] <= hiCost[k]
    ensures forall k :: 0 <= k < |pos| ==>
      StrategyReturns(pos, ret, hiCost)[k] <= StrategyReturns(pos, ret, loCost)[k]
  {
    forall k | 0 <= k < |pos| ensures StrategyReturns(pos, ret, hiCost)[k] <= StrategyReturns(pos, ret, loCost)[k] {
      StrategyReturnAt(pos, ret, hiCost, k);
      StrategyReturnAt(pos, ret, loCost, k);
    }
  }

  /** Returns that are lower date by date, none below -1, give an equity
      curve that is nowhere higher and never negative. */
  lemma EquityMonotone(lo: seq<real>, hi: seq<real>, t: nat)
    requires |lo| == |hi| && t < |lo|
    requires forall k :: 0 <= k < |lo| ==> 0.0 <= 1.0 + lo[k] && lo[k] <= hi[k]
    ensures 0.0 <= Equity(lo)[t] <= Equity(hi)[t]
  {
    CompoundMonotone(lo[..t + 1], hi[..t + 1]);
  }

  // ---------------------------------------------------------------------
  // Summary
  // ---------------------------------------------------------------------

  /** `BacktestResult.summary`, with 252 trading days and no risk-free rate.
      The equity curve must start positive for the drawdown to be defined. */
  function Summarize(sqrt: real -> real, pow: (real, real) -> real, r: BacktestResult): (s: Summary)
    requires SqrtLaw(sqrt)
    requires r.equityCurve != [] ==> r.equityCurve[0] > 0.0
    ensures s.hitRatio.None? <==> r.strategyReturns == []
    ensures s.maxDrawdown.None? <==> r.equityCurve == []
    ensures s.cagr.None? <==> r.equityCurve == []
  {
    var rets, eq := Lift(r.strategyReturns), Lift(r.equityCurve);
    DropNaLift(r.strategyReturns);
    DropNaLift(r.equityCurve);
    Metrics.CagrSpec(pow, eq, 252);
    Summary(
      Metrics.Cagr(pow, eq, 252),
      Metrics.Sharpe(sqrt, rets, 0.0, 252),
      Metrics.Sortino(sqrt, rets, 0.0, 252),
      Metrics.MaxDrawdown(eq),
      Metrics.Calmar(rets, eq, 252),
      Metrics.HitRatio(rets))
  }

  /** A backtest without price moves and without costs has no defined
      Sharpe, Sortino or Calmar ratio, a maximum drawdown of 0 and a hit
      ratio of 0. */
  lemma SummaryOfFlatPrice(sqrt: real -> real, pow: (real, real) -> real, ret: seq<real>,
                           sig: seq<Option<real>>, allowShort: bool, cap: real)
    requires SqrtLaw(sqrt)
    requires |sig| == |ret| && ret != []
    requires forall k :: 0 <= k < |ret| ==> ret[k] == 0.0
    ensures Run(ret, sig, 0.0, 0.0, allowShort, cap).equityCurve[0] > 0.0
    ensures var s := Summarize(sqrt, pow, Run(ret, sig, 0.0, 0.0, allowShort, cap));
      && s.sharpe.None? && s.sortino.None? && s.calmar.None?
      && s.maxDrawdown == Some(0.0) && s.hitRatio == Some(0.0)
  {
    var r := Run(ret, sig, 0.0, 0.0, allowShort, cap);
    forall t | 0 <= t < |ret| ensures r.strategyReturns[t] == 0.0 && r.equityCurve[t] == 1.0 {
      NoMoveNoCost(ret, sig, allowShort, cap, t);
    }
    SummaryOfIdle(sqrt, pow, r);
  }

  /** The summary of a result that never earns or loses anything. */
  lemma SummaryOfIdle(sqrt: real -> real, pow: (real, real) -> real, r: BacktestResult)
    requires SqrtLaw(sqrt)
    requires r.strategyReturns != [] && r.equityCurve != []
    requires forall k :: 0 <= k < |r.strategyReturns| ==> r.strategyReturns[k] == 0.0
    requires forall k :: 0 <= k < |r.equityCurve| ==> r.equityCurve[k] == 1.0
    ensures var s := Summarize(sqrt, pow, r);
      && s.sharpe.None? && s.sortino.None? && s.calmar.None?
      && s.maxDrawdown == Some(0.0) && s.hitRatio == Some(0.0)
  {
    IdleReturns(sqrt, r.strategyReturns);
    IdleEquity(r.equityCurve);
  }

  /** Zero returns: no Sharpe or Sortino ratio and a hit ratio of 0. */
  lemma IdleReturns(sqrt: real -> real, rets: seq<real>)
    requires SqrtLaw(sqrt) && rets != []
    requires forall k :: 0 <= k < |rets| ==> rets[k] == 0.0
    ensures Metrics.Sharpe(sqrt, Lift(rets), 0.0, 252).None?
    ensures Metrics.Sortino(sqrt, Lift(rets), 0.0, 252).None?
    ensures Metrics.HitRatio(Lift(rets)) == Some(0.0)
  {
    DropNaLift(rets);
    Metrics.SharpeUndefinedIff(sqrt, Lift(rets), 0.0, 252);
    Metrics.SortinoNoLosses(sqrt, Lift(rets), 0.0, 252);
  }

  /** A flat equity curve at 1: no drawdown. */
  lemma IdleEquity(eq: seq<real>)
    requires eq != []
    requires forall k :: 0 <= k < |eq| ==> eq[k] == 1.0
    ensures DropNa(Lift(eq)) == eq
    ensures Metrics.MaxDrawdown(Lift(eq)) == Some(0.0)
  {
    DropNaLift(eq);
    Metrics.MaxDrawdownZeroIff(Lift(eq));
  }
}
