# quantfinlab core in Dafny

This project models the computational core of `quantfinlab`, a small
quantitative-finance toolkit built on pandas: the vectorised single-asset
backtest (`backtest_signals` and the `BacktestResult.summary` statistics),
the performance metrics, the feature formulas (returns, SMA, EMA, rolling
volatility, rolling z-score, RSI), the two trading rules (symmetric mean
reversion and long-only momentum with volatility targeting) and the data
preparation around the LSTM forecaster (look-back windowing, the training
size guard and the forecast input slice).

How the model reads the pandas code:

- A price or return series is a `seq<real>`. Where NaN can occur, the series
  is a `seq<Option<real>>`, with `None` for NaN. `dropna` is `Series.DropNa`,
  `ffill` is `Series.FFill` (via `LastDefined`) and `bfill` is `Series.BFill`
  (via `NextDefined`). A comparison with NaN is false. A statistic that
  pandas returns as NaN is `None`.
- `log`, `sqrt` and the fractional power in CAGR are function parameters.
  The only law assumed of `sqrt` is `Series.SqrtLaw`: it is non-negative on
  non-negative input, and zero exactly at zero. The sample standard deviation
  is `sqrt` of the sample variance with `ddof = 1`. The variance itself is
  computed exactly.
- pandas `clip(lower, upper)` swaps the bounds when `lower > upper`; `Backtest.Clip` does the same.
- `replace(0.0, method="ffill").fillna(0.0)` leaves the zeros before the
  first non-zero value at 0 (`MeanReversion.FillZeros`).
- The backtest is split at the price returns. `Backtest.Run` takes the
  returns of the priced rows and the signal on those rows.
  `Backtest.BacktestSignals` is `Run` applied to
  `SimpleReturns(price.dropna())` and to `signal.reindex(price.dropna().index)`.
- `mean_reversion` is imperative: it is a `method` over an `array`, with one
  loop per masked assignment and one in-place pass per fill. It is proved
  equal to the specification function `MeanReversion.Rule`.
- `_SeqDataset` is a class whose constructor appends windows and targets in
  a loop. The constructor is proved equal to `Lstm.Samples` and `Lstm.Targets`.

Files: `series.dfy` (shared series operations), `features.dfy`,
`metrics.dfy`, `backtest.dfy`, `mean_reversion.dfy`, `momentum.dfy`,
`lstm.dfy`. There is one module per source file.

## Model

| member | source | states |
|---|---|---|
| `Series.FillNa` | finlab/src/quantfinlab/backtest.py:61 | `fillna(v)` keeps the length and every defined value, and puts v at every missing one |
| `Series.DropNa` | finlab/src/quantfinlab/backtest.py:60 | `dropna` keeps exactly the defined values and never lengthens the series; order and repeats are fixed by `Series.DropNaAppend` |
| `Series.DropNaAppend` | finlab/src/quantfinlab/backtest.py:60 | `dropna` of a concatenation is the concatenation of the `dropna`s, a lone NaN gives nothing and a lone value gives itself, so the defined values keep their order and repeats |
| `Series.FFill` | finlab/src/quantfinlab/backtest.py:63 | forward fill keeps the length and every defined entry |
| `Series.LastDefined` | finlab/src/quantfinlab/backtest.py:63 | the value `ffill` puts at i is undefined iff no entry up to i is defined |
| `Series.LastDefinedIsMostRecent` | finlab/src/quantfinlab/backtest.py:63 | a defined forward-filled entry at i is the latest defined entry at or before i |
| `Series.BFill` | finlab/src/quantfinlab/strategies/momentum.py:30 | backward fill keeps the length and every defined entry |
| `Series.NextDefined` | finlab/src/quantfinlab/strategies/momentum.py:30 | the value `bfill` puts at i is undefined iff no entry from i on is defined |
| `Series.NextDefinedIsSoonest` | finlab/src/quantfinlab/strategies/momentum.py:30 | a defined back-filled entry at i is the earliest defined entry at or after i |
| `Series.Mean` | finlab/src/quantfinlab/metrics.py:33 | the mean is undefined exactly for the empty series |
| `Series.Variance` | finlab/src/quantfinlab/metrics.py:32 | the sample variance (ddof 1) is undefined iff there are fewer than 2 values, and is never negative |
| `Series.VarianceZeroIffConstant` | finlab/src/quantfinlab/metrics.py:32-33 | the sample variance of 2 or more values is 0 iff all the values are equal |
| `Series.Std` | finlab/src/quantfinlab/metrics.py:32 | the sample std is undefined iff there are fewer than 2 values |
| `Series.StdZeroIffConstant` | finlab/src/quantfinlab/metrics.py:32-33 | given the sqrt law, the std of 2 or more values is defined, non-negative, and 0 iff the values are all equal |
| `Series.Compound` | finlab/src/quantfinlab/backtest.py:75 | the product of the growth factors 1 + r is never negative while no factor is |
| `Series.CompoundMonotone` | finlab/src/quantfinlab/backtest.py:75 | a cumulative product of growth factors is monotone in the factors while they are non-negative |
| `Features.SimpleReturns` | finlab/src/quantfinlab/features.py:14-15 | `pct_change().fillna(0)`: 0 first, then p[t]/p[t-1] - 1, same length |
| `Features.SimpleReturnsCompound` | finlab/src/quantfinlab/features.py:14-15 | compounding the simple returns up to t gives p[t]/p[0], so returns and prices carry the same information |
| `Features.LogReturns` | finlab/src/quantfinlab/features.py:7-11 | `log(p).diff()`: the first entry is 0 with fillna and NaN without it; after that, log p[t] - log p[t-1] |
| `Features.LogReturnsTelescope` | finlab/src/quantfinlab/features.py:7-11 | the log returns up to t add up to log p[t] - log p[0] |
| `Features.Sma` | finlab/src/quantfinlab/features.py:18-19 | `rolling(w).mean()` is undefined iff w = 0 or fewer than w values are available, and otherwise is the mean of the last w values |
| `Features.SmaSlide` | finlab/src/quantfinlab/features.py:18-19 | moving the window by one changes the SMA by (new value - dropped value)/w |
| `Features.Ewm` | finlab/src/quantfinlab/features.py:22-23 | `ewm(adjust=False)` keeps the length and starts at the first input |
| `Features.EwmStep` | finlab/src/quantfinlab/features.py:22-23 | `ewm(adjust=False)` starts at x[0] and then follows y[t] = (1-alpha) y[t-1] + alpha x[t] |
| `Features.EwmWithin` | finlab/src/quantfinlab/features.py:22-23 | for alpha in [0,1], the smoothed series stays within any bounds of its input |
| `Features.EwmNonNeg` | finlab/src/quantfinlab/features.py:43-44 | smoothing a non-negative series gives a non-negative series |
| `Features.Ema` | finlab/src/quantfinlab/features.py:22-23 | the EMA has the length of the price |
| `Features.EmaSpec` | finlab/src/quantfinlab/features.py:22-23 | with span s the EMA uses alpha = 2/(s+1), follows the recurrence, and stays within the price's bounds |
| `Features.RollingStd` | finlab/src/quantfinlab/features.py:27 | the rolling std is undefined iff w < 2 or fewer than w values are available |
| `Features.RollingVol` | finlab/src/quantfinlab/features.py:26-28 | the rolling volatility has the input's length and is undefined exactly where the rolling std is |
| `Features.RollingVolNonNeg` | finlab/src/quantfinlab/features.py:26-27 | given the sqrt law, the rolling volatility is never negative where it is defined |
| `Features.ZScore` | finlab/src/quantfinlab/features.py:31-35 | the z-score is undefined iff the rolling std is undefined or 0 (`replace(0, nan)`) |
| `Features.ZScoreUndefinedIff` | finlab/src/quantfinlab/features.py:31-35 | the z-score is undefined iff w < 2, the window is incomplete or the window is constant; where it is defined, z * sd = x - mean with sd > 0 |
| `Features.Gains` | finlab/src/quantfinlab/features.py:40-41 | `diff().clip(lower=0)`: each price rise, or 0, never negative |
| `Features.Losses` | finlab/src/quantfinlab/features.py:40-42 | `-diff().clip(upper=0)`: each price fall, or 0, never negative |
| `Features.RsiValue` | finlab/src/quantfinlab/features.py:45-46 | 100 - 100/(1 + up/(down + 1e-12)) lies in [0, 100) |
| `Features.RsiAverages` | finlab/src/quantfinlab/features.py:43-44 | the smoothed gains and losses have the lengths of the differences |
| `Features.RsiAveragesNonNeg` | finlab/src/quantfinlab/features.py:43-44 | the smoothed gains and losses (alpha = 1/w) are never negative |
| `Features.Rsi` | finlab/src/quantfinlab/features.py:38-47 | RSI is undefined at the first bar and lies in [0, 100) at every later bar |
| `Features.RsiValueNoGain` | finlab/src/quantfinlab/features.py:45-46 | with no gain, the formula gives 0 |
| `Features.NoGains` | finlab/src/quantfinlab/features.py:40-41 | a price that never rises has no gains |
| `Features.RsiOfNonRisingPrice` | finlab/src/quantfinlab/features.py:38-47 | a price that never rises has an RSI of 0 after the first bar |
| `Metrics.Cagr` | finlab/src/quantfinlab/metrics.py:13-21 | a defined CAGR needs a non-empty curve after dropna and a positive trading-day count |
| `Metrics.CagrSpec` | finlab/src/quantfinlab/metrics.py:13-21 | CAGR is NaN iff the curve is empty after dropna or years <= 0; otherwise it is (last/first)^(trading_days/n) - 1 |
| `Metrics.AnnualizedVol` | finlab/src/quantfinlab/metrics.py:24-26 | the annualised volatility is NaN iff fewer than 2 returns remain (or trading_days < 0), and is never negative |
| `Metrics.Sharpe` | finlab/src/quantfinlab/metrics.py:29-33 | a defined Sharpe ratio needs at least 2 returns after dropna and a positive trading-day count |
| `Metrics.SharpeUndefinedIff` | finlab/src/quantfinlab/metrics.py:29-33 | Sharpe is NaN iff the std of the excess returns is NaN or 0: fewer than 2 returns, or constant returns |
| `Metrics.SharpeSign` | finlab/src/quantfinlab/metrics.py:29-33 | a defined Sharpe ratio has the sign of mean return minus rf/trading_days |
| `Metrics.Negatives` | finlab/src/quantfinlab/metrics.py:38 | `r[r < 0]` holds exactly the negative returns; order and repeats are fixed by `Metrics.NegativesAppend` |
| `Metrics.NegativesAppend` | finlab/src/quantfinlab/metrics.py:38 | `r[r < 0]` of a concatenation is the concatenation of the filters, and a single return is kept iff it is negative, so the negatives keep their order and repeats |
| `Metrics.Sortino` | finlab/src/quantfinlab/metrics.py:36-43 | a defined Sortino ratio needs at least 2 negative returns and a positive trading-day count |
| `Metrics.SortinoUndefinedIff` | finlab/src/quantfinlab/metrics.py:36-41 | Sortino is NaN iff the downside std is NaN or 0: fewer than 2 negative returns, or equal negative returns |
| `Metrics.SortinoSign` | finlab/src/quantfinlab/metrics.py:36-43 | a defined Sortino ratio has the sign of mean return minus rf/trading_days |
| `Metrics.SortinoNoLosses` | finlab/src/quantfinlab/metrics.py:36-41 | returns with no losses give a NaN Sortino ratio |
| `Metrics.Peak` | finlab/src/quantfinlab/metrics.py:48 | `cummax` at t is a value of the curve up to t and bounds every value up to t |
| `Metrics.Drawdowns` | finlab/src/quantfinlab/metrics.py:48-49 | the drawdown at t is ec[t]/peak[t] - 1 |
| `Metrics.DrawdownBounds` | finlab/src/quantfinlab/metrics.py:48-49 | every drawdown is <= 0, above -1 for a positive value, and 0 iff the curve is at its peak |
| `Metrics.MaxDrawdown` | finlab/src/quantfinlab/metrics.py:46-50 | the maximum drawdown is NaN exactly for an empty curve after dropna |
| `Metrics.MaxDrawdownBounds` | finlab/src/quantfinlab/metrics.py:46-50 | the maximum drawdown is <= 0, and above -1 for a positive curve |
| `Metrics.MaxDrawdownZeroIff` | finlab/src/quantfinlab/metrics.py:46-50 | the maximum drawdown is 0 iff the curve never falls |
| `Metrics.NoDrawdownRising` | finlab/src/quantfinlab/metrics.py:48-50 | if the smallest drawdown is 0, the curve never falls |
| `Metrics.RisingNoDrawdown` | finlab/src/quantfinlab/metrics.py:48-50 | if the curve never falls, the smallest drawdown is 0 |
| `Metrics.Abs` | finlab/src/quantfinlab/metrics.py:55 | `abs` is non-negative and is x or -x |
| `Metrics.Calmar` | finlab/src/quantfinlab/metrics.py:53-56 | Calmar is NaN iff the max drawdown is NaN or 0, or there is no return to average |
| `Metrics.CalmarOf` | finlab/src/quantfinlab/metrics.py:54-56 | the ratio is NaN iff an input is NaN or the drawdown is 0 |
| `Metrics.CalmarValue` | finlab/src/quantfinlab/metrics.py:54-56 | a defined Calmar ratio times abs(mdd) is the annual return, and it has that return's sign |
| `Metrics.CountPositive` | finlab/src/quantfinlab/metrics.py:63 | the number of positive returns is 0 iff none is positive, and all of them iff all are; that it counts is `Metrics.CountPositiveAppend` |
| `Metrics.CountPositiveAppend` | finlab/src/quantfinlab/metrics.py:63 | the count of a concatenation is the sum of the counts, and a single return counts 1 iff it is strictly positive, so the count is the number of returns > 0 |
| `Metrics.HitRatio` | finlab/src/quantfinlab/metrics.py:59-63 | the hit ratio is NaN iff there is no return; otherwise it is the count of positive returns (`Metrics.CountPositiveAppend`) over the number of returns, in [0,1], 0 iff no return is positive, and 1 iff all are |
| `Backtest.Priced` | finlab/src/quantfinlab/backtest.py:60-63 | the priced rows are no more than the bars; their order and which signal goes with each price are fixed by `Backtest.PricedAppend` |
| `Backtest.PricedAppend` | finlab/src/quantfinlab/backtest.py:60-63 | the priced rows of concatenated dates are the concatenated rows, a date without a price gives no row, and a priced date gives its price paired with its own signal, so rows keep date order and repeats |
| `Backtest.PricedRows` | finlab/src/quantfinlab/backtest.py:60-63 | a (price, signal) row is kept iff some bar has that defined price and that signal (order and repeats: `Backtest.PricedAppend`) |
| `Backtest.PricedPrices` | finlab/src/quantfinlab/backtest.py:60 | the prices of the kept rows are `price.dropna()` |
| `Backtest.PricedAllDefined` | finlab/src/quantfinlab/backtest.py:63 | with no missing price, the reindexed signal is the signal |
| `Backtest.Aligned` | finlab/src/quantfinlab/backtest.py:63 | the aligned signal has the length of the priced rows |
| `Backtest.AlignedIsLatestSignal` | finlab/src/quantfinlab/backtest.py:63 | the aligned signal at t is 0 if no signal was given up to t, and otherwise the most recent signal given at or before t |
| `Backtest.Clip` | finlab/src/quantfinlab/backtest.py:64-67 | the clipped value lies between the bounds, either way round, and a value already inside is unchanged |
| `Backtest.Positions` | finlab/src/quantfinlab/backtest.py:63-67 | one position per priced row |
| `Backtest.PositionBounds` | finlab/src/quantfinlab/backtest.py:64-67 | for cap >= 0, positions lie in [0, cap], or in [-cap, cap] with shorting; an aligned signal already inside is kept |
| `Backtest.Trades` | finlab/src/quantfinlab/backtest.py:69 | traded size is never negative |
| `Backtest.TradesZeroIff` | finlab/src/quantfinlab/backtest.py:69 | nothing is traded at t iff the position equals the previous one (0 before the first bar) |
| `Backtest.Costs` | finlab/src/quantfinlab/backtest.py:71-72 | one cost per bar |
| `Backtest.CostsSpec` | finlab/src/quantfinlab/backtest.py:69-72 | with non-negative fee and slippage the cost is >= 0, and 0 when nothing is traded or both rates are 0 |
| `Backtest.Lagged` | finlab/src/quantfinlab/backtest.py:74 | `shift(1).fillna(0)` keeps the length |
| `Backtest.StrategyReturns` | finlab/src/quantfinlab/backtest.py:74 | one strategy return per bar |
| `Backtest.NoLookAhead` | finlab/src/quantfinlab/backtest.py:74 | the return at t is -cost[0] at t = 0 and pos[t-1]*ret[t] - cost[t] after; positions from t on do not affect it |
| `Backtest.Equity` | finlab/src/quantfinlab/backtest.py:75 | one equity value per bar |
| `Backtest.EquityRecurrence` | finlab/src/quantfinlab/backtest.py:75 | equity[0] = 1 + r[0] and equity[t] = equity[t-1] * (1 + r[t]) |
| `Backtest.Run` | finlab/src/quantfinlab/backtest.py:63-80 | the `BacktestResult` record (lines 12-17) it returns has returns, equity, positions and costs of the length of the priced rows |
| `Backtest.BacktestSignals` | finlab/src/quantfinlab/backtest.py:30-80 | all four result series have the length of `price.dropna()` |
| `Backtest.RunAgree` | finlab/src/quantfinlab/backtest.py:63-75 | causality: inputs that agree on the first m bars give outputs that agree on the first m bars |
| `Backtest.BacktestPrefix` | finlab/src/quantfinlab/backtest.py:30-80 | backtesting a prefix of the data gives a prefix of every result series |
| `Backtest.PricedPrefix` | finlab/src/quantfinlab/backtest.py:60-63 | the priced rows of a prefix are a prefix of the priced rows |
| `Backtest.PositionsAgree` | finlab/src/quantfinlab/backtest.py:63-67 | positions up to m depend only on the signal up to m |
| `Backtest.LastDefinedAgree` | finlab/src/quantfinlab/backtest.py:63 | the forward fill up to m depends only on the series up to m |
| `Backtest.SimpleReturnsAgree` | finlab/src/quantfinlab/backtest.py:61 | returns up to m depend only on prices up to m |
| `Backtest.TradesAgree` | finlab/src/quantfinlab/backtest.py:69 | trades up to m depend only on positions up to m |
| `Backtest.CostsAgree` | finlab/src/quantfinlab/backtest.py:72 | costs up to m depend only on trades up to m |
| `Backtest.StrategyAgree` | finlab/src/quantfinlab/backtest.py:74 | strategy returns up to m depend only on their inputs up to m |
| `Backtest.EquityAgree` | finlab/src/quantfinlab/backtest.py:75 | equity up to m depends only on strategy returns up to m |
| `Backtest.NoMoveNoCost` | finlab/src/quantfinlab/backtest.py:61-75 | with zero price returns and zero cost rates, every strategy return is 0 and equity stays 1 |
| `Backtest.FreeCosts` | finlab/src/quantfinlab/backtest.py:71-72 | zero total cost rate means zero cost on every bar |
| `Backtest.StrategyIdle` | finlab/src/quantfinlab/backtest.py:74 | zero returns and zero costs give zero strategy returns |
| `Backtest.EquityIdle` | finlab/src/quantfinlab/backtest.py:75 | zero strategy returns keep equity at 1 |
| `Backtest.CompoundZeros` | finlab/src/quantfinlab/backtest.py:75 | compounding zero returns gives 1 |
| `Backtest.FlatReturns` | finlab/src/quantfinlab/backtest.py:61 | a constant price has zero returns |
| `Backtest.FlatPriceNoCost` | finlab/src/quantfinlab/backtest.py:60-75 | a constant price with zero cost rates gives strategy returns of 0 and equity of 1 on every bar |
| `Backtest.AlwaysLongTracksPrice` | finlab/src/quantfinlab/backtest.py:61-75 | a constant signal of 1 (cap >= 1) without costs has equity p[t]/p[0]: it tracks the price |
| `Backtest.FullPosition` | finlab/src/quantfinlab/backtest.py:63-67 | a signal of 1 everywhere with cap >= 1 is a position of 1 everywhere |
| `Backtest.HoldingEarnsReturns` | finlab/src/quantfinlab/backtest.py:74 | holding 1 without costs earns the price return on every bar |
| `Backtest.HigherCostsLowerEquity` | finlab/src/quantfinlab/backtest.py:69-75 | a higher cost rate never gives a higher equity (while the equity stays non-negative) |
| `Backtest.HigherCostsLowerReturns` | finlab/src/quantfinlab/backtest.py:69-74 | a higher cost rate never gives a higher strategy return |
| `Backtest.CostsMonotone` | finlab/src/quantfinlab/backtest.py:71-72 | costs grow with the cost rate |
| `Backtest.CostlierEarnsLess` | finlab/src/quantfinlab/backtest.py:74 | larger costs mean smaller strategy returns |
| `Backtest.EquityMonotone` | finlab/src/quantfinlab/backtest.py:75 | equity is monotone in the strategy returns while the growth factors are non-negative |
| `Backtest.Summarize` | finlab/src/quantfinlab/backtest.py:19-27 | in the six-entry summary, hit ratio, max drawdown and CAGR are NaN exactly for an empty result |
| `Backtest.SummaryOfFlatPrice` | finlab/src/quantfinlab/backtest.py:19-27 | a flat-price backtest without costs has Sharpe, Sortino and Calmar NaN, max drawdown 0 and hit ratio 0 |
| `Backtest.SummaryOfIdle` | finlab/src/quantfinlab/backtest.py:19-27 | zero returns and a constant equity of 1 have Sharpe, Sortino and Calmar NaN, max drawdown 0 and hit ratio 0 |
| `Backtest.IdleReturns` | finlab/src/quantfinlab/backtest.py:22-26 | zero returns have Sharpe and Sortino NaN and a hit ratio of 0 |
| `Backtest.IdleEquity` | finlab/src/quantfinlab/backtest.py:24 | a constant equity of 1 has a max drawdown of 0 |
| `MeanReversion.LongAt` | finlab/src/quantfinlab/strategies/mean_reversion.py:19 | `z <= -entry_z` (false on NaN) is the short entry of the negated z-score, and is never a flat bar for an exit below the entry threshold |
| `MeanReversion.ShortAt` | finlab/src/quantfinlab/strategies/mean_reversion.py:20 | `z >= entry_z` (false on NaN) is never a flat bar for an exit below the entry threshold |
| `MeanReversion.FlatAt` | finlab/src/quantfinlab/strategies/mean_reversion.py:21 | `z.abs() <= exit_z` holds iff z is defined and lies in [-exit_z, exit_z] |
| `MeanReversion.Entries` | finlab/src/quantfinlab/strategies/mean_reversion.py:19-24 | the masked writes of the entries have the z-score's length |
| `MeanReversion.EntriesSpec` | finlab/src/quantfinlab/strategies/mean_reversion.py:19-24 | -1 exactly on a short entry, 1 exactly on a long entry that is not short, 0 where neither holds |
| `MeanReversion.FillZeros` | finlab/src/quantfinlab/strategies/mean_reversion.py:26 | the zero-filling pass keeps the length |
| `MeanReversion.LastNonZero` | finlab/src/quantfinlab/strategies/mean_reversion.py:26 | the value the zero-filling pass puts at i is 0 iff every value up to i is 0 |
| `MeanReversion.LastNonZeroSpec` | finlab/src/quantfinlab/strategies/mean_reversion.py:26 | after filling, a non-zero value is kept, and a non-zero filled value is the most recent non-zero value |
| `MeanReversion.FillZerosIdempotent` | finlab/src/quantfinlab/strategies/mean_reversion.py:26-28 | filling the zeros twice is filling them once |
| `MeanReversion.RefillAfterClearing` | finlab/src/quantfinlab/strategies/mean_reversion.py:26-28 | clearing filled values that were originally 0 and filling again gives the first fill |
| `MeanReversion.Flatten` | finlab/src/quantfinlab/strategies/mean_reversion.py:27 | the flat writes keep the length |
| `MeanReversion.Rule` | finlab/src/quantfinlab/strategies/mean_reversion.py:19-28 | the rule gives one position per bar |
| `MeanReversion.ReplaceZerosForward` | finlab/src/quantfinlab/strategies/mean_reversion.py:26 | the in-place pass leaves the array equal to the zero-filled old contents |
| `MeanReversion.MeanReversion` | finlab/src/quantfinlab/strategies/mean_reversion.py:17-28 | the array built by the masked writes and the two passes is the rule |
| `MeanReversion.MeanReversionOfPrice` | finlab/src/quantfinlab/strategies/mean_reversion.py:9-29 | the positions are the rule on the price's z-score, one per bar |
| `MeanReversion.FillZerosUnit` | finlab/src/quantfinlab/strategies/mean_reversion.py:26 | filling keeps a series of -1, 0 and 1 one |
| `MeanReversion.RuleUnit` | finlab/src/quantfinlab/strategies/mean_reversion.py:14-28 | every position is -1, 0 or 1 |
| `MeanReversion.FillZerosStaysNonZero` | finlab/src/quantfinlab/strategies/mean_reversion.py:26 | once a filled series is non-zero it stays non-zero |
| `MeanReversion.NeverFlatAgain` | finlab/src/quantfinlab/strategies/mean_reversion.py:26-28 | for any thresholds, once a position is held the rule never returns to flat |
| `MeanReversion.RuleIsFirstPass` | finlab/src/quantfinlab/strategies/mean_reversion.py:26-28 | for exit < entry, the flat writes and the second pass change nothing |
| `MeanReversion.FlatOnlyBeforeFirstEntry` | finlab/src/quantfinlab/strategies/mean_reversion.py:19-28 | for exit < entry, the position is 0 iff no entry occurred up to that bar |
| `MeanReversion.UndefinedCarries` | finlab/src/quantfinlab/strategies/mean_reversion.py:19-28 | for exit < entry, a bar without a z-score keeps the previous position (0 at the first bar) |
| `MeanReversion.WideExitBreaksCarry` | finlab/src/quantfinlab/strategies/mean_reversion.py:21-28 | for exit >= entry the carry fails: z = [-1.5, NaN], entry 1, exit 2 gives [0, 1] |
| `MeanReversion.Intended` | finlab/src/quantfinlab/strategies/mean_reversion.py:11-12 | the documented rule as a state machine; its positions are -1, 0 or 1 |
| `MeanReversion.IntendedFlattens` | finlab/src/quantfinlab/strategies/mean_reversion.py:11-12 | for exit < entry, the documented rule is 0 from a flat bar on until the next entry |
| `MeanReversion.IntendedHoldsLastEntry` | finlab/src/quantfinlab/strategies/mean_reversion.py:11-12 | a held position is the most recent entry, and no later bar has been flat or an entry |
| `MeanReversion.IntendedPositions` | finlab/src/quantfinlab/strategies/mean_reversion.py:23-28 | the corrected loop yields the documented rule at every bar |
| `MeanReversion.IntendedWithoutFlat` | finlab/src/quantfinlab/strategies/mean_reversion.py:23-26 | with no flat bar, the documented rule carries the last entry, as the first fill does |
| `MeanReversion.IntendedAgreesWithoutFlat` | finlab/src/quantfinlab/strategies/mean_reversion.py:23-28 | with no flat bar, the code as written and the documented rule agree |
| `MeanReversion.WrittenRuleIgnoresExit` | finlab/src/quantfinlab/strategies/mean_reversion.py:25-28 | for z = [-1.5, 0], entry 1 and exit 0.25, bar 1 is flat, yet the code gives [1, 1] where the documented rule gives 0 |
| `Momentum.RawSignal` | finlab/src/quantfinlab/strategies/momentum.py:25-26 | the raw signal is 0 or 1, and 1 iff the SMA is defined and the price is above it |
| `Momentum.Vol` | finlab/src/quantfinlab/strategies/momentum.py:29-30 | the back-filled volatility has the price's length |
| `Momentum.ScaleOf` | finlab/src/quantfinlab/strategies/momentum.py:32-33 | the scale is at most 1, and 1 where the volatility is NaN or 0 |
| `Momentum.MomentumLongOnly` | finlab/src/quantfinlab/strategies/momentum.py:9-35 | one position per bar |
| `Momentum.Exposure` | finlab/src/quantfinlab/strategies/momentum.py:34 | raw times scale is the scale when the signal is 1 and 0 when it is 0 |
| `Momentum.VolDefinedIff` | finlab/src/quantfinlab/strategies/momentum.py:29-30 | the volatility is defined everywhere iff there are at least 20 bars, and each of the first 20 bars carries the value of bar 20 |
| `Momentum.VolNonNeg` | finlab/src/quantfinlab/strategies/momentum.py:29-30 | given the sqrt law, the back-filled volatility is never negative |
| `Momentum.ScaleBounds` | finlab/src/quantfinlab/strategies/momentum.py:32-33 | for a non-negative target, the scale is in [0, 1]; for a positive target it is positive |
| `Momentum.ScaleTargetsVol` | finlab/src/quantfinlab/strategies/momentum.py:31-33 | below the cap, scale * vol equals the target; at the cap, vol is at most the target |
| `Momentum.PositionAt` | finlab/src/quantfinlab/strategies/momentum.py:34 | the position is the scale where the raw signal is 1, and 0 elsewhere |
| `Momentum.PositionBounds` | finlab/src/quantfinlab/strategies/momentum.py:23-34 | for a non-negative target every position is in [0, 1] |
| `Momentum.HeldIffAboveAverage` | finlab/src/quantfinlab/strategies/momentum.py:11-34 | for a positive target, the position is positive iff the price is above a defined SMA, and 0 otherwise |
| `Momentum.ShortSeriesUnscaled` | finlab/src/quantfinlab/strategies/momentum.py:30-34 | with fewer than 20 bars there is no volatility and the position is the raw signal |
| `Momentum.HeldPositionHitsTarget` | finlab/src/quantfinlab/strategies/momentum.py:31-34 | a held position below the cap is target/vol, sized to the target volatility |
| `Lstm.SampleCount` | finlab/src/quantfinlab/models/lstm.py:17 | `range(lookback, n)` is empty iff n <= lookback, and otherwise has n - lookback indices |
| `Lstm.Samples` | finlab/src/quantfinlab/models/lstm.py:17-18 | there are max(0, n - lookback) windows, each of exactly lookback values |
| `Lstm.Targets` | finlab/src/quantfinlab/models/lstm.py:17-19 | there is one target per window |
| `Lstm.SeqDataset.constructor` | finlab/src/quantfinlab/models/lstm.py:14-21 | the loop builds exactly the windows x[k..k+lookback) and targets x[k+lookback], all of width lookback, with one target per window |
| `Lstm.SeqDataset.Len` | finlab/src/quantfinlab/models/lstm.py:23-24 | `__len__` is the number of windows |
| `Lstm.SampleSpec` | finlab/src/quantfinlab/models/lstm.py:17-19 | a sample exists only when n > lookback, there are n - lookback of them, and a window followed by its target is lookback + 1 consecutive values |
| `Lstm.WindowsSlide` | finlab/src/quantfinlab/models/lstm.py:17-19 | the next window is this window shifted by one, followed by this window's target |
| `Lstm.SamplesOfPrefix` | finlab/src/quantfinlab/models/lstm.py:17-19 | the samples of a prefix of the series are a prefix of its samples: no window reads past its target |
| `Lstm.TrainingSamples` | finlab/src/quantfinlab/models/lstm.py:54-57 | training raises iff fewer than lookback + 50 values remain after dropna; otherwise there are at least 50 samples |
| `Lstm.ForecastInput` | finlab/src/quantfinlab/models/lstm.py:75 | `values[-lookback:]` is a suffix of the series: the last lookback values, or the whole series if lookback is 0 or exceeds its length |
| `Lstm.ForecastInputIsNextWindow` | finlab/src/quantfinlab/models/lstm.py:17-19 | the forecast input is the window a dataset extended by the next value would pair with that value |

## Left out

- I/O and foreign code. The torch network (`LSTMForecaster`), the Adam training loop, the loss, `DataLoader` shuffling and `forecast_one`'s model call are not modelled. Only the slice feeding the model is (`Lstm.ForecastInput`). `_SeqDataset.__getitem__` only converts to tensors and is not modelled.
- float32 conversion in `_SeqDataset` and IEEE-754 rounding: all arithmetic is exact over `real`. Infinities are not modelled, so divisions by prices and equity values are guarded by requires: `Features.SimpleReturns` and `Backtest.BacktestSignals` require every price to be positive, and `Metrics.Cagr` requires a non-zero first equity.
- `log`, `sqrt` and the CAGR power are parameters without definitions. The annualisation `sqrt(trading_days)` is a value of the `sqrt` parameter. `Series.SqrtLaw` is the only property used of `sqrt`.
- The features and strategies are modelled on NaN-free prices. A NaN inside a rolling window, which makes that window's result NaN (the default `min_periods` is the window), is not modelled. In the backtest and the metrics, NaN is modelled as `None`.
- Series index labels, `reindex` on a different index, and `rename` are not modelled. The strategies keep the price's index, so `reindex(price.index)` in `momentum_long_only` is the identity.
- Window sizes and look-backs are `nat`, so negative windows are not modelled. For the rolling features, window 0 gives an undefined rolling mean, as an empty mean does.
- Window 0 is outside the model for the EWM-based features, because the source raises there: `Features.Ema` requires `span >= 1` (pandas `ewm(span=0)` raises ValueError, features.py:23), and `Features.RsiAverages` and `Features.Rsi`, with the lemmas about them, require `w >= 1` (`1 / window` raises ZeroDivisionError, features.py:43).
- `trading_days = 0` is not modelled. `Metrics.Cagr` requires it non-zero because `len(equity_curve) / trading_days` (metrics.py:18) raises; `Metrics.Sharpe` and `Metrics.Sortino` require it non-zero because `rf / trading_days` (metrics.py:31 and 42) raises. For `Metrics.Cagr` and `Metrics.Sortino` this is stricter than the source: an empty curve (metrics.py:15-16), or a downside with fewer than two or only equal values (metrics.py:40-41), returns NaN before that division, so with `trading_days = 0` those inputs give NaN in Python but are outside the model.
- Curves that start at a non-positive value are not modelled by `Metrics.MaxDrawdown`, `Metrics.Calmar` and `Backtest.Summarize`. They require a positive first equity value, so that every running peak is positive and each drawdown ec/peak - 1 has its usual meaning. pandas evaluates a curve that starts negative without dividing by zero, for example ec = [-1, -2] has peaks [-1, -1] and drawdowns [0, 1], but those curves are excluded here.
- Backtest.HigherCostsLowerEquity: costs depend on fee and slippage only through their sum, so the lemma varies the fee with the slippage at 0. It holds only while every growth factor 1 + r stays non-negative.
- Momentum.PositionBounds: the documented range [0, 1] is proved for a non-negative target only. A negative `vol_target` makes the positions negative, and the code does not check for it.
- Backtest.Summarize: its own contract covers only when hit ratio, max drawdown and CAGR are NaN. The values of the statistics are stated by the `Metrics` lemmas and by `Backtest.SummaryOfIdle`.

## Findings

| source | as written | input that shows it | evidently intended | confidence | as-written member | corrected member |
|---|---|---|---|---|---|---|
| finlab/src/quantfinlab/strategies/mean_reversion.py:26-28 | zeros written on flat bars (line 27) are refilled with the previous position by the second `replace(0, ffill)` (line 28), so the rule never goes flat once it holds a position | z = [-1.5, 0.0], entry_z 1.0, exit_z 0.25: bar 1 is flat, and the result is [1, 1] | "flatten near mean" when abs(z) <= exit_z and "Keep previous position until exit" (lines 12 and 25): the result at bar 1 should be 0 | not executed | `MeanReversion.WrittenRuleIgnoresExit` | `MeanReversion.IntendedPositions` |
