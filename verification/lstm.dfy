/** The data preparation around the LSTM forecaster: cutting a NaN-free
    series into look-back windows with next-value targets, the minimum
    sample count for training, and the input window of a one-step forecast.
    The network, its training and float32 rounding are not modelled. */
module Lstm {
  import opened Series

  /** `train_lstm` refuses to train on fewer samples than this. */
  const MinSamples: nat := 50

  /** The number of windows a series of n values yields:
      `len(range(lookback, n))`. There is none unless the series is longer
      than a window, and then windows and look-back add up to n. */
  function SampleCount(n: nat, lookback: nat): (c: nat)
    ensures c == 0 <==> n <= lookback
    ensures c > 0 ==> c + lookback == n
  {
    if n > lookback then n - lookback else 0
  }

  /** The windows: sample k is the lookback values before index
      k + lookback. */
  function Samples(x: seq<real>, lookback: nat): (xs: seq<seq<real>>)
    ensures |xs| == SampleCount(|x|, lookback)
    ensures forall k :: 0 <= k < |xs| ==> |xs[k]| == lookback
  {
    seq(SampleCount(|x|, lookback), k requires 0 <= k < SampleCount(|x|, lookback) => x[k..k + lookback])
  }

  /** The targets: the value right after each window. */
  function Targets(x: seq<real>, lookback: nat): (ys: seq<real>)
    ensures |ys| == SampleCount(|x|, lookback)
  {
    seq(SampleCount(|x|, lookback), k requires 0 <= k < SampleCount(|x|, lookback) => x[k + lookback])
  }

  /** `_SeqDataset`: the windows and targets of a series, built by appending
      in a loop. */
  class SeqDataset {
    var X: seq<seq<real>>
    var y: seq<real>
    /** The width of every window, which is also the width of the empty
        (0, lookback) array when there is no sample. */
    const lookback: nat

    /** Every window has the width and there is one target per window. */
    predicate Valid()
      reads this
    {
      |X| == |y| && forall k :: 0 <= k < |X| ==> |X[k]| == lookback
    }

    /** `_SeqDataset.__init__`. */
    constructor (series: seq<real>, lookback: nat)
      ensures this.lookback == lookback
      ensures Valid()
      ensures X == Samples(series, lookback) && y == Targets(series, lookback)
    {
      var xs: seq<seq<real>> := [];
      var ys: seq<real> := [];
      var i := lookback;
      while i < |series|
        invariant lookback <= i && (i <= |series| || i == lookback)
        invariant |xs| == |ys| == i - lookback
        invariant forall k :: 0 <= k < |xs| ==> xs[k] == series[k..k + lookback] && ys[k] == series[k + lookback]
      {
        xs := xs + [series[i - lookback..i]];
        ys := ys + [series[i]];
        i := i + 1;
      }
      X := xs;
      y := ys;
      this.lookback := lookback;
    }

    /** `__len__`: the number of samples, one per window. */
    function Len(): (n: nat)
      requires Valid()
      reads this
      ensures n == |X|
    {
      |y|
    }
  }

  // ---------------------------------------------------------------------
  // Properties of the windowing
  // ---------------------------------------------------------------------

  /** There are max(0, n - lookback) samples; a window and its target
      together are lookback + 1 consecutive values of the series. */
  lemma SampleSpec(x: seq<real>, lookback: nat, k: nat)
    requires k < SampleCount(|x|, lookback)
    ensures |x| > lookback && SampleCount(|x|, lookback) + lookback == |x|
    ensures Samples(x, lookback)[k] + [Targets(x, lookback)[k]] == x[k..k + lookback + 1]
  {
  }

  /** Consecutive windows slide by one: the next window is this window
      without its first value, followed by this window's target. */
  lemma WindowsSlide(x: seq<real>, lookback: nat, k: nat)
    requires lookback > 0 && k + 1 < SampleCount(|x|, lookback)
    ensures Samples(x, lookback)[k + 1] == Samples(x, lookback)[k][1..] + [Targets(x, lookback)[k]]
  {
    var s := Samples(x, lookback);
    assert s[k + 1] == x[k + 1..k + 1 + lookback];
    assert s[k][1..] == x[k + 1..k + lookback];
  }

  /** No window reads past its target: the samples of a prefix of the
      series are a prefix of the samples of the whole series. */
  lemma SamplesOfPrefix(x: seq<real>, lookback: nat, m: nat)
    requires m <= |x|
    ensures SampleCount(m, lookback) <= SampleCount(|x|, lookback)
    ensures Samples(x[..m], lookback) == Samples(x, lookback)[..SampleCount(m, lookback)]
    ensures Targets(x[..m], lookback) == Targets(x, lookback)[..SampleCount(m, lookback)]
  {
    var c := SampleCount(m, lookback);
    forall k | 0 <= k < c
      ensures Samples(x[..m], lookback)[k] == Samples(x, lookback)[k]
      ensures Targets(x[..m], lookback)[k] == Targets(x, lookback)[k]
    {
      assert x[..m][k..k + lookback] == x[k..k + lookback];
    }
  }

  // ---------------------------------------------------------------------
  // The training guard and the forecast input
  // ---------------------------------------------------------------------

  datatype Result<T> = Ok(value: T) | Err(msg: string)

  /** The guard of `train_lstm`: the samples of the series after NaN removal,
      or the error raised when there are fewer than 50. */
  function TrainingSamples(series: seq<Option<real>>, lookback: nat): (r: Result<nat>)
    ensures r.Err? <==> |DropNa(series)| < lookback + MinSamples
    ensures r.Ok? ==> r.value >= MinSamples && r.value + lookback == |DropNa(series)|
  {
    var n := SampleCount(|DropNa(series)|, lookback);
    if n < MinSamples then Err("Not enough data to train LSTM.") else Ok(n)
  }

  /** `recent_series.values[-lookback:]`: the last lookback values, the whole
      series when it is shorter, and also the whole series for lookback 0
      (the slice `[-0:]` starts at 0). */
  function ForecastInput(x: seq<real>, lookback: nat): (w: seq<real>)
    ensures |w| == if lookback == 0 || lookback > |x| then |x| else lookback
    ensures w == x[|x| - |w|..]
  {
    if lookback == 0 || lookback > |x| then x else x[|x| - lookback..]
  }

  /** The forecast input is the window a dataset would hold as its last
      sample if the series were extended by the value being forecast. */
  lemma ForecastInputIsNextWindow(x: seq<real>, lookback: nat, next: real)
    requires 0 < lookback <= |x|
    ensures SampleCount(|x + [next]|, lookback) == |x| - lookback + 1
    ensures Samples(x + [next], lookback)[|x| - lookback] == ForecastInput(x, lookback)
    ensures Targets(x + [next], lookback)[|x| - lookback] == next
  {
    var k := |x| - lookback;
    assert (x + [next])[k..k + lookback] == x[k..];
  }
}
