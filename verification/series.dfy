/** Series primitives shared by the feature, metric, strategy and backtest
    modules. A pandas series becomes a `seq` indexed by position; a NaN entry
    becomes `None`. Sample moments follow pandas' defaults (the standard
    deviation divides by n - 1); the square root itself is a parameter. */
module Series {

  /** A possibly missing value: pandas' NaN is `None`. */
  datatype Option<T> = None | Some(value: T)

  // ---------------------------------------------------------------------
  // Missing values
  // ---------------------------------------------------------------------

  /** `dropna`: the defined values, in their original order. */
  function DropNa(s: seq<Option<real>>): (r: seq<real>)
    ensures |r| <= |s|
    ensures forall v :: v in r <==> Some(v) in s
  {
    if s == [] then []
    else
      assert s == [s[0]] + s[1..];
      match s[0]
      case None => DropNa(s[1..])
      case Some(v) => [v] + DropNa(s[1..])
  }

  /** `dropna` keeps the defined values in their order and with their
      repeats: it distributes over concatenation, drops a single NaN and
      keeps a single value. */
  lemma {:induction false} DropNaAppend(a: seq<Option<real>>, b: seq<Option<real>>)
    ensures DropNa(a + b) == DropNa(a) + DropNa(b)
    ensures DropNa([None]) == [] && forall v :: DropNa([Some(v)]) == [v]
  {
    if a != [] {
      assert (a + b)[1..] == a[1..] + b;
      DropNaAppend(a[1..], b);
    } else {
      assert a + b == b;
    }
  }

  /** A NaN-free series seen as a series that may hold NaN. */
  function Lift(s: seq<real>): (r: seq<Option<real>>)
    ensures |r| == |s|
    ensures forall i :: 0 <= i < |s| ==> r[i] == Some(s[i])
  {
    seq(|s|, i requires 0 <= i < |s| => Some(s[i]))
  }

  /** Dropping the missing values of a series that has none gives it back. */
  lemma {:induction false} DropNaLift(s: seq<real>)
    ensures DropNa(Lift(s)) == s
  {
    if s != [] {
      assert Lift(s)[1..] == Lift(s[1..]);
      DropNaLift(s[1..]);
    }
  }

  /** `fillna(v)`: every missing entry becomes `v`. */
  function FillNa(s: seq<Option<real>>, v: real): (r: seq<real>)
    ensures |r| == |s|
    ensures forall i :: 0 <= i < |s| ==> r[i] == (if s[i].Some? then s[i].value else v)
  {
    seq(|s|, i requires 0 <= i < |s| => if s[i].Some? then s[i].value else v)
  }

  /** The value `ffill` puts at index i: the latest defined entry at or
      before i, and nothing exactly when no entry up to i is defined. */
  function LastDefined(s: seq<Option<real>>, i: nat): (r: Option<real>)
    requires i < |s|
    ensures r.None? <==> forall j :: 0 <= j <= i ==> s[j].None?
  {
    if s[i].Some? then s[i] else if i == 0 then None else LastDefined(s, i - 1)
  }

  /** `ffill`: forward fill. */
  function FFill(s: seq<Option<real>>): (r: seq<Option<real>>)
    ensures |r| == |s|
    ensures forall i :: 0 <= i < |s| && s[i].Some? ==> r[i] == s[i]
  {
    seq(|s|, i requires 0 <= i < |s| => LastDefined(s, i))
  }

  /** Forward fill yields the most recent defined value at or before i. */
  lemma {:induction false} LastDefinedIsMostRecent(s: seq<Option<real>>, i: nat)
    requires i < |s|
    ensures LastDefined(s, i).Some? ==>
      exists j :: 0 <= j <= i && s[j] == LastDefined(s, i) &&
        forall k :: j < k <= i ==> s[k].None?
  {
    if s[i].None? && i > 0 {
      LastDefinedIsMostRecent(s, i - 1);
      if LastDefined(s, i - 1).Some? {
        var j :| 0 <= j <= i - 1 && s[j] == LastDefined(s, i - 1) &&
          forall k :: j < k <= i - 1 ==> s[k].None?;
        assert forall k :: j < k <= i ==> s[k].None?;
      }
    }
  }

  /** The value `bfill` puts at index i: the earliest defined entry at or
      after i, and nothing exactly when no entry from i on is defined. */
  function NextDefined(s: seq<Option<real>>, i: nat): (r: Option<real>)
    requires i < |s|
    ensures r.None? <==> forall j :: i <= j < |s| ==> s[j].None?
    decreases |s| - i
  {
    if s[i].Some? then s[i] else if i == |s| - 1 then None else NextDefined(s, i + 1)
  }

  /** `bfill`: backward fill. */
  function BFill(s: seq<Option<real>>): (r: seq<Option<real>>)
    ensures |r| == |s|
    ensures forall i :: 0 <= i < |s| && s[i].Some? ==> r[i] == s[i]
  {
    seq(|s|, i requires 0 <= i < |s| => NextDefined(s, i))
  }

  /** Backward fill yields the earliest defined value at or after i. */
  lemma {:induction false} NextDefinedIsSoonest(s: seq<Option<real>>, i: nat)
    requires i < |s|
    decreases |s| - i
    ensures NextDefined(s, i).Some? ==>
      exists j :: i <= j < |s| && s[j] == NextDefined(s, i) &&
        forall k :: i <= k < j ==> s[k].None?
  {
    if s[i].None? && i < |s| - 1 {
      NextDefinedIsSoonest(s, i + 1);
      if NextDefined(s, i + 1).Some? {
        var j :| i + 1 <= j < |s| && s[j] == NextDefined(s, i + 1) &&
          forall k :: i + 1 <= k < j ==> s[k].None?;
        assert forall k :: i <= k < j ==> s[k].None?;
      }
    }
  }

  // ---------------------------------------------------------------------
  // Sums and moments
  // ---------------------------------------------------------------------

  function Sum(s: seq<real>): real
  {
    if s == [] then 0.0 else s[0] + Sum(s[1..])
  }

  lemma {:induction false} SumAppend(a: seq<real>, b: seq<real>)
    ensures Sum(a + b) == Sum(a) + Sum(b)
  {
    if a != [] {
      assert a + b != [] && (a + b)[0] == a[0];
      assert (a + b)[1..] == a[1..] + b;
      SumAppend(a[1..], b);
    } else {
      assert a + b == b;
    }
  }

  /** Every element equals every other. */
  predicate Constant(s: seq<real>)
  {
    forall i, j :: 0 <= i < |s| && 0 <= j < |s| ==> s[i] == s[j]
  }

  lemma {:induction false} SumConstant(s: seq<real>, c: real)
    requires forall i :: 0 <= i < |s| ==> s[i] == c
    ensures Sum(s) == |s| as real * c
  {
    if s != [] {
      SumConstant(s[1..], c);
    }
  }

  /** pandas `mean`: undefined for an empty series. */
  function Mean(s: seq<real>): (r: Option<real>)
    ensures r.None? <==> s == []
  {
    if |s| == 0 then None else Some(Sum(s) / |s| as real)
  }

  lemma MulNonNeg(x: real, y: real)
    requires x >= 0.0 && y >= 0.0
    ensures x * y >= 0.0
  {
  }

  lemma MulPos(x: real, y: real)
    requires x > 0.0 && y > 0.0
    ensures x * y > 0.0
  {
  }

  function Id(x: real): real { x }

  /** The square of x. The second factor is written `Id(x)` so that the
      solver treats the product as an ordinary product of two terms. */
  function Sq(x: real): (r: real)
    ensures r >= 0.0
    ensures x != 0.0 ==> r > 0.0
  {
    if x > 0.0 then MulPos(x, Id(x)); x * Id(x)
    else if x < 0.0 then MulPos(-x, -Id(x)); x * Id(x)
    else 0.0
  }

  /** Sum of squared deviations from m. */
  function SumSq(s: seq<real>, m: real): (r: real)
    ensures r >= 0.0
  {
    if s == [] then 0.0 else Sq(s[0] - m) + SumSq(s[1..], m)
  }

  /** The squared deviations vanish exactly when every element is m. */
  lemma {:induction false} SumSqZeroIff(s: seq<real>, m: real)
    ensures SumSq(s, m) == 0.0 <==> forall i :: 0 <= i < |s| ==> s[i] == m
  {
    if s != [] {
      SumSqZeroIff(s[1..], m);
      if SumSq(s, m) == 0.0 {
        forall i | 0 <= i < |s| ensures s[i] == m {
          if i > 0 { assert s[i] == s[1..][i - 1]; }
        }
      }
    }
  }

  /** pandas `var` (ddof = 1): undefined below two observations. */
  function Variance(s: seq<real>): (r: Option<real>)
    ensures r.None? <==> |s| < 2
    ensures r.Some? ==> r.value >= 0.0
  {
    if |s| < 2 then None
    else Some(SumSq(s, Sum(s) / |s| as real) / (|s| - 1) as real)
  }

  /** The sample variance is zero exactly when the series is constant. */
  lemma VarianceZeroIffConstant(s: seq<real>)
    requires |s| >= 2
    ensures Variance(s) == Some(0.0) <==> Constant(s)
  {
    var n := |s| as real;
    var m := Sum(s) / n;
    SumSqZeroIff(s, m);
    if Constant(s) {
      SumConstant(s, s[0]);
      assert m == s[0];
    }
    if Variance(s) == Some(0.0) {
      assert SumSq(s, m) == 0.0;
    }
  }

  /** Laws of the real square root that the model relies on. */
  ghost predicate SqrtLaw(sqrt: real -> real)
  {
    forall x :: x >= 0.0 ==> sqrt(x) >= 0.0 && (sqrt(x) == 0.0 <==> x == 0.0)
  }

  /** pandas `std` (ddof = 1), with the square root as a parameter. */
  function Std(sqrt: real -> real, s: seq<real>): (r: Option<real>)
    ensures r.None? <==> |s| < 2
  {
    match Variance(s)
    case None => None
    case Some(v) => Some(sqrt(v))
  }

  /** Under the square-root laws the standard deviation is non-negative, and
      it is zero exactly on a constant series. */
  lemma StdZeroIffConstant(sqrt: real -> real, s: seq<real>)
    requires SqrtLaw(sqrt)
    requires |s| >= 2
    ensures Std(sqrt, s).Some? && Std(sqrt, s).value >= 0.0
    ensures Std(sqrt, s) == Some(0.0) <==> Constant(s)
  {
    VarianceZeroIffConstant(s);
  }

  // ---------------------------------------------------------------------
  // Compounding and extrema
  // ---------------------------------------------------------------------

  /** The growth factor of a run of simple returns: the product of (1 + r),
      never negative while no single factor is. */
  function Compound(s: seq<real>): (g: real)
    ensures (forall k :: 0 <= k < |s| ==> 1.0 + s[k] >= 0.0) ==> g >= 0.0
  {
    if s == [] then 1.0
    else
      assert forall k :: 0 <= k < |s| - 1 ==> s[..|s| - 1][k] == s[k];
      var g, f := Compound(s[..|s| - 1]), 1.0 + s[|s| - 1];
      if g >= 0.0 && f >= 0.0 then MulNonNeg(g, f); g * f else g * f
  }

  /** Compounding one more return multiplies the growth by its factor. */
  lemma CompoundSnoc(s: seq<real>, t: nat)
    requires t < |s|
    ensures Compound(s[..t + 1]) == Compound(s[..t]) * (1.0 + s[t])
  {
    var u := s[..t + 1];
    assert u[..t] == s[..t] && u[t] == s[t];
  }

  /** If each factor of one run lies between zero and the matching factor of
      another, so does the compounded growth. */
  lemma {:induction false} CompoundMonotone(a: seq<real>, b: seq<real>)
    requires |a| == |b|
    requires forall i :: 0 <= i < |a| ==> 0.0 <= 1.0 + a[i] <= 1.0 + b[i]
    ensures 0.0 <= Compound(a) <= Compound(b)
  {
    if a != [] {
      var n := |a| - 1;
      CompoundMonotone(a[..n], b[..n]);
      var pa, pb := Compound(a[..n]), Compound(b[..n]);
      var fa, fb := 1.0 + a[n], 1.0 + b[n];
      assert forall i :: 0 <= i < n ==> a[..n][i] == a[i] && b[..n][i] == b[i];
      MulNonNeg(pb - pa, fa);
      MulNonNeg(pb, fb - fa);
      MulNonNeg(pa, fa);
    }
  }

  /** The largest element. */
  function Max(s: seq<real>): (r: real)
    requires |s| > 0
    ensures r in s
    ensures forall i :: 0 <= i < |s| ==> s[i] <= r
  {
    if |s| == 1 then s[0]
    else
      var m := Max(s[..|s| - 1]);
      assert forall i :: 0 <= i < |s| - 1 ==> s[i] == s[..|s| - 1][i];
      if s[|s| - 1] > m then s[|s| - 1] else m
  }

  /** The smallest element. */
  function Min(s: seq<real>): (r: real)
    requires |s| > 0
    ensures r in s
    ensures forall i :: 0 <= i < |s| ==> r <= s[i]
  {
    if |s| == 1 then s[0]
    else
      var m := Min(s[..|s| - 1]);
      assert forall i :: 0 <= i < |s| - 1 ==> s[i] == s[..|s| - 1][i];
      if s[|s| - 1] < m then s[|s| - 1] else m
  }

  predicate AllPositive(s: seq<real>)
  {
    forall i :: 0 <= i < |s| ==> s[i] > 0.0
  }
}
