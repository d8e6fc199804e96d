/** The symmetric mean-reversion rule. The z-score of the price is compared
    with two thresholds: a z-score at or below -entryZ marks a long entry, one
    at or above entryZ a short entry, and one within exitZ of 0 a flat bar.
    An undefined z-score (NaN) satisfies none of these comparisons.

    The positions are built in place, as the source does: an array of zeros,
    masked writes of the entries, a pass that replaces every 0 by the last
    non-zero value before it, masked writes of 0 on the flat bars, and the
    same replacing pass again. Because the second pass refills the zeros
    just written, the rule never returns to flat after its first entry. */
module MeanReversion {
  import opened Series
  import Features

  // ---------------------------------------------------------------------
  // The comparisons on the z-score
  // ---------------------------------------------------------------------

  /** `z <= -entry_z`; false on NaN. The long entry is the short entry of
      the mirrored z-score, and no long entry is a flat bar for an exit
      threshold below the entry threshold. */
  predicate LongAt(z: seq<Option<real>>, i: nat, entryZ: real)
    requires i < |z|
    ensures LongAt(z, i, entryZ) <==> ShortAt(Mirror(z), i, entryZ)
    ensures LongAt(z, i, entryZ) ==> forall x :: x < entryZ ==> !FlatAt(z, i, x)
  {
    z[i].Some? && z[i].value <= -entryZ
  }

  /** `z >= entry_z`; false on NaN. No short entry is a flat bar for an
      exit threshold below the entry threshold. */
  predicate ShortAt(z: seq<Option<real>>, i: nat, entryZ: real)
    requires i < |z|
    ensures ShortAt(z, i, entryZ) ==> forall x :: x < entryZ ==> !FlatAt(z, i, x)
  {
    z[i].Some? && z[i].value >= entryZ
  }

  /** `z.abs() <= exit_z`; false on NaN. A flat bar is one whose z-score
      lies in [-exitZ, exitZ]. */
  predicate FlatAt(z: seq<Option<real>>, i: nat, exitZ: real)
    requires i < |z|
    ensures FlatAt(z, i, exitZ) <==> z[i].Some? && -exitZ <= z[i].value <= exitZ
  {
    z[i].Some? && (if z[i].value < 0.0 then -z[i].value else z[i].value) <= exitZ
  }

  /** The z-score with every value negated. */
  function Mirror(z: seq<Option<real>>): (m: seq<Option<real>>)
    ensures |m| == |z|
  {
    seq(|z|, i requires 0 <= i < |z| => if z[i].Some? then Some(-z[i].value) else None)
  }

  // ---------------------------------------------------------------------
  // The specification, stage by stage
  // ---------------------------------------------------------------------

  /** The series after the masked writes of the entries: 1 on a long entry,
      -1 on a short entry (written second, so it wins), 0 elsewhere. */
  function Entries(z: seq<Option<real>>, entryZ: real): (e: seq<real>)
    ensures |e| == |z|
  {
    seq(|z|, i requires 0 <= i < |z| =>
      if ShortAt(z, i, entryZ) then -1.0 else if LongAt(z, i, entryZ) then 1.0 else 0.0)
  }

  /** The value `replace(0, method="ffill")` puts at i: the last non-zero
      value at or before i, or 0 when there is none. */
  function LastNonZero(s: seq<real>, i: nat): (v: real)
    requires i < |s|
    ensures v == 0.0 <==> forall j :: 0 <= j <= i ==> s[j] == 0.0
  {
    if s[i] != 0.0 then s[i] else if i == 0 then 0.0 else LastNonZero(s, i - 1)
  }

  /** `replace(to_replace=0.0, method="ffill").fillna(0.0)`. */
  function FillZeros(s: seq<real>): (r: seq<real>)
    ensures |r| == |s|
  {
    seq(|s|, i requires 0 <= i < |s| => LastNonZero(s, i))
  }

  /** The masked write of 0 on the flat bars. */
  function Flatten(s: seq<real>, z: seq<Option<real>>, exitZ: real): (r: seq<real>)
    requires |s| == |z|
    ensures |r| == |s|
  {
    seq(|s|, i requires 0 <= i < |s| => if FlatAt(z, i, exitZ) then 0.0 else s[i])
  }

  /** The positions the rule returns, given the z-score. */
  function Rule(z: seq<Option<real>>, entryZ: real, exitZ: real): (pos: seq<real>)
    ensures |pos| == |z|
  {
    FillZeros(Flatten(FillZeros(Entries(z, entryZ)), z, exitZ))
  }

  // ---------------------------------------------------------------------
  // The imperative rule
  // ---------------------------------------------------------------------

  /** `mean_reversion`: the z-score of the price over the window, then the
      position rule. */
  method MeanReversionOfPrice(sqrt: real -> real, price: seq<real>, window: nat, entryZ: real, exitZ: real)
    returns (pos: seq<real>)
    ensures |pos| == |price|
    ensures pos == Rule(Features.ZScore(sqrt, price, window), entryZ, exitZ)
  {
    var z := Features.ZScore(sqrt, price, window);
    pos := MeanReversion(z, entryZ, exitZ);
  }

  /** The position rule on a given z-score, built in an array as the source
      builds its series. */
  method MeanReversion(z: seq<Option<real>>, entryZ: real, exitZ: real) returns (pos: seq<real>)
    ensures pos == Rule(z, entryZ, exitZ)
  {
    var n := |z|;
    var a := new real[n](_ => 0.0);
    // pos[long_cond] = 1.0
    for i := 0 to n
      invariant forall k :: 0 <= k < i ==> a[k] == (if LongAt(z, k, entryZ) then 1.0 else 0.0)
      invariant forall k :: i <= k < n ==> a[k] == 0.0
    {
      if LongAt(z, i, entryZ) {
        a[i] := 1.0;
      }
    }
    // pos[short_cond] = -1.0
    for i := 0 to n
      invariant forall k :: 0 <= k < i ==> a[k] == Entries(z, entryZ)[k]
      invariant forall k :: i <= k < n ==> a[k] == (if LongAt(z, k, entryZ) then 1.0 else 0.0)
    {
      if ShortAt(z, i, entryZ) {
        a[i] := -1.0;
      }
    }
    assert a[..] == Entries(z, entryZ);
    ReplaceZerosForward(a);
    ghost var first := a[..];
    // pos[flat_cond] = 0.0
    for i := 0 to n
      invariant forall k :: 0 <= k < i ==> a[k] == Flatten(first, z, exitZ)[k]
      invariant forall k :: i <= k < n ==> a[k] == first[k]
    {
      if FlatAt(z, i, exitZ) {
        a[i] := 0.0;
      }
    }
    assert a[..] == Flatten(first, z, exitZ);
    ReplaceZerosForward(a);
    pos := a[..];
  }

  /** One `replace(to_replace=0.0, method="ffill")` pass, in place: each 0
      takes the last non-zero value before it; leading zeros stay 0. */
  method ReplaceZerosForward(a: array<real>)
    modifies a
    ensures a[..] == FillZeros(old(a[..]))
  {
    ghost var s := a[..];
    var last := 0.0;
    for i := 0 to a.Length
      invariant forall k :: 0 <= k < i ==> a[k] == LastNonZero(s, k)
      invariant forall k :: i <= k < a.Length ==> a[k] == s[k]
      invariant last == (if i == 0 then 0.0 else LastNonZero(s, i - 1))
    {
      if a[i] == 0.0 {
        a[i] := last;
      } else {
        last := a[i];
      }
    }
  }

  // ---------------------------------------------------------------------
  // Properties
  // ---------------------------------------------------------------------

  /** A value of the entries series is -1, 0 or 1. */
  predicate Unit(v: real)
  {
    v == -1.0 || v == 0.0 || v == 1.0
  }

  /** The entries: -1 exactly on a short entry, 1 exactly on a long entry
      that is not also a short one, 0 exactly where neither holds. */
  lemma EntriesSpec(z: seq<Option<real>>, entryZ: real, i: nat)
    requires i < |z|
    ensures Entries(z, entryZ)[i] == -1.0 <==> ShortAt(z, i, entryZ)
    ensures Entries(z, entryZ)[i] == 1.0 <==> LongAt(z, i, entryZ) && !ShortAt(z, i, entryZ)
    ensures Entries(z, entryZ)[i] == 0.0 <==> !LongAt(z, i, entryZ) && !ShortAt(z, i, entryZ)
  {
  }

  /** Filling zeros keeps every non-zero value, and a non-zero filled value
      is the most recent non-zero value. */
  lemma {:induction false} LastNonZeroSpec(s: seq<real>, i: nat)
    requires i < |s|
    ensures s[i] != 0.0 ==> LastNonZero(s, i) == s[i]
    ensures LastNonZero(s, i) != 0.0 ==>
      exists j :: 0 <= j <= i && s[j] == LastNonZero(s, i) && forall k :: j < k <= i ==> s[k] == 0.0
  {
    if s[i] == 0.0 && i > 0 {
      LastNonZeroSpec(s, i - 1);
      if LastNonZero(s, i - 1) != 0.0 {
        var j :| 0 <= j <= i - 1 && s[j] == LastNonZero(s, i - 1) && forall k :: j < k <= i - 1 ==> s[k] == 0.0;
        assert forall k :: j < k <= i ==> s[k] == 0.0;
      }
    }
  }

  /** Filling zeros only copies values of the series (or 0), so a series of
      -1, 0 and 1 stays one. */
  lemma FillZerosUnit(s: seq<real>)
    requires forall i :: 0 <= i < |s| ==> Unit(s[i])
    ensures forall i :: 0 <= i < |s| ==> Unit(FillZeros(s)[i])
  {
    forall i | 0 <= i < |s| ensures Unit(FillZeros(s)[i]) {
      LastNonZeroSpec(s, i);
    }
  }

  /** Every position is -1, 0 or 1. */
  lemma RuleUnit(z: seq<Option<real>>, entryZ: real, exitZ: real)
    ensures forall i :: 0 <= i < |z| ==> Unit(Rule(z, entryZ, exitZ)[i])
  {
    var e := Entries(z, entryZ);
    assert forall i :: 0 <= i < |e| ==> Unit(e[i]);
    FillZerosUnit(e);
    var f := Flatten(FillZeros(e), z, exitZ);
    assert forall i :: 0 <= i < |f| ==> Unit(f[i]);
    FillZerosUnit(f);
  }

  /** Once a filled series is non-zero it stays non-zero. */
  lemma FillZerosStaysNonZero(s: seq<real>, i: nat, j: nat)
    requires i <= j < |s|
    requires FillZeros(s)[i] != 0.0
    ensures FillZeros(s)[j] != 0.0
  {
    LastNonZeroSpec(s, i);
    LastNonZeroSpec(s, j);
  }

  /** Whatever the thresholds, once the rule holds a position it never
      returns to flat: the flat writes never survive the second pass. */
  lemma NeverFlatAgain(z: seq<Option<real>>, entryZ: real, exitZ: real, i: nat, j: nat)
    requires i <= j < |z|
    requires Rule(z, entryZ, exitZ)[i] != 0.0
    ensures Rule(z, entryZ, exitZ)[j] != 0.0
  {
    FillZerosStaysNonZero(Flatten(FillZeros(Entries(z, entryZ)), z, exitZ), i, j);
  }

  /** Filling the zeros again after clearing some values that were 0 before
      the first fill gives the first fill back. */
  lemma {:induction false} RefillAfterClearing(t: seq<real>, u: seq<real>, i: nat)
    requires |u| == |t| && i < |t|
    requires forall j :: 0 <= j < |t| ==> u[j] == FillZeros(t)[j] || (u[j] == 0.0 && t[j] == 0.0)
    ensures LastNonZero(u, i) == LastNonZero(t, i)
  {
    if u[i] == 0.0 && i > 0 {
      RefillAfterClearing(t, u, i - 1);
    }
  }

  /** With exitZ < entryZ no entry bar is flat, so the flat writes only clear
      bars that had no entry, and the positions are those of the first pass. */
  lemma RuleIsFirstPass(z: seq<Option<real>>, entryZ: real, exitZ: real)
    requires exitZ < entryZ
    ensures Rule(z, entryZ, exitZ) == FillZeros(Entries(z, entryZ))
  {
    var e := Entries(z, entryZ);
    var u := Flatten(FillZeros(e), z, exitZ);
    forall i | 0 <= i < |z| ensures LastNonZero(u, i) == LastNonZero(e, i) {
      RefillAfterClearing(e, u, i);
    }
  }

  /** With exitZ < entryZ the position is 0 exactly before the first entry. */
  lemma FlatOnlyBeforeFirstEntry(z: seq<Option<real>>, entryZ: real, exitZ: real, i: nat)
    requires exitZ < entryZ && i < |z|
    ensures Rule(z, entryZ, exitZ)[i] == 0.0 <==>
      forall j :: 0 <= j <= i ==> !LongAt(z, j, entryZ) && !ShortAt(z, j, entryZ)
  {
    RuleIsFirstPass(z, entryZ, exitZ);
    LastNonZeroSpec(Entries(z, entryZ), i);
    forall j | 0 <= j <= i ensures Entries(z, entryZ)[j] == 0.0 <==> !LongAt(z, j, entryZ) && !ShortAt(z, j, entryZ) {
      EntriesSpec(z, entryZ, j);
    }
  }

  /** With exitZ < entryZ an undefined z-score carries the previous
      position, and the first position is flat. */
  lemma UndefinedCarries(z: seq<Option<real>>, entryZ: real, exitZ: real, i: nat)
    requires exitZ < entryZ && i < |z| && z[i].None?
    ensures Rule(z, entryZ, exitZ)[i] == (if i == 0 then 0.0 else Rule(z, entryZ, exitZ)[i - 1])
  {
    RuleIsFirstPass(z, entryZ, exitZ);
    var e := Entries(z, entryZ);
    assert e[i] == 0.0;
    CarryOverZero(e, i);
  }

  /** Filling a 0 copies the filled value before it (0 at the start). */
  lemma CarryOverZero(s: seq<real>, i: nat)
    requires i < |s| && s[i] == 0.0
    ensures FillZeros(s)[i] == if i == 0 then 0.0 else FillZeros(s)[i - 1]
  {
  }

  /** With exitZ >= entryZ the carry fails: an entry bar can itself be flat,
      and a later bar without a z-score then picks up the entry that the
      flat write had cleared. */
  lemma WideExitBreaksCarry()
    ensures var z := [Some(-1.5), None];
      && z[1].None? && Rule(z, 1.0, 2.0) == [0.0, 1.0]
  {
    var z: seq<Option<real>> := [Some(-1.5), None];
    var e := Entries(z, 1.0);
    assert e == [1.0, 0.0];
    assert LastNonZero(e, 1) == LastNonZero(e, 0) == 1.0;
    assert FillZeros(e) == [1.0, 1.0];
    var f := Flatten(FillZeros(e), z, 2.0);
    assert f == [0.0, 1.0];
    assert LastNonZero(f, 1) == 1.0;
  }

  /** Filling zeros twice is filling them once. */
  lemma FillZerosIdempotent(s: seq<real>)
    ensures FillZeros(FillZeros(s)) == FillZeros(s)
  {
    var f := FillZeros(s);
    forall i | 0 <= i < |s| ensures LastNonZero(f, i) == f[i] {
      RefillAfterClearing(s, f, i);
    }
  }

  // ---------------------------------------------------------------------
  // The documented intent
  // ---------------------------------------------------------------------

  /** The documented rule as a state machine: an entry sets the position, a
      flat bar without an entry clears it, and any other bar keeps the
      previous position. */
  function Intended(z: seq<Option<real>>, entryZ: real, exitZ: real, i: nat): (v: real)
    requires i < |z|
    ensures Unit(v)
  {
    if ShortAt(z, i, entryZ) then -1.0
    else if LongAt(z, i, entryZ) then 1.0
    else if FlatAt(z, i, exitZ) then 0.0
    else if i == 0 then 0.0
    else Intended(z, entryZ, exitZ, i - 1)
  }

  /** For an exit threshold below the entry threshold, the documented rule
      is flat from a flat bar on, until the next entry. */
  lemma {:induction false} IntendedFlattens(z: seq<Option<real>>, entryZ: real, exitZ: real, j: nat, i: nat)
    requires exitZ < entryZ && j <= i < |z|
    requires FlatAt(z, j, exitZ)
    requires forall k :: j < k <= i ==> Entries(z, entryZ)[k] == 0.0
    ensures Intended(z, entryZ, exitZ, i) == 0.0
  {
    if i > j {
      EntriesSpec(z, entryZ, i);
      IntendedFlattens(z, entryZ, exitZ, j, i - 1);
    }
  }

  /** A non-flat position under the documented rule is the most recent
      entry, and no bar after that entry is flat or an entry. */
  lemma {:induction false} IntendedHoldsLastEntry(z: seq<Option<real>>, entryZ: real, exitZ: real, i: nat)
    requires i < |z|
    ensures Intended(z, entryZ, exitZ, i) != 0.0 ==>
      exists j :: 0 <= j <= i && Entries(z, entryZ)[j] == Intended(z, entryZ, exitZ, i) &&
        forall k :: j < k <= i ==> Entries(z, entryZ)[k] == 0.0 && !FlatAt(z, k, exitZ)
  {
    var e := Entries(z, entryZ);
    var v := Intended(z, entryZ, exitZ, i);
    if v != 0.0 {
      if ShortAt(z, i, entryZ) || LongAt(z, i, entryZ) {
        assert e[i] == v;
      } else {
        IntendedHoldsLastEntry(z, entryZ, exitZ, i - 1);
        var j :| 0 <= j <= i - 1 && e[j] == v &&
          forall k :: j < k <= i - 1 ==> e[k] == 0.0 && !FlatAt(z, k, exitZ);
        assert forall k :: j < k <= i ==> e[k] == 0.0 && !FlatAt(z, k, exitZ);
      }
    }
  }

  /** The documented rule built in an array, one bar at a time. */
  method IntendedPositions(z: seq<Option<real>>, entryZ: real, exitZ: real) returns (pos: seq<real>)
    ensures |pos| == |z|
    ensures forall i :: 0 <= i < |z| ==> pos[i] == Intended(z, entryZ, exitZ, i)
  {
    var a := new real[|z|];
    for i := 0 to |z|
      invariant forall k :: 0 <= k < i ==> a[k] == Intended(z, entryZ, exitZ, k)
    {
      if ShortAt(z, i, entryZ) {
        a[i] := -1.0;
      } else if LongAt(z, i, entryZ) {
        a[i] := 1.0;
      } else if FlatAt(z, i, exitZ) || i == 0 {
        a[i] := 0.0;
      } else {
        a[i] := a[i - 1];
      }
    }
    pos := a[..];
  }

  /** Where no bar is flat, the documented rule carries the last entry,
      exactly as the first fill does. */
  lemma {:induction false} IntendedWithoutFlat(z: seq<Option<real>>, entryZ: real, exitZ: real, i: nat)
    requires i < |z|
    requires forall j :: 0 <= j <= i ==> !FlatAt(z, j, exitZ)
    ensures Intended(z, entryZ, exitZ, i) == LastNonZero(Entries(z, entryZ), i)
  {
    if i > 0 && !LongAt(z, i, entryZ) && !ShortAt(z, i, entryZ) {
      IntendedWithoutFlat(z, entryZ, exitZ, i - 1);
    }
  }

  /** Where no bar is flat, the rule as written and the documented rule
      agree; they differ only in what a flat bar does. */
  lemma IntendedAgreesWithoutFlat(z: seq<Option<real>>, entryZ: real, exitZ: real)
    requires forall j :: 0 <= j < |z| ==> !FlatAt(z, j, exitZ)
    ensures forall i :: 0 <= i < |z| ==> Rule(z, entryZ, exitZ)[i] == Intended(z, entryZ, exitZ, i)
  {
    var e := Entries(z, entryZ);
    assert Flatten(FillZeros(e), z, exitZ) == FillZeros(e);
    FillZerosIdempotent(e);
    forall i | 0 <= i < |z| ensures Rule(z, entryZ, exitZ)[i] == Intended(z, entryZ, exitZ, i) {
      IntendedWithoutFlat(z, entryZ, exitZ, i);
    }
  }

  /** The rule as written does not flatten near the mean: after a long entry
      at z = -1.5, a bar at z = 0 is flat, yet the position stays long,
      where the documented rule is flat. */
  lemma WrittenRuleIgnoresExit()
    ensures var z := [Some(-1.5), Some(0.0)];
      && FlatAt(z, 1, 0.25)
      && Rule(z, 1.0, 0.25) == [1.0, 1.0]
      && Intended(z, 1.0, 0.25, 1) == 0.0
  {
    var z: seq<Option<real>> := [Some(-1.5), Some(0.0)];
    var e := Entries(z, 1.0);
    assert e == [1.0, 0.0];
    assert LastNonZero(e, 1) == LastNonZero(e, 0) == 1.0;
    assert FillZeros(e) == [1.0, 1.0];
    var f := Flatten(FillZeros(e), z, 0.25);
    assert f == [1.0, 0.0];
    assert LastNonZero(f, 1) == 1.0;
  }
}
