// Model selection and trend features of one county and one indicator:
// `get_feats` over a statistics row.

module Features {
  import opened Polynomial

  /** A feature value: a number, or the not-a-number marker the output uses
      for "no qualifying model". */
  datatype Value = Num(v: real) | NaN

  /** Outcome of model selection: the index p of the chosen degree p + 1, or none. */
  datatype Selection = NoQualifyingModel | Selected(index: nat)

  /** Positions of the R^2 values of degrees 1, 2 and 3 in a statistics row. */
  const R2Indices: seq<int> := [2, 6, 11]

  /** The evaluation years 2009 .. 2023. */
  const Years: seq<real> :=
    [2009.0, 2010.0, 2011.0, 2012.0, 2013.0, 2014.0, 2015.0, 2016.0,
     2017.0, 2018.0, 2019.0, 2020.0, 2021.0, 2022.0, 2023.0]

  /** The R^2 threshold `get_feats` is called with. */
  const DefaultCutoff: real := 0.6

  const AllNaN: seq<Value> := [NaN, NaN, NaN, NaN, NaN]

  /** Where the coefficients of degree p + 1 start: 0 for the first degree,
      else just after the previous degree's R^2. */
  function CoefStart(p: nat): (start: nat)
    requires p < 3
    ensures start < R2Indices[p] && R2Indices[p] - start == p + 2
    ensures p > 0 ==> R2Indices[p - 1] < start
  {
    if p == 0 then p else R2Indices[p - 1] + 1
  }

  /** Does the fit of degree p + 1 meet the cutoff? Equality passes. */
  predicate Qualifies(row: seq<real>, cutoff: real, p: nat)
    requires |row| >= 12 && p < 3
  {
    !(row[R2Indices[p]] < cutoff)
  }

  /** First degree index q >= p whose R^2 meets the cutoff, scanning upward. */
  function SelectFrom(row: seq<real>, cutoff: real, p: nat): (s: Selection)
    requires |row| >= 12 && p <= 3
    ensures s.Selected? ==>
      p <= s.index < 3 && Qualifies(row, cutoff, s.index) &&
      forall q :: p <= q < s.index ==> !Qualifies(row, cutoff, q)
    ensures s.NoQualifyingModel? <==> forall q :: p <= q < 3 ==> !Qualifies(row, cutoff, q)
    decreases 3 - p
  {
    if p == 3 then NoQualifyingModel
    else if row[R2Indices[p]] < cutoff then SelectFrom(row, cutoff, p + 1)
    else Selected(p)
  }

  /** The smallest degree whose R^2 reaches the cutoff. */
  function SelectDegree(row: seq<real>, cutoff: real): (s: Selection)
    requires |row| >= 12
    ensures s.Selected? ==>
      s.index < 3 && row[R2Indices[s.index]] >= cutoff &&
      forall q :: 0 <= q < s.index ==> row[R2Indices[q]] < cutoff
    ensures s.NoQualifyingModel? <==> forall q :: 0 <= q < 3 ==> row[R2Indices[q]] < cutoff
  {
    SelectFrom(row, cutoff, 0)
  }

  /** 1 when the slope is strictly positive at every year or strictly negative at
      every year, 0 otherwise. */
  function SteadyFlag(slope: seq<real>): (flag: real)
    ensures flag == 0.0 || flag == 1.0
    ensures (exists i :: 0 <= i < |slope| && slope[i] == 0.0) ==> flag == 0.0
  {
    if (forall i :: 0 <= i < |slope| ==> slope[i] > 0.0) || (forall i :: 0 <= i < |slope| ==> slope[i] < 0.0)
    then 1.0 else 0.0
  }

  function Nums(s: seq<real>): (r: seq<Value>)
    ensures |r| == |s| && forall i :: 0 <= i < |s| ==> r[i] == Num(s[i])
  {
    seq(|s|, i requires 0 <= i < |s| => Num(s[i]))
  }

  /** The values at the last two positions, `s[-2:]`. */
  function LastTwo(s: seq<real>): (r: seq<Value>)
    requires |s| >= 2
    ensures r == [Num(s[|s| - 2]), Num(s[|s| - 1])]
  {
    Nums(s[|s| - 2..])
  }

  /** Slopes at the last two years, accelerations at the last two years, and
      the steadiness flag over all years, for the selected coefficients. */
  function TrendFeats(coefs: seq<real>): (r: seq<Value>)
    ensures |r| == 5 && forall k :: 0 <= k < 5 ==> r[k].Num?
  {
    LastTwo(SlopesOver(coefs, Years)) + LastTwo(SlopesOver(DerivCoefs(coefs), Years))
      + [Num(SteadyFlag(SlopesOver(coefs, Years)))]
  }

  /** The coefficients of the degree p + 1 model, read out of the row. */
  function SelectedCoefs(row: seq<real>, p: nat): (coefs: seq<real>)
    requires |row| >= 12 && p < 3
    ensures |coefs| == p + 2
    ensures forall k :: 0 <= k < |coefs| ==> coefs[k] == row[CoefStart(p) + k] && CoefStart(p) + k !in R2Indices
  {
    row[CoefStart(p)..R2Indices[p]]
  }

  /** What `get_feats` returns for a row. */
  function FeatsOf(row: seq<real>, cutoff: real): (r: seq<Value>)
    requires |row| >= 12
    ensures |r| == 5
  {
    match SelectDegree(row, cutoff)
    case NoQualifyingModel => AllNaN
    case Selected(p) => TrendFeats(SelectedCoefs(row, p))
  }

  /** `get_feats` as written: an all-below-cutoff test, then a scan over the
      degrees that skips those below the cutoff and returns at the first one. */
  method GetFeats(row: seq<real>, cutoff: real) returns (feats: seq<Value>)
    requires |row| >= 12
    ensures feats == FeatsOf(row, cutoff)
  {
    var years := Years;
    if forall q :: 0 <= q < |R2Indices| ==> row[R2Indices[q]] < cutoff {
      return AllNaN;
    }
    var p := 0;
    while p < |R2Indices|
      invariant 0 <= p <= |R2Indices|
      invariant forall q :: 0 <= q < p ==> row[R2Indices[q]] < cutoff
      invariant SelectDegree(row, cutoff) == SelectFrom(row, cutoff, p)
    {
      var r2i := R2Indices[p];
      if row[r2i] < cutoff {
        p := p + 1;
        continue;
      }
      var coefsStart := if p == 0 then p else R2Indices[p - 1] + 1;
      var coefs := row[coefsStart..r2i];
      var slope := CalcSlope(coefs, years);
      var acc := CalcSlope(DerivCoefs(coefs), years);
      var steadySlope := [Num(SteadyFlag(slope))];
      return LastTwo(slope) + LastTwo(acc) + steadySlope;
    }
    assert false;
  }

  /** `get_feats` returns all five NaNs exactly when every R^2 is below the cutoff;
      otherwise all five values are numbers. */
  lemma AllNaNExactlyWhenNoneQualifies(row: seq<real>, cutoff: real)
    requires |row| >= 12
    ensures FeatsOf(row, cutoff) == AllNaN <==>
      row[R2Indices[0]] < cutoff && row[R2Indices[1]] < cutoff && row[R2Indices[2]] < cutoff
    ensures FeatsOf(row, cutoff) != AllNaN ==> forall k :: 0 <= k < 5 ==> FeatsOf(row, cutoff)[k].Num?
  {
  }

  /** Selection is first-match in ascending degree order: degree p + 1 is chosen
      exactly when its R^2 reaches the cutoff (equality included) and every lower
      degree's R^2 is below it. */
  lemma SelectionIsFirstMatch(row: seq<real>, cutoff: real, p: nat)
    requires |row| >= 12
    ensures SelectDegree(row, cutoff) == Selected(p) <==>
      p < 3 && row[R2Indices[p]] >= cutoff && forall q :: 0 <= q < p ==> row[R2Indices[q]] < cutoff
  {
  }

  /** The simpler model wins: once a degree qualifies, no higher degree is selected,
      whatever its R^2. */
  lemma SimplerDegreePreferred(row: seq<real>, cutoff: real, p: nat, q: nat)
    requires |row| >= 12 && p < q < 3
    requires row[R2Indices[p]] >= cutoff
    ensures SelectDegree(row, cutoff) != Selected(q)
    ensures SelectDegree(row, cutoff).Selected? && SelectDegree(row, cutoff).index <= p
  {
  }

  /** The coefficient slice of degree p + 1 starts at 0, 3 or 7, ends at that
      degree's R^2 slot, holds p + 2 numbers and covers no R^2 slot. */
  lemma SelectedSliceShape(row: seq<real>, p: nat)
    requires |row| >= 12 && p < 3
    ensures CoefStart(p) == [0, 3, 7][p]
    ensures |SelectedCoefs(row, p)| == p + 2
    ensures forall q :: 0 <= q < 3 ==> !(CoefStart(p) <= R2Indices[q] < R2Indices[p])
  {
  }

  /** Slots after the twelfth (the appended reference-year observations) do not
      change selection. */
  lemma SelectFromIgnoresExtra(row: seq<real>, extra: seq<real>, cutoff: real, p: nat)
    requires |row| >= 12 && p <= 3
    ensures SelectFrom(row + extra, cutoff, p) == SelectFrom(row, cutoff, p)
    decreases 3 - p
  {
  }

  /** `get_feats` reads only the first twelve slots. */
  lemma FeatsIgnoreExtra(row: seq<real>, extra: seq<real>, cutoff: real)
    requires |row| >= 12
    ensures FeatsOf(row + extra, cutoff) == FeatsOf(row, cutoff)
  {
    SelectFromIgnoresExtra(row, extra, cutoff, 0);
    match SelectDegree(row, cutoff)
    case NoQualifyingModel =>
    case Selected(p) =>
      assert SelectedCoefs(row + extra, p) == SelectedCoefs(row, p);
  }

  /** The steadiness flag is 0 exactly when some year's slope is not positive and
      some year's slope is not negative: a zero or a sign change anywhere forces 0. */
  lemma SteadyFlagZeroIff(slope: seq<real>)
    ensures SteadyFlag(slope) == 0.0 || SteadyFlag(slope) == 1.0
    ensures SteadyFlag(slope) == 0.0 <==>
      exists i, j :: 0 <= i < |slope| && 0 <= j < |slope| && slope[i] <= 0.0 && slope[j] >= 0.0
  {
  }

  /** A slope that rises then falls inside the range gives 0, even when the two
      reported boundary-year slopes share a sign. */
  lemma InteriorSignChangeNotSteady(coefs: seq<real>, i: nat, j: nat)
    requires i < 15 && j < 15
    requires Slope(coefs, Years[i]) > 0.0 && Slope(coefs, Years[j]) < 0.0
    ensures TrendFeats(coefs)[4] == Num(0.0)
  {
    var slope := SlopesOver(coefs, Years);
    assert slope[i] > 0.0 && slope[j] < 0.0;
  }

  /** The reported slopes and accelerations are those at 2022 and 2023. */
  lemma TrendFeatsAtLastYears(coefs: seq<real>)
    ensures TrendFeats(coefs) ==
      [Num(Slope(coefs, 2022.0)), Num(Slope(coefs, 2023.0)),
       Num(Acceleration(coefs, 2022.0)), Num(Acceleration(coefs, 2023.0)),
       Num(SteadyFlag(SlopesOver(coefs, Years)))]
  {
  }

  /** When the straight line qualifies, both slopes are its coefficient c_1, both
      accelerations 0, and the flag is 1 unless the line is flat. */
  lemma LinearModelSelected(row: seq<real>, cutoff: real)
    requires |row| >= 12 && row[R2Indices[0]] >= cutoff
    ensures FeatsOf(row, cutoff) ==
      [Num(row[1]), Num(row[1]), Num(0.0), Num(0.0), Num(if row[1] == 0.0 then 0.0 else 1.0)]
  {
    var coefs := SelectedCoefs(row, 0);
    assert coefs == row[0..2];
    TrendFeatsAtLastYears(coefs);
    LinearModel(coefs, 2022.0, 2022.0);
    LinearModel(coefs, 2023.0, 2023.0);
    var slope := SlopesOver(coefs, Years);
    forall i | 0 <= i < |slope|
      ensures slope[i] == row[1]
    {
      LinearModel(coefs, Years[i], Years[i]);
    }
    if row[1] == 0.0 {
      assert slope[0] == 0.0;
    }
  }
}
