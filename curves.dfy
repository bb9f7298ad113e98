// The per-county statistics row built from the three least-squares fits
// (degrees 1, 2 and 3): `fit_best_polynomial` and `get_best_curve`.

module Curves {

  /** What the regression library hands back for one degree-k fit over the
      power basis [1, x, ..., x^k]: the intercept, one coefficient per basis
      column (k + 1 of them, the first belonging to the constant column) and
      the R^2 score of the fit. The fit itself is an input of this model. */
  datatype RegressionFit = RegressionFit(intercept: real, coef: seq<real>, score: real)

  /** A fit of degree k has one coefficient per basis column. */
  predicate FitOfDegree(fit: RegressionFit, k: nat)
  {
    |fit.coef| == k + 1
  }

  /** The fits for degrees 1, 2 and 3, in that order. */
  predicate WellFormedFits(fits: seq<RegressionFit>)
  {
    |fits| == 3 && forall p :: 0 <= p < 3 ==> FitOfDegree(fits[p], p + 1)
  }

  /** `fit_best_polynomial`: [intercept] ++ coefficients without the constant
      column's ++ [R^2], k + 2 numbers for degree k. */
  function FitStats(fit: RegressionFit, k: nat): (r: seq<real>)
    requires FitOfDegree(fit, k)
    ensures |r| == k + 2
  {
    [fit.intercept] + fit.coef[1..] + [fit.score]
  }

  /** Position of the first slot of the degree-(p+1) block in the row. */
  function BlockStart(p: nat): nat
  {
    if p == 0 then 0 else BlockStart(p - 1) + (p + 2)
  }

  /** The concatenation of the first n per-degree stats vectors. */
  function StatsPrefix(fits: seq<RegressionFit>, n: nat): (r: seq<real>)
    requires WellFormedFits(fits) && n <= 3
    ensures |r| == BlockStart(n)
    ensures forall p :: 0 <= p < n ==> r[BlockStart(p)..BlockStart(p + 1)] == FitStats(fits[p], p + 1)
  {
    if n == 0 then []
    else
      var r := StatsPrefix(fits, n - 1) + FitStats(fits[n - 1], n);
      assert r[BlockStart(n - 1)..BlockStart(n)] == FitStats(fits[n - 1], n);
      assert forall p :: 0 <= p < n - 1 ==>
        r[BlockStart(p)..BlockStart(p + 1)] == StatsPrefix(fits, n - 1)[BlockStart(p)..BlockStart(p + 1)];
      r
  }

  /** `get_best_curve`: the stats of the degree 1, 2 and 3 fits, concatenated. */
  function BestCurve(fits: seq<RegressionFit>): seq<real>
    requires WellFormedFits(fits)
  {
    StatsPrefix(fits, 3)
  }

  /** `get_best_curve` as written: appends one stats vector per degree to
      `poly_stats`, then concatenates them. */
  method GetBestCurve(fits: seq<RegressionFit>) returns (row: seq<real>)
    requires WellFormedFits(fits)
    ensures row == BestCurve(fits)
  {
    var polyStats: seq<real> := [];
    for p := 1 to 4
      invariant polyStats == StatsPrefix(fits, p - 1)
    {
      polyStats := polyStats + FitStats(fits[p - 1], p);
    }
    row := polyStats;
  }

  /** The 12-slot layout: degree 1 occupies slots 0..2, degree 2 slots 3..6,
      degree 3 slots 7..11; each block is [intercept, c_1, ..., c_k, R^2], so the
      R^2 values sit at 2, 6 and 11. */
  lemma BestCurveLayout(fits: seq<RegressionFit>)
    requires WellFormedFits(fits)
    ensures |BestCurve(fits)| == 12
    ensures BestCurve(fits)[2] == fits[0].score
    ensures BestCurve(fits)[6] == fits[1].score
    ensures BestCurve(fits)[11] == fits[2].score
    ensures BestCurve(fits)[0..2] == [fits[0].intercept] + fits[0].coef[1..]
    ensures BestCurve(fits)[3..6] == [fits[1].intercept] + fits[1].coef[1..]
    ensures BestCurve(fits)[7..11] == [fits[2].intercept] + fits[2].coef[1..]
  {
  }
}
