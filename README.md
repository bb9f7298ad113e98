# County household trend features, modelled in Dafny

This project models the trend-feature derivation of `python/ts_feat_gen.py`.
For each county and each tracked census variable (married and unmarried
household counts), the script does the following:

- It fits polynomials of degree 1, 2 and 3 to the yearly counts.
- It lays the fits out in one 12-slot statistics row: `[intercept, c_1, …, c_k, R²]` per degree.
- It selects the smallest degree whose R² reaches 0.6.
- It derives four values from the selected polynomial at 2022 and 2023: the analytic slope twice and the acceleration twice.
- It adds a steadiness flag over the years 2009–2023, then appends the last slot of the row. That slot holds the county's last 2022 observation, or the degree-3 R² when the county has no 2022 row.

It emits one row of 12 values per county, under the 12 column names built with `product`.

Files, one module each:

- `polynomial.dfy` (`Polynomial`): the polynomial's value, the derivative
  coefficient list `[c * i for i ≥ 1]`, the slope sum `calc_slope`
  accumulates (as a method with its loop, and as a function), acceleration,
  and the closed-form first and second derivatives they are proved equal to.
- `curves.dfy` (`Curves`): the regression result of one degree (an input),
  `fit_best_polynomial`'s `[intercept] ++ coefs ++ [R²]` vector, and
  `get_best_curve`'s loop with the 12-slot layout proved about it.
- `features.dfy` (`Features`): `get_feats`. It holds the first-match degree selection,
  the coefficient slice, the five trend values and the steadiness flag. `get_feats`
  is a method with its scan loop, proved equal to a specification function.
- `assembly.dfy` (`Assembly`): the top-level loop over county groups. It covers the
  reference-year observations, the 6-value block per variable, the 12-value row and
  the column names.

Numbers are exact reals, and the not-a-number output is the constructor `NaN` of `Features.Value`.

Behaviour reproduced from the code, which a reader might not expect:

- A county with no 2022 row gets the degree-3 R² in its `val_2022` column, because the code takes `bc[-1:]`. It does not get NaN.
- A county with several 2022 rows gets the value of the last of them (`Assembly.LastReferenceValueSlot`).
- Degenerate fits (too few years) are not detected. They reach selection with whatever R² the regression library reports.
- The year range, cutoff, maximum degree and reference year are constants, as in the code.

## Model

| member | source | states |
|---|---|---|
| `Curves.FitStats` | python/ts_feat_gen.py:40-44 | the stats vector of a degree-k fit has k + 2 numbers: intercept, the k non-constant coefficients, R² |
| `Curves.StatsPrefix` | python/ts_feat_gen.py:50-52 | concatenating the first n stats vectors puts block p exactly at slots BlockStart(p)..BlockStart(p+1) |
| `Curves.GetBestCurve` | python/ts_feat_gen.py:46-53 | the append loop over degrees 1..3 produces the concatenated statistics row |
| `Curves.BestCurveLayout` | python/ts_feat_gen.py:40-52 | the row has 12 slots, the R² of degrees 1, 2, 3 at 2, 6, 11, and each degree's intercept and coefficients at 0..2, 3..6, 7..11 |
| `Polynomial.CalcSlope` | python/ts_feat_gen.py:61-68 | the accumulation loop yields, at every x, the sum of j·c_j·x^(j−1) |
| `Polynomial.DerivCoefs` | python/ts_feat_gen.py:83 | the derivative list has one entry fewer than the coefficients (none for an empty list), entry i being (i+1)·c_(i+1) |
| `Polynomial.SlopeIsDerivativeValue` | python/ts_feat_gen.py:61-68 | that slope equals the value at x of the derivative polynomial [i·c_i for i ≥ 1] |
| `Polynomial.InterceptDoesNotAffectSlope` | python/ts_feat_gen.py:64-66 | the constant term contributes nothing: changing c_0 leaves the slope unchanged |
| `Polynomial.AccelerationIsSecondDerivative` | python/ts_feat_gen.py:83-84 | calc_slope of [i·c_i for i ≥ 1] equals the sum of j(j−1)·c_j·x^(j−2), and the value of the twice-differentiated polynomial |
| `Polynomial.LinearModel` | python/ts_feat_gen.py:61-68 | for a degree-1 model the slope is c_1 and the acceleration 0 at every x, and the slope is the line's exact change per unit step |
| `Polynomial.CubicModel` | python/ts_feat_gen.py:81-84 | for a cubic the slope is c1 + 2c2·x + 3c3·x² and the acceleration 2c2 + 6c3·x |
| `Features.SelectFrom` | python/ts_feat_gen.py:75-77 | the scan returns the first index at or after p whose R² is not below the cutoff, or none exactly when all are below |
| `Features.SelectDegree` | python/ts_feat_gen.py:73-77 | a selected index is below 3, its R² reaches the cutoff and every lower degree's R² is below it; no model qualifies exactly when all three R² are below the cutoff |
| `Features.CoefStart` | python/ts_feat_gen.py:78 | degree p+1's slice starts past the previous R² slot and exactly p + 2 slots before its own R² slot |
| `Features.SelectedCoefs` | python/ts_feat_gen.py:78-80 | the slice holds p + 2 numbers, entry k being the row's slot CoefStart(p) + k, never an R² slot |
| `Features.SteadyFlag` | python/ts_feat_gen.py:85 | the flag is 0 or 1, and a zero slope in any year forces 0 |
| `Features.LastTwo` | python/ts_feat_gen.py:87 | `[-2:]` yields the second-to-last and the last value, in that order, as numbers |
| `Features.TrendFeats` | python/ts_feat_gen.py:81-87 | a selected model always yields five numbers (no NaN) |
| `Features.FeatsOf` | python/ts_feat_gen.py:73-87 | get_feats always returns exactly five values |
| `Features.GetFeats` | python/ts_feat_gen.py:70-87 | the all-below test and the skip-and-return scan compute the specified five features |
| `Features.AllNaNExactlyWhenNoneQualifies` | python/ts_feat_gen.py:73-74 | all five values are NaN if and only if the R² at 2, 6 and 11 are all below the cutoff; otherwise none is NaN |
| `Features.SelectionIsFirstMatch` | python/ts_feat_gen.py:75-77 | degree p+1 is selected iff its R² ≥ cutoff (equality passes) and every lower degree's R² is below the cutoff |
| `Features.SimplerDegreePreferred` | python/ts_feat_gen.py:75-87 | once degree p+1 qualifies, no higher degree is selected, whatever its R² |
| `Features.SelectedSliceShape` | python/ts_feat_gen.py:78-80 | degree p+1's slice starts at 0, 3 or 7, holds p + 2 coefficients and covers no R² slot |
| `Features.FeatsIgnoreExtra` | python/ts_feat_gen.py:71-80 | slots after the twelfth (the appended observations) do not change the features |
| `Features.SteadyFlagZeroIff` | python/ts_feat_gen.py:85 | the flag is 0 or 1, and 0 exactly when some year's slope is ≤ 0 and some year's slope is ≥ 0 |
| `Features.InteriorSignChangeNotSteady` | python/ts_feat_gen.py:85 | a positive slope at one year and a negative one at another force the flag to 0, whatever the boundary years show |
| `Features.TrendFeatsAtLastYears` | python/ts_feat_gen.py:81-87 | the reported values are the slope at 2022 and 2023, the acceleration at 2022 and 2023, then the flag over 2009..2023 |
| `Features.LinearModelSelected` | python/ts_feat_gen.py:73-87 | when degree 1 qualifies the features are c_1, c_1, 0, 0 and the flag 1 (0 if c_1 = 0) |
| `Assembly.Curve` | python/ts_feat_gen.py:99-101 | each variable's row is the 12-slot statistics row followed by its 2022 observations, so at least 12 slots |
| `Assembly.ValuesInYear` | python/ts_feat_gen.py:99-101 | every 2022 row's value for the variable is in the result, every value in it comes from a 2022 row, and there are at most as many values as rows |
| `Assembly.YearRowsFrom` | python/ts_feat_gen.py:99 | the mask `sdf.year == 2022` as a list of row positions from k on: ascending, each a 2022 row, every 2022 row at or after k listed |
| `Assembly.ValuesInYearRowOrder` | python/ts_feat_gen.py:99-101 | `sdf.loc[is_22, cv]` has one value per 2022 row, in row order: value t is that of the t-th 2022 row |
| `Assembly.LastYearValue` | python/ts_feat_gen.py:99-102 | when row k has the year and no later row does, the selected values are non-empty and the last of them is row k's value |
| `Assembly.IndicatorFeats` | python/ts_feat_gen.py:102 | each variable contributes 6 values |
| `Assembly.RowPrefix` | python/ts_feat_gen.py:102-103 | the concatenated blocks put feature k of variable cv at position 6·cv + k |
| `Assembly.CountyRow` | python/ts_feat_gen.py:98-103 | the per-county loop over census variables (fit row, 2022 observations appended, get_feats, last slot) produces that county's specified 12-value row |
| `Assembly.CountyRowStep` | python/ts_feat_gen.py:100-103 | one census variable's pass of the loop appends get_feats of its curve and the curve's last slot, i.e. its six values, to the row built so far |
| `Assembly.BuildFeatureTable` | python/ts_feat_gen.py:91-109 | one display name and one feature row per county group, in group order, and the product column names |
| `Assembly.ProductAt` | python/ts_feat_gen.py:108 | the product of n prefixes and m suffixes has n·m names, name i·m + j being prefix i, "-", suffix j |
| `Assembly.ProductLength` | python/ts_feat_gen.py:108 | the product of n prefixes and m suffixes has n·m names |
| `Assembly.Product` | python/ts_feat_gen.py:108 | every name produced is some prefix, "-", then some suffix |
| `Assembly.ColumnNames` | python/ts_feat_gen.py:107-109 | 12 names, name 6·cv + k being status cv (married, unmarried), "-", feature column k |
| `Assembly.RowMatchesColumns` | python/ts_feat_gen.py:100-109 | every row has 12 values and there are 12 names; position 6·cv + k holds feature k of variable cv under the name "<status>-<feature>" |
| `Assembly.SelectionReadsBackFits` | python/ts_feat_gen.py:100-102 | selection depends only on the fits' R², and the coefficients read back are exactly the selected fit's intercept and non-constant coefficients |
| `Assembly.SelectionOverFits` | python/ts_feat_gen.py:73-77 | over a statistics row with any values appended, degree p+1 is selected iff its fit's R² reaches 0.6 and every lower degree's R² is below 0.6 |
| `Assembly.CoefsOverFits` | python/ts_feat_gen.py:78-80 | the slice read back for degree p+1 from a statistics row with any values appended is that fit's intercept followed by its non-constant coefficients |
| `Assembly.SingleYearValue` | python/ts_feat_gen.py:99-101 | with exactly one 2022 row, the selected observations are that row's value |
| `Assembly.NoYearValue` | python/ts_feat_gen.py:99-101 | with no 2022 row, no observation is appended |
| `Assembly.ReferenceValueSlot` | python/ts_feat_gen.py:99-102 | the sixth value of a variable is its 2022 observation when the county has exactly one 2022 row |
| `Assembly.LastReferenceValueSlot` | python/ts_feat_gen.py:99-102 | the sixth value of a variable is the observation of the county's last 2022 row, whatever earlier 2022 rows hold |
| `Assembly.MissingReferenceValueSlot` | python/ts_feat_gen.py:99-102 | with no 2022 row the sixth value is the degree-3 R², not NaN |
| `Assembly.LinearCountyFeatures` | python/ts_feat_gen.py:96-103 | a county whose line qualifies gets slope c_1 twice, acceleration 0 twice, flag 1 unless flat, and its 2022 observation |

## Left out

- The least-squares fit (`PolynomialFeatures`, `LinearRegression.fit` and `score`, python/ts_feat_gen.py:35-38, 42) is a foreign numerical library call. Each fit is an input, `Curves.RegressionFit`: the intercept, one coefficient per basis column and the R² score. Only the layout the script builds from it is modelled.
- Reading and writing CSV files, the pandas `groupby` and `loc` slicing, and the DataFrame index are file I/O and library plumbing. The counties arrive as a sequence in group order, each with its observations and fits. The table is returned as names, rows and column names.
- IEEE floating point is not modelled. Values are exact reals, so NaN inputs are absent: a NaN R² would pass selection in the source, since `NaN < cutoff` is false. Rounding in `np.power` is absent too.
- Polynomial.SlopeTerm: the j = 0 summand is 0. In the source it is `0 * c * x**-1`, which is NaN at x = 0. The source only evaluates at the years 2009–2023, never at 0.
- The fall-through after the scan loop of `get_feats`, where the source would return `None`, is unreachable because of the all-below test. The model proves it unreachable.
- `python/ingest_census.py` (Census API requests, shapefile reading, the merge and the CSV write) is I/O with no modelled logic.
- The unused plotting imports are not modelled.
