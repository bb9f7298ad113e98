// The per-county feature table: for every county and every tracked census
// variable, the five trend features plus the last slot of the statistics row,
// and the column names that label them.

module Assembly {
  import opened Curves
  import opened Features

  /** The tracked census variables, in output order. */
  const CensusVars: seq<string> := ["B11002_003E", "B11002_012E"]

  /** Their readable names, used as column-name prefixes. */
  const Statuses: seq<string> := ["married", "unmarried"]

  /** The six feature columns of one census variable. */
  const ColNames: seq<string> :=
    ["slope_2022", "slope_2023", "acc_2022", "acc_2023", "steady_slope", "val_2022"]

  /** The year whose raw observation is appended to the statistics row. */
  const ReferenceYear: int := 2022

  /** One input row of a county: its year and the value of each census variable,
      values[cv] belonging to CensusVars[cv]. */
  datatype Observation = Observation(year: int, values: seq<real>)

  /** The grouping key of a county: display name, state code, county code. */
  datatype EntityKey = EntityKey(name: string, state: int, county: int)

  /** A county: its key, its observations, and for each census variable the
      regression fits of degrees 1, 2 and 3 over those observations. */
  datatype Entity = Entity(key: EntityKey, observations: seq<Observation>, fits: seq<seq<RegressionFit>>)

  predicate WellFormedEntity(e: Entity)
  {
    && |e.fits| == |CensusVars|
    && (forall cv :: 0 <= cv < |CensusVars| ==> WellFormedFits(e.fits[cv]))
    && (forall o :: o in e.observations ==> |o.values| == |CensusVars|)
  }

  /** The positions, from k on, of the rows of the given year (the boolean mask
      `sdf.year == year` as an index list): ascending, each a row of that year, and
      every such row at or after k listed. */
  function YearRowsFrom(obs: seq<Observation>, year: int, k: nat): (idx: seq<nat>)
    requires k <= |obs|
    ensures forall t :: 0 <= t < |idx| ==> k <= idx[t] < |obs| && obs[idx[t]].year == year
    ensures forall t, u :: 0 <= t < u < |idx| ==> idx[t] < idx[u]
    ensures forall i :: k <= i < |obs| && obs[i].year == year ==> i in idx
    decreases |obs| - k
  {
    if k == |obs| then []
    else
      var rest := YearRowsFrom(obs, year, k + 1);
      if obs[k].year == year then
        PrependSmaller(k, rest);
        [k] + rest
      else
        rest
  }

  /** Putting k in front of an ascending list of positions above k keeps it ascending. */
  lemma PrependSmaller(k: nat, s: seq<nat>)
    requires forall t, u :: 0 <= t < u < |s| ==> s[t] < s[u]
    requires forall t :: 0 <= t < |s| ==> k < s[t]
    ensures forall t, u :: 0 <= t < u < |[k] + s| ==> ([k] + s)[t] < ([k] + s)[u]
  {
    var r := [k] + s;
    forall t, u | 0 <= t < u < |r|
      ensures r[t] < r[u]
    {
      assert r[u] == s[u - 1];
      if t > 0 {
        assert r[t] == s[t - 1];
      }
    }
  }

  /** `sdf.loc[sdf.year == year, cv]`: the values of variable cv in the rows of the
      given year. Every matching row's value is in the result, and every value in
      it comes from a matching row; ValuesInYearRowOrder gives the order and count. */
  function ValuesInYear(obs: seq<Observation>, year: int, cv: nat): (r: seq<real>)
    requires forall o :: o in obs ==> cv < |o.values|
    ensures |r| <= |obs|
    ensures forall i :: 0 <= i < |obs| && obs[i].year == year ==> obs[i].values[cv] in r
    ensures forall x :: x in r ==> exists i :: 0 <= i < |obs| && obs[i].year == year && obs[i].values[cv] == x
  {
    if obs == [] then []
    else
      var rest := ValuesInYear(obs[1..], year, cv);
      assert forall i :: 1 <= i < |obs| && obs[i].year == year ==> obs[i].values[cv] in rest by {
        forall i | 1 <= i < |obs| && obs[i].year == year
          ensures obs[i].values[cv] in rest
        {
          assert obs[1..][i - 1] == obs[i];
        }
      }
      assert forall x :: x in rest ==> exists i :: 1 <= i < |obs| && obs[i].year == year && obs[i].values[cv] == x by {
        forall x | x in rest
          ensures exists i :: 1 <= i < |obs| && obs[i].year == year && obs[i].values[cv] == x
        {
          var i :| 0 <= i < |obs[1..]| && obs[1..][i].year == year && obs[1..][i].values[cv] == x;
          assert obs[i + 1] == obs[1..][i];
        }
      }
      (if obs[0].year == year then [obs[0].values[cv]] else []) + rest
  }

  /** The values selected from the rows at and after k are those of the rows of
      the given year, one per such row and in row order. */
  lemma {:induction false} ValuesInYearRowOrder(obs: seq<Observation>, year: int, cv: nat, k: nat)
    requires forall o :: o in obs ==> cv < |o.values|
    requires k <= |obs|
    ensures |ValuesInYear(obs[k..], year, cv)| == |YearRowsFrom(obs, year, k)|
    ensures forall t :: 0 <= t < |YearRowsFrom(obs, year, k)| ==>
      ValuesInYear(obs[k..], year, cv)[t] == obs[YearRowsFrom(obs, year, k)[t]].values[cv]
    decreases |obs| - k
  {
    if k < |obs| {
      ValuesInYearRowOrder(obs, year, cv, k + 1);
      assert obs[k..][1..] == obs[k + 1..];
      assert obs[k..][0] == obs[k];
      var vals := ValuesInYear(obs[k + 1..], year, cv);
      var rest := YearRowsFrom(obs, year, k + 1);
      var r := ValuesInYear(obs[k..], year, cv);
      var idx := YearRowsFrom(obs, year, k);
      if obs[k].year == year {
        assert r == [obs[k].values[cv]] + vals;
        assert idx == [k] + rest;
        forall t | 1 <= t < |idx|
          ensures r[t] == obs[idx[t]].values[cv]
        {
          assert r[t] == vals[t - 1];
          assert idx[t] == rest[t - 1];
        }
      } else {
        assert r == vals;
        assert idx == rest;
      }
    }
  }

  /** `best_curves[cv]`: the 12-slot statistics row followed by the reference-year
      observations of that variable. */
  function Curve(e: Entity, cv: nat): (bc: seq<real>)
    requires WellFormedEntity(e) && cv < |CensusVars|
    ensures |bc| >= 12
  {
    BestCurveLayout(e.fits[cv]);
    BestCurve(e.fits[cv]) + ValuesInYear(e.observations, ReferenceYear, cv)
  }

  /** `get_feats(bc)` followed by `bc[-1:]`. */
  function IndicatorFeats(bc: seq<real>): (r: seq<Value>)
    requires |bc| >= 12
    ensures |r| == 6
  {
    FeatsOf(bc, DefaultCutoff) + [Num(bc[|bc| - 1])]
  }

  /** The features of the first n census variables, concatenated. */
  function RowPrefix(e: Entity, n: nat): (r: seq<Value>)
    requires WellFormedEntity(e) && n <= |CensusVars|
    ensures |r| == 6 * n
    ensures forall cv, k :: 0 <= cv < n && 0 <= k < 6 ==> r[6 * cv + k] == IndicatorFeats(Curve(e, cv))[k]
  {
    if n == 0 then []
    else
      var prev := RowPrefix(e, n - 1);
      var r := prev + IndicatorFeats(Curve(e, n - 1));
      assert forall t :: 0 <= t < |prev| ==> r[t] == prev[t];
      r
  }

  /** The output row of a county. */
  function FeatureRow(e: Entity): seq<Value>
    requires WellFormedEntity(e)
  {
    RowPrefix(e, |CensusVars|)
  }

  /** `[a + '-' + b for a, b in product(prefixes, suffixes)]`: every prefix joined with every suffix, prefixes varying slowest. */
  function Product(prefixes: seq<string>, suffixes: seq<string>): (names: seq<string>)
    ensures forall x :: x in names ==>
      exists i, j :: 0 <= i < |prefixes| && 0 <= j < |suffixes| && x == prefixes[i] + "-" + suffixes[j]
  {
    if prefixes == [] then []
    else
      var head := seq(|suffixes|, j requires 0 <= j < |suffixes| => prefixes[0] + "-" + suffixes[j]);
      var rest := Product(prefixes[1..], suffixes);
      assert forall x :: x in rest ==>
        exists i, j :: 1 <= i < |prefixes| && 0 <= j < |suffixes| && x == prefixes[i] + "-" + suffixes[j] by {
        forall x | x in rest
          ensures exists i, j :: 1 <= i < |prefixes| && 0 <= j < |suffixes| && x == prefixes[i] + "-" + suffixes[j]
        {
          var i, j :| 0 <= i < |prefixes[1..]| && 0 <= j < |suffixes| && x == prefixes[1..][i] + "-" + suffixes[j];
          assert prefixes[i + 1] == prefixes[1..][i];
        }
      }
      head + rest
  }

  /** The output column names. */
  function ColumnNames(): (names: seq<string>)
    ensures |names| == 6 * |Statuses|
    ensures forall cv, k :: 0 <= cv < |Statuses| && 0 <= k < 6 ==>
      names[6 * cv + k] == Statuses[cv] + "-" + ColNames[k]
  {
    Product(Statuses, ColNames)
  }

  /** The body of the top-level loop for one county: for each census variable,
      the statistics row with the 2022 observations appended, `get_feats` of it
      and its last slot, concatenated. */
  method CountyRow(e: Entity) returns (curveFeats: seq<Value>)
    requires WellFormedEntity(e)
    ensures curveFeats == FeatureRow(e)
  {
    curveFeats := [];
    for cv := 0 to |CensusVars|
      invariant curveFeats == RowPrefix(e, cv)
    {
      var bestCurve := GetBestCurve(e.fits[cv]);
      BestCurveLayout(e.fits[cv]);
      var bc := bestCurve + ValuesInYear(e.observations, ReferenceYear, cv);
      CountyRowStep(e, cv, bc);
      var feats := GetFeats(bc, DefaultCutoff);
      curveFeats := curveFeats + feats + [Num(bc[|bc| - 1])];
    }
  }

  /** One census variable's step of the per-county loop appends that variable's
      six values to the row built so far. */
  lemma CountyRowStep(e: Entity, cv: nat, bc: seq<real>)
    requires WellFormedEntity(e) && cv < |CensusVars|
    requires bc == BestCurve(e.fits[cv]) + ValuesInYear(e.observations, ReferenceYear, cv)
    ensures |bc| >= 12
    ensures RowPrefix(e, cv + 1) == RowPrefix(e, cv) + FeatsOf(bc, DefaultCutoff) + [Num(bc[|bc| - 1])]
  {
    assert bc == Curve(e, cv);
  }

  /** The top-level loop: one display name and one feature row per county, in the
      order of the groups, and the column names. */
  method BuildFeatureTable(entities: seq<Entity>) returns (names: seq<string>, tsFits: seq<seq<Value>>, columns: seq<string>)
    requires forall i :: 0 <= i < |entities| ==> WellFormedEntity(entities[i])
    ensures |names| == |tsFits| == |entities|
    ensures forall i :: 0 <= i < |entities| ==> names[i] == entities[i].key.name
    ensures forall i :: 0 <= i < |entities| ==> tsFits[i] == FeatureRow(entities[i])
    ensures columns == ColumnNames()
  {
    names, tsFits := [], [];
    for i := 0 to |entities|
      invariant |names| == |tsFits| == i
      invariant forall j :: 0 <= j < i ==> names[j] == entities[j].key.name
      invariant forall j :: 0 <= j < i ==> tsFits[j] == FeatureRow(entities[j])
    {
      var e := entities[i];
      names := names + [e.key.name];
      var curveFeats := CountyRow(e);
      tsFits := tsFits + [curveFeats];
    }
    columns := ColumnNames();
  }

  lemma {:induction false} ProductAt(prefixes: seq<string>, suffixes: seq<string>, i: nat, j: nat)
    requires i < |prefixes| && j < |suffixes|
    ensures |Product(prefixes, suffixes)| == |prefixes| * |suffixes|
    ensures i * |suffixes| + j < |prefixes| * |suffixes|
    ensures Product(prefixes, suffixes)[i * |suffixes| + j] == prefixes[i] + "-" + suffixes[j]
  {
    var m := |suffixes|;
    var head := seq(m, k requires 0 <= k < m => prefixes[0] + "-" + suffixes[k]);
    var tail := Product(prefixes[1..], suffixes);
    assert Product(prefixes, suffixes) == head + tail;
    ProductLength(prefixes, suffixes);
    ProductLength(prefixes[1..], suffixes);
    IndexBound(i, j, |prefixes|, m);
    if i > 0 {
      ProductAt(prefixes[1..], suffixes, i - 1, j);
      var t := (i - 1) * m + j;
      assert i * m + j == m + t by {
        assert i * m == (i - 1) * m + m;
      }
      assert (head + tail)[m + t] == tail[t];
    }
  }

  lemma IndexBound(i: nat, j: nat, n: nat, m: nat)
    requires i < n && j < m
    ensures i * m + j < n * m
  {
    assert (i + 1) * m <= n * m;
  }

  lemma {:induction false} ProductLength(prefixes: seq<string>, suffixes: seq<string>)
    ensures |Product(prefixes, suffixes)| == |prefixes| * |suffixes|
  {
    if prefixes != [] {
      ProductLength(prefixes[1..], suffixes);
    }
  }

  /** Every row has 12 values and there are 12 column names; column 6 * cv + k is
      named "<status cv>-<feature k>" and holds feature k of census variable cv. */
  lemma RowMatchesColumns(e: Entity, cv: nat, k: nat)
    requires WellFormedEntity(e) && cv < |CensusVars| && k < 6
    ensures |FeatureRow(e)| == |ColumnNames()| == 12
    ensures FeatureRow(e)[6 * cv + k] == IndicatorFeats(Curve(e, cv))[k]
    ensures ColumnNames()[6 * cv + k] == Statuses[cv] + "-" + ColNames[k]
  {
  }

  /** The trend part of a variable's features depends only on its fits: degree
      p + 1 is selected exactly when its R^2 reaches the cutoff and the lower ones
      do not, and the coefficients read back out of the row are that fit's
      intercept and non-constant coefficients. */
  lemma SelectionReadsBackFits(e: Entity, cv: nat, p: nat)
    requires WellFormedEntity(e) && cv < |CensusVars| && p < 3
    ensures SelectDegree(Curve(e, cv), DefaultCutoff) == Selected(p) <==>
      e.fits[cv][p].score >= DefaultCutoff &&
      forall q :: 0 <= q < p ==> e.fits[cv][q].score < DefaultCutoff
    ensures SelectedCoefs(Curve(e, cv), p) == [e.fits[cv][p].intercept] + e.fits[cv][p].coef[1..]
    ensures IndicatorFeats(Curve(e, cv))[..5] == FeatsOf(BestCurve(e.fits[cv]), DefaultCutoff)
  {
    var fits := e.fits[cv];
    var extra := ValuesInYear(e.observations, ReferenceYear, cv);
    BestCurveLayout(fits);
    assert Curve(e, cv) == BestCurve(fits) + extra;
    SelectionOverFits(fits, extra, p);
    CoefsOverFits(fits, extra, p);
    FeatsIgnoreExtra(BestCurve(fits), extra, DefaultCutoff);
  }

  /** Selection over a statistics row with anything appended reads only the fits' R^2. */
  lemma SelectionOverFits(fits: seq<RegressionFit>, extra: seq<real>, p: nat)
    requires WellFormedFits(fits) && p < 3
    ensures SelectDegree(BestCurve(fits) + extra, DefaultCutoff) == Selected(p) <==>
      fits[p].score >= DefaultCutoff && forall q :: 0 <= q < p ==> fits[q].score < DefaultCutoff
  {
    var row := BestCurve(fits);
    BestCurveLayout(fits);
    SelectFromIgnoresExtra(row, extra, DefaultCutoff, 0);
    SelectionIsFirstMatch(row, DefaultCutoff, p);
    assert row[R2Indices[0]] == fits[0].score;
    assert row[R2Indices[1]] == fits[1].score;
    assert row[R2Indices[2]] == fits[2].score;
  }

  /** The coefficient slice read from a statistics row with anything appended is
      the selected fit's intercept followed by its non-constant coefficients. */
  lemma CoefsOverFits(fits: seq<RegressionFit>, extra: seq<real>, p: nat)
    requires WellFormedFits(fits) && p < 3
    ensures SelectedCoefs(BestCurve(fits) + extra, p) == [fits[p].intercept] + fits[p].coef[1..]
  {
    var row := BestCurve(fits);
    BestCurveLayout(fits);
    assert SelectedCoefs(row + extra, p) == (row + extra)[CoefStart(p)..R2Indices[p]];
    assert (row + extra)[CoefStart(p)..R2Indices[p]] == row[CoefStart(p)..R2Indices[p]];
    if p == 0 {
      assert row[CoefStart(p)..R2Indices[p]] == row[0..2];
    } else if p == 1 {
      assert row[CoefStart(p)..R2Indices[p]] == row[3..6];
    } else {
      assert row[CoefStart(p)..R2Indices[p]] == row[7..11];
    }
  }

  lemma {:induction false} SingleYearValue(obs: seq<Observation>, year: int, cv: nat, k: nat)
    requires forall o :: o in obs ==> cv < |o.values|
    requires k < |obs| && obs[k].year == year
    requires forall i :: 0 <= i < |obs| && i != k ==> obs[i].year != year
    ensures ValuesInYear(obs, year, cv) == [obs[k].values[cv]]
  {
    if k == 0 {
      NoYearValue(obs[1..], year, cv);
    } else {
      SingleYearValue(obs[1..], year, cv, k - 1);
    }
  }

  lemma {:induction false} NoYearValue(obs: seq<Observation>, year: int, cv: nat)
    requires forall o :: o in obs ==> cv < |o.values|
    requires forall i :: 0 <= i < |obs| ==> obs[i].year != year
    ensures ValuesInYear(obs, year, cv) == []
  {
    if obs != [] {
      NoYearValue(obs[1..], year, cv);
    }
  }

  /** The sixth value of a variable is its 2022 observation when the county has
      exactly one 2022 row. */
  lemma ReferenceValueSlot(e: Entity, cv: nat, k: nat)
    requires WellFormedEntity(e) && cv < |CensusVars|
    requires k < |e.observations| && e.observations[k].year == ReferenceYear
    requires forall i :: 0 <= i < |e.observations| && i != k ==> e.observations[i].year != ReferenceYear
    ensures IndicatorFeats(Curve(e, cv))[5] == Num(e.observations[k].values[cv])
  {
    SingleYearValue(e.observations, ReferenceYear, cv, k);
  }

  /** When several rows have the given year, the last value selected is that of the
      last of them. */
  lemma {:induction false} LastYearValue(obs: seq<Observation>, year: int, cv: nat, k: nat)
    requires forall o :: o in obs ==> cv < |o.values|
    requires k < |obs| && obs[k].year == year
    requires forall i :: k < i < |obs| ==> obs[i].year != year
    ensures |ValuesInYear(obs, year, cv)| > 0
    ensures ValuesInYear(obs, year, cv)[|ValuesInYear(obs, year, cv)| - 1] == obs[k].values[cv]
  {
    var rest := ValuesInYear(obs[1..], year, cv);
    if k == 0 {
      NoYearValue(obs[1..], year, cv);
    } else {
      LastYearValue(obs[1..], year, cv, k - 1);
      var r := ValuesInYear(obs, year, cv);
      assert r[|r| - 1] == rest[|rest| - 1];
    }
  }

  /** The sixth value of a variable is the observation of the county's last 2022
      row, whatever the earlier 2022 rows hold. */
  lemma LastReferenceValueSlot(e: Entity, cv: nat, k: nat)
    requires WellFormedEntity(e) && cv < |CensusVars|
    requires k < |e.observations| && e.observations[k].year == ReferenceYear
    requires forall i :: k < i < |e.observations| ==> e.observations[i].year != ReferenceYear
    ensures IndicatorFeats(Curve(e, cv))[5] == Num(e.observations[k].values[cv])
  {
    LastYearValue(e.observations, ReferenceYear, cv, k);
  }

  /** With no 2022 row, the sixth value is the degree-3 R^2 that ends the
      statistics row, not NaN. */
  lemma MissingReferenceValueSlot(e: Entity, cv: nat)
    requires WellFormedEntity(e) && cv < |CensusVars|
    requires forall i :: 0 <= i < |e.observations| ==> e.observations[i].year != ReferenceYear
    ensures IndicatorFeats(Curve(e, cv))[5] == Num(e.fits[cv][2].score)
  {
    BestCurveLayout(e.fits[cv]);
    NoYearValue(e.observations, ReferenceYear, cv);
  }

  /** A county whose straight-line fit of a variable qualifies and that has one
      2022 row gets, for that variable: the line's slope twice, zero acceleration
      twice, steadiness 1 unless the line is flat, and the 2022 observation. */
  lemma LinearCountyFeatures(e: Entity, cv: nat, k: nat)
    requires WellFormedEntity(e) && cv < |CensusVars|
    requires e.fits[cv][0].score >= DefaultCutoff
    requires k < |e.observations| && e.observations[k].year == ReferenceYear
    requires forall i :: 0 <= i < |e.observations| && i != k ==> e.observations[i].year != ReferenceYear
    ensures var c1 := e.fits[cv][0].coef[1];
      IndicatorFeats(Curve(e, cv)) ==
        [Num(c1), Num(c1), Num(0.0), Num(0.0), Num(if c1 == 0.0 then 0.0 else 1.0),
         Num(e.observations[k].values[cv])]
  {
    var bc := Curve(e, cv);
    BestCurveLayout(e.fits[cv]);
    assert bc[1] == e.fits[cv][0].coef[1];
    LinearModelSelected(bc, DefaultCutoff);
    ReferenceValueSlot(e, cv, k);
  }
}
