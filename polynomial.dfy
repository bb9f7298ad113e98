// Polynomials in ascending-power coefficient form (index 0 is the intercept)
// and the analytic derivative that `calc_slope` accumulates term by term.

module Polynomial {

  /** x raised to a natural power. */
  function Pow(x: real, n: nat): real
  {
    if n == 0 then 1.0 else x * Pow(x, n - 1)
  }

  /** Value at x of the polynomial whose first n coefficients are taken:
      the sum of coefs[i] * x^i for i < n. */
  function EvalPrefix(coefs: seq<real>, n: nat, x: real): real
    requires n <= |coefs|
  {
    if n == 0 then 0.0 else EvalPrefix(coefs, n - 1, x) + coefs[n - 1] * Pow(x, n - 1)
  }

  /** Value at x of the polynomial with coefficients `coefs`. */
  function Eval(coefs: seq<real>, x: real): real
  {
    EvalPrefix(coefs, |coefs|, x)
  }

  /** Coefficients of the formal derivative, [c * i for i, c in coefs if i > 0]:
      entry i is (i + 1) * coefs[i + 1]. */
  function DerivCoefs(coefs: seq<real>): (d: seq<real>)
    ensures |d| == if |coefs| == 0 then 0 else |coefs| - 1
    ensures forall i :: 0 <= i < |d| ==> d[i] == ((i + 1) as real) * coefs[i + 1]
  {
    if |coefs| == 0 then []
    else seq(|coefs| - 1, i requires 0 <= i < |coefs| - 1 => coefs[i + 1] * ((i + 1) as real))
  }

  /** The j-th summand of the slope, j * c * x^(j-1). For j = 0 the factor j
      makes the summand 0. */
  function SlopeTerm(j: nat, c: real, x: real): real
  {
    if j == 0 then 0.0 else (j as real) * c * Pow(x, j - 1)
  }

  /** What the slope accumulator holds after the first n coefficients. */
  function SlopePrefix(coefs: seq<real>, n: nat, x: real): real
    requires n <= |coefs|
  {
    if n == 0 then 0.0 else SlopePrefix(coefs, n - 1, x) + SlopeTerm(n - 1, coefs[n - 1], x)
  }

  /** The first derivative at x, as `calc_slope` sums it: sum over j of j * c_j * x^(j-1). */
  function Slope(coefs: seq<real>, x: real): real
  {
    SlopePrefix(coefs, |coefs|, x)
  }

  /** The slope at every point of xs (`calc_slope` applied to an array of years). */
  function SlopesOver(coefs: seq<real>, xs: seq<real>): seq<real>
  {
    seq(|xs|, i requires 0 <= i < |xs| => Slope(coefs, xs[i]))
  }

  /** Acceleration as the source computes it: the slope of the derivative's coefficients. */
  function Acceleration(coefs: seq<real>, x: real): real
  {
    Slope(DerivCoefs(coefs), x)
  }

  /** The j-th summand of the second derivative, j * (j - 1) * c * x^(j-2), 0 for j < 2. */
  function SecondTerm(j: nat, c: real, x: real): real
  {
    if j < 2 then 0.0 else ((j * (j - 1)) as real) * c * Pow(x, j - 2)
  }

  /** Sum of SecondTerm over the first n coefficients. */
  function SecondPrefix(coefs: seq<real>, n: nat, x: real): real
    requires n <= |coefs|
  {
    if n == 0 then 0.0 else SecondPrefix(coefs, n - 1, x) + SecondTerm(n - 1, coefs[n - 1], x)
  }

  /** The closed-form second derivative: sum over j >= 2 of j * (j - 1) * c_j * x^(j-2). */
  function SecondDerivative(coefs: seq<real>, x: real): real
  {
    SecondPrefix(coefs, |coefs|, x)
  }

  /** `calc_slope`: starts from 0 * x and adds j * c_j * x^(j-1) for each
      coefficient, elementwise over the array xs. */
  method CalcSlope(coefs: seq<real>, xs: seq<real>) returns (slope: seq<real>)
    ensures slope == SlopesOver(coefs, xs)
  {
    slope := seq(|xs|, i => 0.0);
    for j := 0 to |coefs|
      invariant |slope| == |xs|
      invariant forall i :: 0 <= i < |xs| ==> slope[i] == SlopePrefix(coefs, j, xs[i])
    {
      var comp := seq(|xs|, i requires 0 <= i < |xs| => SlopeTerm(j, coefs[j], xs[i]));
      slope := seq(|xs|, i requires 0 <= i < |xs| => slope[i] + comp[i]);
    }
  }

  lemma {:induction false} SlopePrefixIsDerivEval(coefs: seq<real>, n: nat, x: real)
    requires 1 <= n <= |coefs|
    ensures n - 1 <= |DerivCoefs(coefs)|
    ensures SlopePrefix(coefs, n, x) == EvalPrefix(DerivCoefs(coefs), n - 1, x)
  {
    var d := DerivCoefs(coefs);
    if n > 1 {
      SlopePrefixIsDerivEval(coefs, n - 1, x);
      assert d[n - 2] == coefs[n - 1] * ((n - 1) as real);
      assert SlopeTerm(n - 1, coefs[n - 1], x) == d[n - 2] * Pow(x, n - 2);
    }
  }

  /** The slope is the value of the derivative polynomial: summing j * c_j * x^(j-1)
      term by term agrees with evaluating [i * c_i for i >= 1] at x. */
  lemma SlopeIsDerivativeValue(coefs: seq<real>, x: real)
    ensures Slope(coefs, x) == Eval(DerivCoefs(coefs), x)
  {
    if |coefs| > 0 {
      SlopePrefixIsDerivEval(coefs, |coefs|, x);
    }
  }

  lemma {:induction false} SlopeOfDerivPrefix(coefs: seq<real>, n: nat, x: real)
    requires 1 <= n <= |coefs|
    ensures n - 1 <= |DerivCoefs(coefs)|
    ensures SlopePrefix(DerivCoefs(coefs), n - 1, x) == SecondPrefix(coefs, n, x)
  {
    var d := DerivCoefs(coefs);
    if n > 1 {
      SlopeOfDerivPrefix(coefs, n - 1, x);
      var c := coefs[n - 1];
      assert d[n - 2] == c * ((n - 1) as real);
      if n - 2 > 0 {
        calc {
          SlopeTerm(n - 2, d[n - 2], x);
          ((n - 2) as real) * (c * ((n - 1) as real)) * Pow(x, n - 3);
          (((n - 1) * (n - 2)) as real) * c * Pow(x, n - 3);
          SecondTerm(n - 1, c, x);
        }
      }
    }
  }

  /** Acceleration, computed as the slope of [i * c_i for i >= 1], is the second
      derivative: the sum over j >= 2 of j * (j - 1) * c_j * x^(j-2). */
  lemma AccelerationIsSecondDerivative(coefs: seq<real>, x: real)
    ensures Acceleration(coefs, x) == SecondDerivative(coefs, x)
    ensures Acceleration(coefs, x) == Eval(DerivCoefs(DerivCoefs(coefs)), x)
  {
    if |coefs| > 0 {
      SlopeOfDerivPrefix(coefs, |coefs|, x);
    }
    SlopeIsDerivativeValue(DerivCoefs(coefs), x);
  }

  lemma {:induction false} ConstantTermPrefix(coefs: seq<real>, a: real, n: nat, x: real)
    requires 1 <= n <= |coefs|
    ensures SlopePrefix(coefs[0 := a], n, x) == SlopePrefix(coefs, n, x)
  {
    if n > 1 {
      ConstantTermPrefix(coefs, a, n - 1, x);
    }
  }

  /** The intercept contributes nothing to the slope. */
  lemma InterceptDoesNotAffectSlope(coefs: seq<real>, a: real, x: real)
    requires |coefs| > 0
    ensures Slope(coefs[0 := a], x) == Slope(coefs, x)
  {
    ConstantTermPrefix(coefs, a, |coefs|, x);
  }

  /** For a degree-1 model the slope is c_1 and the acceleration 0 at every x,
      and the slope is the exact change of the line per unit of x. */
  lemma {:induction false} LinearModel(coefs: seq<real>, x: real, y: real)
    requires |coefs| == 2
    ensures Slope(coefs, x) == coefs[1]
    ensures Acceleration(coefs, x) == 0.0
    ensures Eval(coefs, y) - Eval(coefs, x) == Slope(coefs, x) * (y - x)
  {
    assert Slope(coefs, x) == SlopePrefix(coefs, 1, x) + SlopeTerm(1, coefs[1], x);
    assert DerivCoefs(coefs) == [coefs[1]];
    assert Acceleration(coefs, x) == SlopePrefix([coefs[1]], 0, x) + SlopeTerm(0, coefs[1], x);
    assert Eval(coefs, y) == EvalPrefix(coefs, 1, y) + coefs[1] * Pow(y, 1);
    assert Eval(coefs, x) == EvalPrefix(coefs, 1, x) + coefs[1] * Pow(x, 1);
  }

  /** Closed forms for a cubic model: slope c1 + 2 c2 x + 3 c3 x^2 and
      acceleration 2 c2 + 6 c3 x. */
  lemma {:induction false} CubicModel(coefs: seq<real>, x: real)
    requires |coefs| == 4
    ensures Slope(coefs, x) == coefs[1] + 2.0 * coefs[2] * x + 3.0 * coefs[3] * x * x
    ensures Acceleration(coefs, x) == 2.0 * coefs[2] + 6.0 * coefs[3] * x
  {
    assert Pow(x, 1) == x;
    assert Pow(x, 2) == x * x;
    assert SlopePrefix(coefs, 1, x) == 0.0;
    assert SlopePrefix(coefs, 2, x) == coefs[1];
    assert SlopePrefix(coefs, 3, x) == coefs[1] + 2.0 * coefs[2] * x;
    assert SlopePrefix(coefs, 4, x) == coefs[1] + 2.0 * coefs[2] * x + 3.0 * coefs[3] * x * x;
    AccelerationIsSecondDerivative(coefs, x);
    assert SecondPrefix(coefs, 1, x) == 0.0;
    assert SecondPrefix(coefs, 2, x) == 0.0;
    assert SecondPrefix(coefs, 3, x) == 2.0 * coefs[2];
    assert SecondPrefix(coefs, 4, x) == 2.0 * coefs[2] + 6.0 * coefs[3] * x;
  }
}
