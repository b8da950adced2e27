/**
 * The source's `polynomialRegression`: fit a polynomial of a given degree to
 * points by building the design matrix X (row i holds x_i^0 .. x_i^degree),
 * forming the normal equations XᵀX·β == Xᵀy with `transpose` and `multiply`,
 * and handing them to `solve`.
 */
module Regression {
  import opened Matrices
  import opened Elimination
  import Solver

  /** A sample point `{ x, y }`. */
  datatype Point = Point(x: real, y: real)

  /** x^d for a natural exponent; stands in for `Math.pow(x, d)` (so x^0 == 1, also for x == 0). */
  function Pow(x: real, d: nat): (r: real)
    ensures d == 0 ==> r == 1.0
    ensures x == 0.0 && d > 0 ==> r == 0.0
  {
    if d == 0 then 1.0 else Pow(x, d - 1) * x
  }

  lemma {:induction false} PowAdd(x: real, d: nat, e: nat)
    ensures Pow(x, d + e) == Pow(x, d) * Pow(x, e)
  {
    if e > 0 {
      PowAdd(x, d, e - 1);
      PowStep(x, d + e);
      PowStep(x, e);
      MulAssociates(Pow(x, d), Pow(x, e - 1), x);
    }
  }

  /** One unfolding of Pow. */
  lemma PowStep(x: real, d: nat)
    requires d > 0
    ensures Pow(x, d) == Pow(x, d - 1) * x
  {
  }

  /** Associativity of *, kept apart so the solver meets it without Pow in sight. */
  lemma MulAssociates(a: real, b: real, c: real)
    ensures (a * b) * c == a * (b * c)
  {
  }

  // ----- Specification of the pieces -----

  /** [x^0, x^1, .., x^(k-1)]. */
  function Powers(x: real, k: nat): (row: Vector)
    ensures |row| == k
  {
    seq(k, d requires 0 <= d < k => Pow(x, d))
  }

  /** The design matrix: one row of powers per point. */
  function Design(points: seq<Point>, degree: nat): (X: Matrix)
    ensures IsMatrix(X, |points|, degree + 1)
  {
    seq(|points|, i requires 0 <= i < |points| => Powers(points[i].x, degree + 1))
  }

  /** The targets as an n×1 column matrix (`points.map(p => [p.y])`). */
  function Targets(points: seq<Point>): (Y: Matrix)
    ensures IsMatrix(Y, |points|, 1)
  {
    seq(|points|, i requires 0 <= i < |points| => [points[i].y])
  }

  /** The targets as a vector. */
  function Ys(points: seq<Point>): (ys: Vector)
    ensures |ys| == |points|
  {
    seq(|points|, i requires 0 <= i < |points| => points[i].y)
  }

  /** The left-hand side of the normal equations, XᵀX. */
  function NormalMatrix(points: seq<Point>, degree: nat): (G: Matrix)
    requires |points| >= 1
    ensures IsMatrix(G, degree + 1, degree + 1)
  {
    var X := Design(points, degree);
    MatMul(Transpose(X), X)
  }

  /** The right-hand side of the normal equations, Xᵀy flattened to a vector. */
  function NormalVector(points: seq<Point>, degree: nat): (h: Vector)
    requires |points| >= 1
    ensures |h| == degree + 1
  {
    var X := Design(points, degree);
    Column(MatMul(Transpose(X), Targets(points)), 0)
  }

  /** What elimination does with the normal equations. */
  function Fit(points: seq<Point>, degree: nat): (o: Outcome)
    requires |points| >= 1
    ensures o.Reduced? ==> Working(o.reduced) && |o.reduced| == degree + 1
    ensures o.Singular? ==> o.step <= degree
  {
    Reduce(Augment(NormalMatrix(points, degree), NormalVector(points, degree)), 0)
  }

  /** The polynomial with coefficients c (constant term first) at x. */
  function Eval(c: Vector, x: real): real {
    Dot(Powers(x, |c|), c, |c|)
  }

  /** Σ_{i<k} x_i^e. */
  function PowerSum(points: seq<Point>, e: nat, k: nat): real
    requires k <= |points|
  {
    if k == 0 then 0.0 else PowerSum(points, e, k - 1) + Pow(points[k - 1].x, e)
  }

  /** Σ_{i<k} x_i^d · y_i. */
  function Moment(points: seq<Point>, d: nat, k: nat): real
    requires k <= |points|
  {
    if k == 0 then 0.0 else Moment(points, d, k - 1) + Pow(points[k - 1].x, d) * points[k - 1].y
  }

  /** The residuals y_i - p(x_i) of the polynomial with coefficients c. */
  function Residuals(points: seq<Point>, c: Vector): (r: Vector)
    ensures |r| == |points|
    ensures forall i :: 0 <= i < |points| ==> r[i] == points[i].y - Eval(c, points[i].x)
  {
    seq(|points|, i requires 0 <= i < |points| => points[i].y - Eval(c, points[i].x))
  }

  /** The sum of squared residuals, the quantity least squares minimises. */
  function SquaredError(points: seq<Point>, c: Vector): real {
    var r := Residuals(points, c);
    Dot(r, r, |r|)
  }

  // ----- The source's computation -----

  /** One row of the design matrix, pushed one power at a time (`row.push(Math.pow(p.x, d))`). */
  method PowerRow(x: real, degree: nat) returns (row: Vector)
    ensures |row| == degree + 1
    ensures forall d :: 0 <= d <= degree ==> row[d] == Pow(x, d)
    ensures row == Powers(x, degree + 1)
  {
    row := [];
    for d := 0 to degree + 1
      invariant |row| == d
      invariant forall t :: 0 <= t < d ==> row[t] == Pow(x, t)
    {
      row := row + [Pow(x, d)];
    }
  }

  /** X = `points.map(...)`, each row built by PowerRow. */
  method DesignMatrix(points: seq<Point>, degree: nat) returns (X: Matrix)
    ensures IsMatrix(X, |points|, degree + 1)
    ensures forall i, d :: 0 <= i < |points| && 0 <= d <= degree ==> X[i][d] == Pow(points[i].x, d)
    ensures X == Design(points, degree)
  {
    X := [];
    for i := 0 to |points|
      invariant |X| == i
      invariant forall k :: 0 <= k < i ==> X[k] == Powers(points[k].x, degree + 1)
    {
      var row := PowerRow(points[i].x, degree);
      X := X + [row];
    }
  }

  /**
   * The source's `polynomialRegression(points, degree)`. The result always
   * has degree + 1 entries. It is all zeros when elimination meets a pivot
   * below Epsilon. Otherwise it solves the normal equations XᵀX·β == Xᵀy.
   */
  method PolynomialRegression(points: seq<Point>, degree: nat) returns (coeffs: Vector)
    requires |points| >= 1
    ensures |coeffs| == degree + 1
    ensures Fit(points, degree).Singular? ==> coeffs == Zeros(degree + 1)
    ensures Fit(points, degree).Reduced? ==>
      coeffs == Solution(Fit(points, degree).reduced) &&
      MatVec(NormalMatrix(points, degree), coeffs) == NormalVector(points, degree)
  {
    var X := DesignMatrix(points, degree);
    var y := Targets(points);
    var XT := Transpose(X);
    var XTX := Multiply(XT, X);
    var XTyColumn := Multiply(XT, y);
    var XTy := Column(XTyColumn, 0);
    coeffs := Solver.Solve(XTX, XTy);
  }

  // ----- Properties of the normal equations -----

  lemma {:induction false} DotOfPowers(u: Vector, v: Vector, points: seq<Point>, d: nat, e: nat, k: nat)
    requires k <= |u| && k <= |v| && k <= |points|
    requires forall i :: 0 <= i < k ==> u[i] == Pow(points[i].x, d) && v[i] == Pow(points[i].x, e)
    ensures Dot(u, v, k) == PowerSum(points, d + e, k)
  {
    if k > 0 {
      DotOfPowers(u, v, points, d, e, k - 1);
      PowAdd(points[k - 1].x, d, e);
    }
  }

  /** XᵀX is (degree+1)×(degree+1), entry (d, e) is Σ_i x_i^(d+e), hence it is symmetric. */
  lemma {:induction false} NormalMatrixEntries(points: seq<Point>, degree: nat)
    requires |points| >= 1
    ensures IsMatrix(NormalMatrix(points, degree), degree + 1, degree + 1)
    ensures forall d, e :: 0 <= d <= degree && 0 <= e <= degree ==>
      NormalMatrix(points, degree)[d][e] == PowerSum(points, d + e, |points|)
    ensures forall d, e :: 0 <= d <= degree && 0 <= e <= degree ==>
      NormalMatrix(points, degree)[d][e] == NormalMatrix(points, degree)[e][d]
  {
    var X := Design(points, degree);
    var G := NormalMatrix(points, degree);
    forall d, e | 0 <= d <= degree && 0 <= e <= degree
      ensures G[d][e] == PowerSum(points, d + e, |points|)
    {
      DotOfPowers(Transpose(X)[d], Column(X, e), points, d, e, |points|);
    }
    forall d, e | 0 <= d <= degree && 0 <= e <= degree ensures G[d][e] == G[e][d] {
      assert d + e == e + d;
    }
  }

  lemma {:induction false} DotOfMoment(u: Vector, v: Vector, points: seq<Point>, d: nat, k: nat)
    requires k <= |u| && k <= |v| && k <= |points|
    requires forall i :: 0 <= i < k ==> u[i] == Pow(points[i].x, d) && v[i] == points[i].y
    ensures Dot(u, v, k) == Moment(points, d, k)
  {
    if k > 0 { DotOfMoment(u, v, points, d, k - 1); }
  }

  /** Xᵀy has degree + 1 entries, entry d being Σ_i x_i^d · y_i, and it is Xᵀ applied to the targets. */
  lemma {:induction false} NormalVectorEntries(points: seq<Point>, degree: nat)
    requires |points| >= 1
    ensures forall d :: 0 <= d <= degree ==> NormalVector(points, degree)[d] == Moment(points, d, |points|)
    ensures NormalVector(points, degree) == MatVec(Transpose(Design(points, degree)), Ys(points))
  {
    var X := Design(points, degree);
    var XT := Transpose(X);
    var h := NormalVector(points, degree);
    assert Column(Targets(points), 0) == Ys(points);
    forall d | 0 <= d <= degree ensures h[d] == Moment(points, d, |points|) {
      DotOfMoment(XT[d], Ys(points), points, d, |points|);
    }
  }

  /** The design matrix applied to c evaluates the polynomial c at every x_i. */
  lemma {:induction false} DesignEvaluates(points: seq<Point>, degree: nat, c: Vector)
    requires |c| == degree + 1
    ensures forall i :: 0 <= i < |points| ==> MatVec(Design(points, degree), c)[i] == Eval(c, points[i].x)
  {
  }

  /** Every point lies on the polynomial with coefficients c. */
  ghost predicate Interpolates(points: seq<Point>, c: Vector) {
    forall i :: 0 <= i < |points| ==> points[i].y == Eval(c, points[i].x)
  }

  /** If the points lie exactly on a polynomial of the fitted degree and elimination succeeds, the fit recovers it. */
  lemma {:induction false} ExactFit(points: seq<Point>, degree: nat, c: Vector)
    requires |points| >= 1 && |c| == degree + 1 && Interpolates(points, c)
    ensures Fit(points, degree).Reduced? ==> Solution(Fit(points, degree).reduced) == c
  {
    var X := Design(points, degree);
    var G, h := NormalMatrix(points, degree), NormalVector(points, degree);
    DesignEvaluates(points, degree, c);
    assert MatVec(X, c) == Ys(points);
    MatVecOfProduct(Transpose(X), X, c);
    NormalVectorEntries(points, degree);
    assert MatVec(G, c) == h;
    SolveCorrect(G, h);
  }

  /** The residuals of β are orthogonal to every column of X when β solves the normal equations. */
  lemma {:induction false} ResidualOrthogonal(points: seq<Point>, degree: nat, beta: Vector)
    requires |points| >= 1 && |beta| == degree + 1
    requires MatVec(NormalMatrix(points, degree), beta) == NormalVector(points, degree)
    ensures MatVec(Transpose(Design(points, degree)), Residuals(points, beta)) == Zeros(degree + 1)
  {
    var n := |points|;
    var X := Design(points, degree);
    var XT := Transpose(X);
    var r, ys, fitted := Residuals(points, beta), Ys(points), MatVec(X, beta);
    DesignEvaluates(points, degree, beta);
    NormalVectorEntries(points, degree);
    MatVecOfProduct(XT, X, beta);
    assert NormalMatrix(points, degree) == MatMul(XT, X);
    assert MatVec(XT, fitted) == NormalVector(points, degree);
    assert forall i :: 0 <= i < n ==> r[i] == ys[i] - fitted[i];
    forall e | 0 <= e <= degree ensures MatVec(XT, r)[e] == 0.0 {
      assert MatVec(XT, ys)[e] == MatVec(XT, fitted)[e];
      DifferenceOrthogonal(XT[e], ys, fitted, r, n);
    }
  }

  /** If row·u and row·v agree, row is orthogonal to u - v. */
  lemma {:induction false} DifferenceOrthogonal(row: Vector, u: Vector, v: Vector, d: Vector, n: nat)
    requires |row| == n && |u| == n && |v| == n && |d| == n
    requires forall i :: 0 <= i < n ==> d[i] == u[i] - v[i]
    requires Dot(row, u, n) == Dot(row, v, n)
    ensures Dot(row, d, n) == 0.0
  {
    DotLinear(u, v, d, row, n, 1.0);
    DotSymmetric(d, row, n);
    DotSymmetric(u, row, n);
    DotSymmetric(v, row, n);
  }

  /** Moving the coefficients from β to c = β - δ adds X·δ to the residuals. */
  lemma {:induction false} ResidualsShift(points: seq<Point>, degree: nat, beta: Vector, c: Vector, delta: Vector)
    requires |beta| == degree + 1 && |c| == degree + 1 && |delta| == degree + 1
    requires forall e :: 0 <= e <= degree ==> delta[e] == beta[e] - c[e]
    ensures forall i :: 0 <= i < |points| ==>
      Residuals(points, c)[i] == Residuals(points, beta)[i] + MatVec(Design(points, degree), delta)[i]
  {
    var m := degree + 1;
    var X := Design(points, degree);
    DesignEvaluates(points, degree, beta);
    DesignEvaluates(points, degree, c);
    forall i | 0 <= i < |points|
      ensures Residuals(points, c)[i] == Residuals(points, beta)[i] + MatVec(X, delta)[i]
    {
      DotLinear(beta, delta, c, X[i], m, 1.0);
      DotSymmetric(c, X[i], m);
      DotSymmetric(beta, X[i], m);
      DotSymmetric(delta, X[i], m);
    }
  }

  /**
   * Any solution β of the normal equations is a least-squares fit: no
   * coefficient vector of the same length has a smaller sum of squared residuals.
   */
  lemma {:induction false} NormalEquationsMinimise(points: seq<Point>, degree: nat, beta: Vector, c: Vector)
    requires |points| >= 1 && |beta| == degree + 1 && |c| == degree + 1
    requires MatVec(NormalMatrix(points, degree), beta) == NormalVector(points, degree)
    ensures SquaredError(points, beta) <= SquaredError(points, c)
  {
    var n, m := |points|, degree + 1;
    var X := Design(points, degree);
    var XT := Transpose(X);
    var r := Residuals(points, beta);
    var delta := seq(m, e requires 0 <= e < m => beta[e] - c[e]);
    var z := MatVec(X, delta);
    ResidualsShift(points, degree, beta, c, delta);
    DotExpand(r, z, Residuals(points, c), n);
    ResidualOrthogonal(points, degree, beta);
    var xr := MatVec(XT, r);
    forall e | 0 <= e < m ensures xr[e] == Dot(r, Column(X, e), n) {
      DotSymmetric(r, Column(X, e), n);
    }
    SumSwap(r, X, delta, xr, m);
    assert PartialProducts(X, delta, m) == z;
    DotZero(xr, delta, m);
    DotSquareNonnegative(z, n);
  }

  /** So whenever elimination succeeds, PolynomialRegression returns a least-squares fit. */
  lemma {:induction false} FitIsLeastSquares(points: seq<Point>, degree: nat, c: Vector)
    requires |points| >= 1 && |c| == degree + 1
    ensures Fit(points, degree).Reduced? ==>
      SquaredError(points, Solution(Fit(points, degree).reduced)) <= SquaredError(points, c)
  {
    var G, h := NormalMatrix(points, degree), NormalVector(points, degree);
    if Fit(points, degree).Reduced? {
      SolveCorrect(G, h);
      NormalEquationsMinimise(points, degree, Solution(Fit(points, degree).reduced), c);
    }
  }
}
