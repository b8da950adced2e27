/**
 * Dense matrices over exact reals: shapes, the dot product, transpose and the
 * naive matrix product (`multiply` and `transpose` in src/lib/math.ts).
 */
module Matrices {

  /** A vector; the source's `number[]`, with exact reals in place of doubles. */
  type Vector = seq<real>

  /** A matrix as a sequence of rows; the source's `number[][]`. */
  type Matrix = seq<seq<real>>

  /** M has `rows` rows, each of exactly `cols` entries. */
  predicate IsMatrix(M: Matrix, rows: nat, cols: nat) {
    |M| == rows && forall i :: 0 <= i < |M| ==> |M[i]| == cols
  }

  /** The vector of `n` zeros (`Array(n).fill(0)`). */
  function Zeros(n: nat): (z: Vector)
    ensures |z| == n && forall t :: 0 <= t < n ==> z[t] == 0.0
  {
    seq(n, _ => 0.0)
  }

  /** Column j of M, read from the top row down. */
  function Column(M: Matrix, j: nat): (c: Vector)
    requires forall i :: 0 <= i < |M| ==> j < |M[i]|
    ensures |c| == |M| && forall i :: 0 <= i < |M| ==> c[i] == M[i][j]
  {
    seq(|M|, i requires 0 <= i < |M| => M[i][j])
  }

  /** The sum of u[t] * v[t] over t < k, accumulated from t = 0 upward. */
  function Dot(u: Vector, v: Vector, k: nat): real
    requires k <= |u| && k <= |v|
  {
    if k == 0 then 0.0 else Dot(u, v, k - 1) + u[k - 1] * v[k - 1]
  }

  /** The source's `transpose`: the columns of A, in order, become the rows. */
  function Transpose(A: Matrix): (T: Matrix)
    requires |A| >= 1 && IsMatrix(A, |A|, |A[0]|)
    ensures IsMatrix(T, |A[0]|, |A|)
    ensures forall j, i :: 0 <= j < |A[0]| && 0 <= i < |A| ==> T[j][i] == A[i][j]
  {
    seq(|A[0]|, j requires 0 <= j < |A[0]| => Column(A, j))
  }

  /** A is m×n and B is n×p with m, n >= 1: what `multiply` needs of its arguments. */
  predicate Multipliable(A: Matrix, B: Matrix) {
    |A| >= 1 && |B| >= 1 && IsMatrix(A, |A|, |B|) && IsMatrix(B, |B|, |B[0]|)
  }

  /** The matrix product, entry (i, j) being row i of A against column j of B. */
  function MatMul(A: Matrix, B: Matrix): (C: Matrix)
    requires Multipliable(A, B)
    ensures IsMatrix(C, |A|, |B[0]|)
  {
    seq(|A|, i requires 0 <= i < |A| =>
      seq(|B[0]|, j requires 0 <= j < |B[0]| => Dot(A[i], Column(B, j), |B|)))
  }

  /** The matrix-vector product A·v. */
  function MatVec(A: Matrix, v: Vector): (w: Vector)
    requires IsMatrix(A, |A|, |v|)
    ensures |w| == |A|
  {
    seq(|A|, i requires 0 <= i < |A| => Dot(A[i], v, |v|))
  }

  /** The n×n identity matrix. */
  function Identity(n: nat): (I: Matrix)
    ensures IsMatrix(I, n, n)
  {
    seq(n, i => seq(n, j => if i == j then 1.0 else 0.0))
  }

  /**
   * The source's `multiply`: C starts as the m×p zero matrix and each entry
   * accumulates `C[i][j] += A[i][k] * B[k][j]` in the order i, j, k.
   */
  method Multiply(A: Matrix, B: Matrix) returns (C: Matrix)
    requires Multipliable(A, B)
    ensures IsMatrix(C, |A|, |B[0]|)
    ensures forall i, j :: 0 <= i < |A| && 0 <= j < |B[0]| ==> C[i][j] == Dot(A[i], Column(B, j), |B|)
    ensures C == MatMul(A, B)
  {
    var m, n, p := |A|, |A[0]|, |B[0]|;
    C := seq(m, _ => Zeros(p));
    for i := 0 to m
      invariant IsMatrix(C, m, p)
      invariant forall r, t :: 0 <= r < i && 0 <= t < p ==> C[r][t] == Dot(A[r], Column(B, t), n)
      invariant forall r, t :: i <= r < m && 0 <= t < p ==> C[r][t] == 0.0
    {
      for j := 0 to p
        invariant IsMatrix(C, m, p)
        invariant forall r, t :: 0 <= r < i && 0 <= t < p ==> C[r][t] == Dot(A[r], Column(B, t), n)
        invariant forall r, t :: i < r < m && 0 <= t < p ==> C[r][t] == 0.0
        invariant forall t :: 0 <= t < j ==> C[i][t] == Dot(A[i], Column(B, t), n)
        invariant forall t :: j <= t < p ==> C[i][t] == 0.0
      {
        ghost var before := C;
        for k := 0 to n
          invariant IsMatrix(C, m, p)
          invariant forall r :: 0 <= r < m && r != i ==> C[r] == before[r]
          invariant forall t :: 0 <= t < p && t != j ==> C[i][t] == before[i][t]
          invariant C[i][j] == Dot(A[i], Column(B, j), k)
        {
          C := C[i := C[i][j := C[i][j] + A[i][k] * B[k][j]]];
        }
      }
    }
    assert forall i :: 0 <= i < m ==> C[i] == MatMul(A, B)[i];
  }

  // ----- Algebra of the dot product -----

  /** Dot depends only on the first k entries of each argument. */
  lemma {:induction false} DotAgree(u: Vector, u': Vector, v: Vector, v': Vector, k: nat)
    requires k <= |u| && k <= |u'| && k <= |v| && k <= |v'|
    requires forall t :: 0 <= t < k ==> u[t] == u'[t] && v[t] == v'[t]
    ensures Dot(u, v, k) == Dot(u', v', k)
  {
    if k > 0 { DotAgree(u, u', v, v', k - 1); }
  }

  lemma {:induction false} DotSymmetric(u: Vector, v: Vector, k: nat)
    requires k <= |u| && k <= |v|
    ensures Dot(u, v, k) == Dot(v, u, k)
  {
    if k > 0 { DotSymmetric(u, v, k - 1); }
  }

  /** Dividing the first argument entrywise by d divides the dot product by d. */
  lemma {:induction false} DotScaled(u: Vector, v: Vector, y: Vector, k: nat, d: real)
    requires k <= |u| && k <= |v| && k <= |y| && d != 0.0
    requires forall t :: 0 <= t < k ==> v[t] == u[t] / d
    ensures Dot(v, y, k) == Dot(u, y, k) / d
  {
    if k > 0 { DotScaled(u, v, y, k - 1, d); }
  }

  /** Dot is linear in its first argument: (u - c·v)·y == u·y - c·(v·y). */
  lemma {:induction false} DotLinear(u: Vector, v: Vector, s: Vector, y: Vector, k: nat, c: real)
    requires k <= |u| && k <= |v| && k <= |s| && k <= |y|
    requires forall t :: 0 <= t < k ==> s[t] == u[t] - c * v[t]
    ensures Dot(s, y, k) == Dot(u, y, k) - c * Dot(v, y, k)
  {
    if k > 0 { DotLinear(u, v, s, y, k - 1, c); }
  }

  /** Against the unit vector e_r, the dot product picks out y[r] (or 0 if r >= k). */
  lemma {:induction false} DotUnit(e: Vector, y: Vector, k: nat, r: nat)
    requires k <= |e| && k <= |y|
    requires forall t :: 0 <= t < k ==> e[t] == if t == r then 1.0 else 0.0
    ensures Dot(e, y, k) == if r < k then y[r] else 0.0
  {
    if k > 0 { DotUnit(e, y, k - 1, r); }
  }

  lemma {:induction false} DotZero(z: Vector, y: Vector, k: nat)
    requires k <= |z| && k <= |y|
    requires forall t :: 0 <= t < k ==> z[t] == 0.0
    ensures Dot(z, y, k) == 0.0
  {
    if k > 0 { DotZero(z, y, k - 1); }
  }

  /** Expanding a square: (r + z)·(r + z) == r·r + 2(r·z) + z·z. */
  lemma {:induction false} DotExpand(r: Vector, z: Vector, s: Vector, k: nat)
    requires k <= |r| && k <= |z| && k <= |s|
    requires forall t :: 0 <= t < k ==> s[t] == r[t] + z[t]
    ensures Dot(s, s, k) == Dot(r, r, k) + 2.0 * Dot(r, z, k) + Dot(z, z, k)
  {
    if k > 0 {
      DotExpand(r, z, s, k - 1);
      var a, b := r[k - 1], z[k - 1];
      assert s[k - 1] * s[k - 1] == a * a + 2.0 * (a * b) + b * b;
    }
  }

  /** A sum of squares is never negative. */
  lemma {:induction false} DotSquareNonnegative(z: Vector, k: nat)
    requires k <= |z|
    ensures Dot(z, z, k) >= 0.0
  {
    if k > 0 {
      DotSquareNonnegative(z, k - 1);
      assert z[k - 1] * z[k - 1] >= 0.0;
    }
  }

  // ----- Transpose and product -----

  /** Transposing twice gives back the matrix (it needs a column to transpose back). */
  lemma {:induction false} TransposeTwice(A: Matrix)
    requires |A| >= 1 && |A[0]| >= 1 && IsMatrix(A, |A|, |A[0]|)
    ensures Transpose(Transpose(A)) == A
  {
    var T := Transpose(Transpose(A));
    assert |T| == |A|;
    forall i | 0 <= i < |A| ensures T[i] == A[i] {
      assert |T[i]| == |A[i]|;
    }
  }

  /** (A·B)ᵀ == Bᵀ·Aᵀ. */
  lemma {:induction false} TransposeOfProduct(A: Matrix, B: Matrix)
    requires Multipliable(A, B) && |B[0]| >= 1
    ensures Multipliable(Transpose(B), Transpose(A))
    ensures Transpose(MatMul(A, B)) == MatMul(Transpose(B), Transpose(A))
  {
    var L, R := Transpose(MatMul(A, B)), MatMul(Transpose(B), Transpose(A));
    var n := |B|;
    assert IsMatrix(L, |B[0]|, |A|) && IsMatrix(R, |B[0]|, |A|);
    forall j, i | 0 <= j < |B[0]| && 0 <= i < |A| ensures L[j][i] == R[j][i] {
      var At := Transpose(A);
      DotAgree(Transpose(B)[j], Column(B, j), Column(At, i), A[i], n);
      DotSymmetric(Column(B, j), A[i], n);
    }
    assert forall j :: 0 <= j < |B[0]| ==> L[j] == R[j];
  }

  /** A·I == A. */
  lemma {:induction false} MultiplyByIdentity(A: Matrix)
    requires |A| >= 1 && |A[0]| >= 1 && IsMatrix(A, |A|, |A[0]|)
    ensures Multipliable(A, Identity(|A[0]|))
    ensures MatMul(A, Identity(|A[0]|)) == A
  {
    var n := |A[0]|;
    var C := MatMul(A, Identity(n));
    forall i, j | 0 <= i < |A| && 0 <= j < n ensures C[i][j] == A[i][j] {
      var e := Column(Identity(n), j);
      DotSymmetric(A[i], e, n);
      DotUnit(e, A[i], n, j);
    }
    assert forall i :: 0 <= i < |A| ==> C[i] == A[i];
  }

  /** (A·B)·v == A·(B·v): the product of matrices acts as the composition of their actions. */
  lemma {:induction false} MatVecOfProduct(A: Matrix, B: Matrix, v: Vector)
    requires Multipliable(A, B) && |v| == |B[0]|
    ensures MatVec(MatMul(A, B), v) == MatVec(A, MatVec(B, v))
  {
    var C := MatMul(A, B);
    forall d | 0 <= d < |A| ensures MatVec(C, v)[d] == MatVec(A, MatVec(B, v))[d] {
      SumSwap(A[d], B, v, C[d], |v|);
      DotAgree(A[d], A[d], MatVec(B, v), PartialProducts(B, v, |v|), |B|);
    }
  }

  /** Row i holds the partial sum Σ_{e<q} B[i][e]·v[e]; with q == |v| this is B·v. */
  function PartialProducts(B: Matrix, v: Vector, q: nat): (w: Vector)
    requires forall i :: 0 <= i < |B| ==> q <= |B[i]|
    requires q <= |v|
    ensures |w| == |B|
    ensures forall i :: 0 <= i < |B| ==> w[i] == Dot(B[i], v, q)
  {
    seq(|B|, i requires 0 <= i < |B| => Dot(B[i], v, q))
  }

  /**
   * Interchange of a double sum: Σ_{e<q} (Σ_i a[i]·B[i][e]) · v[e] == Σ_i a[i] · (Σ_{e<q} B[i][e]·v[e]),
   * where row c holds the inner sums of the left-hand side.
   */
  lemma {:induction false} SumSwap(a: Vector, B: Matrix, v: Vector, c: Vector, q: nat)
    requires |B| >= 1 && IsMatrix(B, |B|, |B[0]|) && |a| == |B| && |v| == |B[0]| && |c| == |v|
    requires forall e :: 0 <= e < |c| ==> c[e] == Dot(a, Column(B, e), |B|)
    requires q <= |v|
    ensures Dot(c, v, q) == Dot(a, PartialProducts(B, v, q), |B|)
  {
    if q == 0 {
      var w := PartialProducts(B, v, 0);
      DotSymmetric(a, w, |B|);
      DotZero(w, a, |B|);
    } else {
      SumSwap(a, B, v, c, q - 1);
      SumSwapStep(a, B, v, q);
    }
  }

  /** One more column in the partial products adds a[·]·B[·][q-1] scaled by v[q-1]. */
  lemma {:induction false} SumSwapStep(a: Vector, B: Matrix, v: Vector, q: nat)
    requires |B| >= 1 && IsMatrix(B, |B|, |B[0]|) && |a| == |B| && |v| == |B[0]|
    requires 1 <= q <= |v|
    ensures Dot(a, PartialProducts(B, v, q), |B|)
         == Dot(a, PartialProducts(B, v, q - 1), |B|) + Dot(a, Column(B, q - 1), |B|) * v[q - 1]
  {
    var n := |B|;
    var w, w0, col := PartialProducts(B, v, q), PartialProducts(B, v, q - 1), Column(B, q - 1);
    DotSymmetric(a, w, n);
    DotLinear(w, col, w0, a, n, v[q - 1]);
    DotSymmetric(a, w0, n);
    DotSymmetric(a, col, n);
  }
}
