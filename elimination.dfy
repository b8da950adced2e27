/**
 * Gauss–Jordan elimination with partial pivoting, as `solve` in src/lib/math.ts
 * performs it, written as pure functions over the augmented matrix [A | b],
 * together with the proof that a run which never meets a pivot below the
 * threshold ends with the unique solution of A·x == b.
 */
module Elimination {
  import opened Matrices

  /** Pivots whose magnitude is below this are treated as zero (the source's `1e-10`). */
  const Epsilon: real := 1e-10

  function Abs(r: real): real {
    if r < 0.0 then -r else r
  }

  /** An augmented matrix of n equations: n rows of n + 1 entries, the last one the right-hand side. */
  predicate Working(M: Matrix) {
    IsMatrix(M, |M|, |M| + 1)
  }

  /** [A | b]: each row of A followed by the matching entry of b (`[...row, b[i]]`). */
  function Augment(A: Matrix, b: Vector): (M: Matrix)
    requires IsMatrix(A, |b|, |b|)
    ensures Working(M) && |M| == |b|
    ensures forall i, j :: 0 <= i < |b| && 0 <= j < |b| ==> M[i][j] == A[i][j]
    ensures forall i :: 0 <= i < |b| ==> M[i][|b|] == b[i]
  {
    seq(|b|, i requires 0 <= i < |b| => A[i] + [b[i]])
  }

  /**
   * The pivot row for column i after scanning rows i..k-1: the first row whose
   * entry in column i has the largest magnitude (a later row replaces the
   * current choice only when strictly larger).
   */
  function PivotRow(M: Matrix, i: nat, k: nat): (r: nat)
    requires Working(M) && i < k <= |M|
    ensures i <= r < k
    ensures forall t :: i <= t < k ==> Abs(M[t][i]) <= Abs(M[r][i])
    ensures forall t :: i <= t < r ==> Abs(M[t][i]) < Abs(M[r][i])
    decreases k
  {
    if k == i + 1 then i
    else
      var r := PivotRow(M, i, k - 1);
      if Abs(M[k - 1][i]) > Abs(M[r][i]) then k - 1 else r
  }

  /** M with rows i and r exchanged. */
  function SwapRows(M: Matrix, i: nat, r: nat): (S: Matrix)
    requires i < |M| && r < |M|
    ensures |S| == |M| && S[i] == M[r] && S[r] == M[i]
    ensures forall k :: 0 <= k < |M| && k != i && k != r ==> S[k] == M[k]
  {
    M[i := M[r]][r := M[i]]
  }

  /** Step i's working matrix once the pivot row has been swapped into row i. */
  function PivotSwapped(M: Matrix, i: nat): (S: Matrix)
    requires Working(M) && i < |M|
    ensures Working(S) && |S| == |M|
  {
    SwapRows(M, i, PivotRow(M, i, |M|))
  }

  /** The row with its entries from column `from` on divided by d (`M[i][j] /= div`). */
  function Normalize(row: Vector, from: nat, d: real): (s: Vector)
    requires d != 0.0
    ensures |s| == |row|
  {
    seq(|row|, j requires 0 <= j < |row| => if j < from then row[j] else row[j] / d)
  }

  /** The row minus `factor` times the pivot row, from column `from` on (`M[k][j] -= factor * M[i][j]`). */
  function SubtractMultiple(row: Vector, pivot: Vector, factor: real, from: nat): (s: Vector)
    requires |pivot| == |row|
    ensures |s| == |row|
  {
    seq(|row|, j requires 0 <= j < |row| => if j < from then row[j] else row[j] - factor * pivot[j])
  }

  /** Every row but i loses its column-i entry's multiple of row i, from column i on. */
  function EliminateColumn(M: Matrix, i: nat): (N: Matrix)
    requires Working(M) && i < |M|
    ensures Working(N) && |N| == |M|
  {
    seq(|M|, k requires 0 <= k < |M| =>
      if k == i then M[i] else SubtractMultiple(M[k], M[i], M[k][i], i))
  }

  /** One pass of the outer loop once the pivot is usable: normalise row i, then clear column i elsewhere. */
  function Pivoted(S: Matrix, i: nat): (N: Matrix)
    requires Working(S) && i < |S| && S[i][i] != 0.0
    ensures Working(N) && |N| == |S|
  {
    EliminateColumn(S[i := Normalize(S[i], i, S[i][i])], i)
  }

  /** How elimination ends: at a step whose best pivot is too small, or with every column reduced. */
  datatype Outcome = Singular(step: nat, stuck: Matrix) | Reduced(reduced: Matrix)

  /**
   * The outer loop of `solve` from column i on: swap the pivot row up, then
   * carry on with the rest of step i.
   */
  function Reduce(M: Matrix, i: nat): (o: Outcome)
    requires Working(M) && i <= |M|
    ensures o.Reduced? ==> Working(o.reduced) && |o.reduced| == |M|
    ensures o.Singular? ==> i <= o.step < |M| && Working(o.stuck) && |o.stuck| == |M|
    decreases |M| - i, 1
  {
    if i == |M| then Reduced(M) else Continue(PivotSwapped(M, i), i)
  }

  /**
   * Step i once its pivot row is in place: if the pivot is below Epsilon the
   * run stops (the matrix at that moment is kept), otherwise the column is
   * reduced and the next one follows.
   */
  function Continue(S: Matrix, i: nat): (o: Outcome)
    requires Working(S) && i < |S|
    ensures o.Reduced? ==> Working(o.reduced) && |o.reduced| == |S|
    ensures o.Singular? ==> i <= o.step < |S| && Working(o.stuck) && |o.stuck| == |S|
    decreases |S| - i, 0
  {
    if Abs(S[i][i]) < Epsilon then Singular(i, S) else Reduce(Pivoted(S, i), i + 1)
  }

  /** The last column, read off as the answer (`M.map(row => row[n])`). */
  function Solution(R: Matrix): (x: Vector)
    requires Working(R)
    ensures |x| == |R| && forall k :: 0 <= k < |R| ==> x[k] == R[k][|R|]
  {
    seq(|R|, k requires 0 <= k < |R| => R[k][|R|])
  }

  // ----- The equations an augmented matrix stands for -----

  /** y satisfies the equation row[0]·y[0] + ... + row[n-1]·y[n-1] == row[n]. */
  ghost predicate RowHolds(row: Vector, y: Vector) {
    |row| == |y| + 1 && Dot(row, y, |y|) == row[|y|]
  }

  /** y satisfies every equation of M. */
  ghost predicate Satisfies(M: Matrix, y: Vector) {
    forall k :: 0 <= k < |M| ==> RowHolds(M[k], y)
  }

  /** M and N have the same solutions. */
  ghost predicate Equivalent(M: Matrix, N: Matrix) {
    |M| == |N| && forall y :: |y| == |M| ==> (Satisfies(M, y) <==> Satisfies(N, y))
  }

  /** The columns before c are those of the identity matrix. */
  ghost predicate IdentityBefore(M: Matrix, c: nat)
    requires Working(M)
  {
    forall k, t :: 0 <= k < |M| && 0 <= t < c && t <= |M| ==> M[k][t] == if k == t then 1.0 else 0.0
  }

  /** The solutions of [A | b] are exactly the y with A·y == b. */
  lemma {:induction false} AugmentedSystem(A: Matrix, b: Vector, y: Vector)
    requires IsMatrix(A, |b|, |b|) && |y| == |b|
    ensures Satisfies(Augment(A, b), y) <==> MatVec(A, y) == b
  {
    var M, n := Augment(A, b), |b|;
    forall k | 0 <= k < n ensures Dot(M[k], y, n) == Dot(A[k], y, n) {
      DotAgree(M[k], A[k], y, y, n);
    }
    if Satisfies(M, y) {
      assert forall k :: 0 <= k < n ==> MatVec(A, y)[k] == b[k] by {
        forall k | 0 <= k < n ensures MatVec(A, y)[k] == b[k] {
          assert RowHolds(M[k], y);
        }
      }
    }
    if MatVec(A, y) == b {
      forall k | 0 <= k < n ensures RowHolds(M[k], y) {
        assert MatVec(A, y)[k] == b[k];
      }
    }
  }

  /** A fully reduced matrix [I | x] has x as its one and only solution. */
  lemma {:induction false} ReducedSystem(R: Matrix, y: Vector)
    requires Working(R) && IdentityBefore(R, |R|) && |y| == |R|
    ensures Satisfies(R, y) <==> y == Solution(R)
  {
    var n := |R|;
    forall k | 0 <= k < n ensures Dot(R[k], y, n) == y[k] {
      DotUnit(R[k], y, n, k);
    }
    if Satisfies(R, y) {
      forall k | 0 <= k < n ensures y[k] == Solution(R)[k] {
        assert RowHolds(R[k], y);
      }
    }
  }

  lemma {:induction false} EquivalentTransitive(M: Matrix, N: Matrix, P: Matrix)
    requires Equivalent(M, N) && Equivalent(N, P)
    ensures Equivalent(M, P)
  {
  }

  // ----- Each row operation keeps the solutions -----

  /** Exchanging two rows keeps the solutions, and, for rows at or below i, the identity columns before i. */
  lemma {:induction false} SwapRowsSound(M: Matrix, i: nat, r: nat)
    requires Working(M) && i <= r < |M| && IdentityBefore(M, i)
    ensures Working(SwapRows(M, i, r)) && Equivalent(M, SwapRows(M, i, r))
    ensures IdentityBefore(SwapRows(M, i, r), i)
  {
    var S := SwapRows(M, i, r);
    assert forall k :: 0 <= k < |M| ==> S[k] == M[if k == i then r else if k == r then i else k];
    assert forall k :: 0 <= k < |M| ==> M[k] == S[if k == i then r else if k == r then i else k];
    forall y | |y| == |M| ensures Satisfies(M, y) <==> Satisfies(S, y) {
      if Satisfies(M, y) {
        forall k | 0 <= k < |S| ensures RowHolds(S[k], y) {
          assert RowHolds(M[if k == i then r else if k == r then i else k], y);
        }
      }
      if Satisfies(S, y) {
        forall k | 0 <= k < |M| ensures RowHolds(M[k], y) {
          assert RowHolds(S[if k == i then r else if k == r then i else k], y);
        }
      }
    }
  }

  /** The swap of step i leaves the rows above i alone and only reorders the rows. */
  lemma {:induction false} PivotSwappedPermutes(M: Matrix, i: nat)
    requires Working(M) && i < |M|
    ensures forall k :: 0 <= k < i ==> PivotSwapped(M, i)[k] == M[k]
    ensures multiset(PivotSwapped(M, i)) == multiset(M)
  {
    var r := PivotRow(M, i, |M|);
    SwapPermutes(M, i, r);
  }

  /** Exchanging two rows is a permutation of the rows. */
  lemma {:induction false} SwapPermutes(M: Matrix, i: nat, r: nat)
    requires i < |M| && r < |M|
    ensures multiset(SwapRows(M, i, r)) == multiset(M)
  {
    var S := M[i := M[r]];
    assert multiset(S) == multiset(M) - multiset{M[i]} + multiset{M[r]};
    assert S[r := M[i]] == SwapRows(M, i, r);
  }

  /** After the swap, no entry of column i at or below row i is larger in magnitude than the pivot. */
  lemma {:induction false} PivotIsLargest(M: Matrix, i: nat)
    requires Working(M) && i < |M|
    ensures forall k :: i <= k < |M| ==> Abs(PivotSwapped(M, i)[k][i]) <= Abs(PivotSwapped(M, i)[i][i])
  {
    var r := PivotRow(M, i, |M|);
    var S := PivotSwapped(M, i);
    forall k | i <= k < |M| ensures Abs(S[k][i]) <= Abs(S[i][i]) {
      assert S[k] == M[if k == i then r else if k == r then i else k];
    }
  }

  /**
   * When the row is zero before column `from`, dividing it by d from column
   * `from` on divides its whole equation by d, which has the same solutions.
   */
  lemma {:induction false} NormalizeHolds(u: Vector, from: nat, d: real, y: Vector)
    requires |u| == |y| + 1 && d != 0.0
    requires forall t :: 0 <= t < from && t < |u| ==> u[t] == 0.0
    ensures RowHolds(Normalize(u, from, d), y) <==> RowHolds(u, y)
  {
    var s, n := Normalize(u, from, d), |y|;
    forall t | 0 <= t < |s| ensures s[t] == u[t] / d {
      if t < from {
        assert u[t] == 0.0;
      }
    }
    DotScaled(u, s, y, n, d);
    DivisionCancels(Dot(u, y, n), u[n], d);
  }

  lemma {:induction false} DivisionCancels(a: real, c: real, d: real)
    requires d != 0.0
    ensures a / d == c / d <==> a == c
  {
    if a / d == c / d {
      calc {
        a;
        (a / d) * d;
        (c / d) * d;
        c;
      }
    }
  }

  /** Dividing row i by its nonzero pivot keeps the solutions and makes the pivot 1. */
  lemma {:induction false} NormalizeSound(M: Matrix, i: nat)
    requires Working(M) && i < |M| && IdentityBefore(M, i) && M[i][i] != 0.0
    ensures Working(M[i := Normalize(M[i], i, M[i][i])])
    ensures Equivalent(M, M[i := Normalize(M[i], i, M[i][i])])
    ensures IdentityBefore(M[i := Normalize(M[i], i, M[i][i])], i)
    ensures M[i := Normalize(M[i], i, M[i][i])][i][i] == 1.0
  {
    var n, d := |M|, M[i][i];
    var P := M[i := Normalize(M[i], i, d)];
    assert forall t :: 0 <= t < i ==> M[i][t] == 0.0;
    forall y | |y| == n ensures Satisfies(M, y) <==> Satisfies(P, y) {
      NormalizeHolds(M[i], i, d, y);
      assert forall k :: 0 <= k < n && k != i ==> P[k] == M[k];
    }
  }

  /**
   * When the pivot row is zero before column `from` and its equation holds,
   * subtracting its multiple from another row keeps that row's equation.
   */
  lemma {:induction false} SubtractMultipleHolds(u: Vector, p: Vector, f: real, from: nat, y: Vector)
    requires |u| == |p| == |y| + 1 && RowHolds(p, y)
    requires forall t :: 0 <= t < from && t < |p| ==> p[t] == 0.0
    ensures RowHolds(SubtractMultiple(u, p, f, from), y) <==> RowHolds(u, y)
  {
    var s, n := SubtractMultiple(u, p, f, from), |y|;
    forall t | 0 <= t < |s| ensures s[t] == u[t] - f * p[t] {
      if t < from {
        assert p[t] == 0.0;
      }
    }
    DotLinear(u, p, s, y, n, f);
    assert f * Dot(p, y, n) == f * p[n];
  }

  /** With pivot 1 in row i, clearing column i from the other rows keeps the solutions. */
  lemma {:induction false} EliminateColumnSound(P: Matrix, i: nat)
    requires Working(P) && i < |P| && IdentityBefore(P, i) && P[i][i] == 1.0
    ensures Equivalent(P, EliminateColumn(P, i))
    ensures IdentityBefore(EliminateColumn(P, i), i + 1)
  {
    var n, N := |P|, EliminateColumn(P, i);
    assert forall t :: 0 <= t < i ==> P[i][t] == 0.0;
    forall y | |y| == n ensures Satisfies(P, y) <==> Satisfies(N, y) {
      if RowHolds(P[i], y) {
        forall k | 0 <= k < n && k != i ensures RowHolds(N[k], y) <==> RowHolds(P[k], y) {
          SubtractMultipleHolds(P[k], P[i], P[k][i], i, y);
        }
      }
      assert N[i] == P[i];
    }
  }

  /**
   * After one pass on column i the pivot is 1 and every other row has 0 in
   * column i, while the columns before i are exactly as they were.
   */
  lemma {:induction false} PivotedClearsColumn(S: Matrix, i: nat)
    requires Working(S) && i < |S| && S[i][i] != 0.0
    ensures Pivoted(S, i)[i][i] == 1.0
    ensures forall k :: 0 <= k < |S| && k != i ==> Pivoted(S, i)[k][i] == 0.0
    ensures forall k, t :: 0 <= k < |S| && 0 <= t < i ==> Pivoted(S, i)[k][t] == S[k][t]
  {
    var P := S[i := Normalize(S[i], i, S[i][i])];
    assert P[i][i] == S[i][i] / S[i][i] == 1.0;
    var N := Pivoted(S, i);
    forall k | 0 <= k < |S| && k != i ensures N[k][i] == 0.0 {
      assert N[k][i] == P[k][i] - P[k][i] * P[i][i];
    }
  }

  /** One column's pass keeps the solutions and extends the identity columns by one. */
  lemma {:induction false} PivotedSound(M: Matrix, i: nat)
    requires Working(M) && i < |M| && IdentityBefore(M, i)
    requires Abs(PivotSwapped(M, i)[i][i]) >= Epsilon
    ensures Equivalent(M, Pivoted(PivotSwapped(M, i), i))
    ensures IdentityBefore(Pivoted(PivotSwapped(M, i), i), i + 1)
  {
    var S := PivotSwapped(M, i);
    SwapRowsSound(M, i, PivotRow(M, i, |M|));
    NormalizeSound(S, i);
    var P := S[i := Normalize(S[i], i, S[i][i])];
    EliminateColumnSound(P, i);
    EquivalentTransitive(M, S, P);
    EquivalentTransitive(M, P, EliminateColumn(P, i));
  }

  /**
   * What an end of elimination from M guarantees. A reduced end has the same
   * solutions as M and the identity in every coefficient column. A singular end
   * at step s has the same solutions as M, the identity before column s, and
   * no entry of magnitude Epsilon or more in column s at or below the diagonal.
   */
  ghost predicate SoundEnd(M: Matrix, o: Outcome) {
    match o
    case Reduced(R) =>
      Working(R) && Equivalent(M, R) && IdentityBefore(R, |R|)
    case Singular(s, S) =>
      Working(S) && s < |S| && Equivalent(M, S) && IdentityBefore(S, s) &&
      forall k :: s <= k < |S| ==> Abs(S[k][s]) < Epsilon
  }

  lemma {:induction false} SoundEndFrom(M: Matrix, N: Matrix, o: Outcome)
    requires Equivalent(M, N) && SoundEnd(N, o)
    ensures SoundEnd(M, o)
  {
    match o
    case Reduced(R) => EquivalentTransitive(M, N, R);
    case Singular(_, S) => EquivalentTransitive(M, N, S);
  }

  /** A step whose best pivot is below Epsilon ends elimination soundly. */
  lemma {:induction false} SingularStepSound(M: Matrix, i: nat)
    requires Working(M) && i < |M| && IdentityBefore(M, i)
    requires Abs(PivotSwapped(M, i)[i][i]) < Epsilon
    ensures SoundEnd(M, Reduce(M, i))
  {
    assert Reduce(M, i) == Singular(i, PivotSwapped(M, i));
    SwapRowsSound(M, i, PivotRow(M, i, |M|));
    PivotIsLargest(M, i);
  }

  /** A step with a usable pivot passes a sound end of the rest of the run back to M. */
  lemma {:induction false} PivotStepSound(M: Matrix, i: nat)
    requires Working(M) && i < |M| && IdentityBefore(M, i)
    requires Abs(PivotSwapped(M, i)[i][i]) >= Epsilon
    requires SoundEnd(Pivoted(PivotSwapped(M, i), i), Reduce(Pivoted(PivotSwapped(M, i), i), i + 1))
    ensures SoundEnd(M, Reduce(M, i))
  {
    var P := Pivoted(PivotSwapped(M, i), i);
    assert Reduce(M, i) == Reduce(P, i + 1);
    PivotedSound(M, i);
    SoundEndFrom(M, P, Reduce(P, i + 1));
  }

  /** Elimination from column i, started with the identity before column i, ends soundly. */
  lemma {:induction false} ReduceSound(M: Matrix, i: nat)
    requires Working(M) && i <= |M| && IdentityBefore(M, i)
    ensures SoundEnd(M, Reduce(M, i))
    decreases |M| - i
  {
    if i == |M| {
      assert Reduce(M, i) == Reduced(M);
    } else if Abs(PivotSwapped(M, i)[i][i]) < Epsilon {
      SingularStepSound(M, i);
    } else {
      PivotedSound(M, i);
      ReduceSound(Pivoted(PivotSwapped(M, i), i), i + 1);
      PivotStepSound(M, i);
    }
  }

  /**
   * The header promise of `solve`, "solve Ax = b", over exact reals: when no
   * pivot falls below Epsilon, the vector read off the last column satisfies
   * A·x == b, and no other vector does.
   */
  lemma {:induction false} SolveCorrect(A: Matrix, b: Vector)
    requires IsMatrix(A, |b|, |b|)
    ensures Reduce(Augment(A, b), 0).Reduced? ==>
      var x := Solution(Reduce(Augment(A, b), 0).reduced);
      MatVec(A, x) == b && forall y :: |y| == |b| && MatVec(A, y) == b ==> y == x
  {
    var M := Augment(A, b);
    ReduceSound(M, 0);
    var o := Reduce(M, 0);
    if o.Reduced? {
      var x := Solution(o.reduced);
      ReducedSystem(o.reduced, x);
      AugmentedSystem(A, b, x);
      forall y | |y| == |b| && MatVec(A, y) == b ensures y == x {
        AugmentedSystem(A, b, y);
        ReducedSystem(o.reduced, y);
      }
    }
  }

  /**
   * The singular exit of `solve` at step s: the working matrix at that moment
   * has the same solutions as [A | b], is reduced in the columns before s, and
   * no row at or below the diagonal offers a pivot of magnitude Epsilon or more.
   */
  lemma {:induction false} SingularExit(A: Matrix, b: Vector)
    requires IsMatrix(A, |b|, |b|)
    ensures Reduce(Augment(A, b), 0).Singular? ==>
      var s, S := Reduce(Augment(A, b), 0).step, Reduce(Augment(A, b), 0).stuck;
      s < |b| && IdentityBefore(S, s) &&
      (forall k :: s <= k < |b| ==> Abs(S[k][s]) < Epsilon) &&
      forall y :: |y| == |b| ==> (Satisfies(S, y) <==> MatVec(A, y) == b)
  {
    var M := Augment(A, b);
    ReduceSound(M, 0);
    var o := Reduce(M, 0);
    if o.Singular? {
      forall y | |y| == |b| ensures Satisfies(o.stuck, y) <==> MatVec(A, y) == b {
        AugmentedSystem(A, b, y);
      }
    }
  }

  /** A system with two different solutions always takes the singular exit. */
  lemma {:induction false} NonUniqueIsSingular(A: Matrix, b: Vector, y: Vector, z: Vector)
    requires IsMatrix(A, |b|, |b|) && |y| == |b| && |z| == |b|
    requires MatVec(A, y) == b && MatVec(A, z) == b && y != z
    ensures Reduce(Augment(A, b), 0).Singular?
  {
    SolveCorrect(A, b);
  }

  /** [[1, 2], [2, 4]]·x == [1, 2] is solved by [1, 0] and by [-1, 1], so elimination stops. */
  lemma {:induction false} DependentRowsExample()
    ensures Reduce(Augment([[1.0, 2.0], [2.0, 4.0]], [1.0, 2.0]), 0).Singular?
  {
    var A, b := [[1.0, 2.0], [2.0, 4.0]], [1.0, 2.0];
    var y, z := [1.0, 0.0], [-1.0, 1.0];
    forall k | 0 <= k < 2 ensures MatVec(A, y)[k] == b[k] && MatVec(A, z)[k] == b[k] {
      assert Dot(A[k], y, 2) == A[k][0] * y[0] + A[k][1] * y[1];
      assert Dot(A[k], z, 2) == A[k][0] * z[0] + A[k][1] * z[1];
    }
    assert y[0] != z[0];
    NonUniqueIsSingular(A, b, y, z);
  }

  /** [[2, 1], [1, 3]]·x == [3, 5] reduces to the identity with x == [0.8, 1.4]. */
  lemma {:induction false} RegularExample()
    ensures Reduce(Augment([[2.0, 1.0], [1.0, 3.0]], [3.0, 5.0]), 0) == Reduced([[1.0, 0.0, 0.8], [0.0, 1.0, 1.4]])
  {
    var M0 := Augment([[2.0, 1.0], [1.0, 3.0]], [3.0, 5.0]);
    assert M0[0] == [2.0, 1.0, 3.0] && M0[1] == [1.0, 3.0, 5.0];
    assert PivotRow(M0, 0, 2) == 0;
    var S0 := PivotSwapped(M0, 0);
    assert S0 == M0;
    var M1 := Pivoted(S0, 0);
    assert M1[0] == [1.0, 0.5, 1.5];
    assert M1[1] == [0.0, 2.5, 3.5];
    assert PivotRow(M1, 1, 2) == 1;
    var S1 := PivotSwapped(M1, 1);
    assert S1 == M1;
    var M2 := Pivoted(S1, 1);
    assert M2[0] == [1.0, 0.0, 0.8];
    assert M2[1] == [0.0, 1.0, 1.4];
    assert M2 == [[1.0, 0.0, 0.8], [0.0, 1.0, 1.4]];
    assert Reduce(M2, 2) == Reduced(M2);
    assert Reduce(M1, 1) == Reduce(M2, 2);
  }
}
