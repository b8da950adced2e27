/**
 * The source's `solve`: Gauss–Jordan elimination run in place on a working
 * copy of [A | b], held as an array of rows so that the pivot swap exchanges
 * two rows as the source does. Each step is proved to follow Elimination.Reduce.
 */
module Solver {
  import opened Matrices
  import opened Elimination

  /** The pivot search of step i: scan rows i+1..n-1, keeping the first row of largest magnitude. */
  method SelectPivot(M: array<seq<real>>, i: nat) returns (maxRow: nat)
    requires Working(M[..]) && i < M.Length
    ensures i <= maxRow < M.Length
    ensures forall k :: i <= k < M.Length ==> Abs(M[k][i]) <= Abs(M[maxRow][i])
    ensures forall k :: i <= k < maxRow ==> Abs(M[k][i]) < Abs(M[maxRow][i])
    ensures maxRow == PivotRow(M[..], i, M.Length)
  {
    ghost var rows := M[..];
    maxRow := i;
    for k := i + 1 to M.Length
      invariant maxRow == PivotRow(rows, i, k)
    {
      assert M[k] == rows[k] && M[maxRow] == rows[maxRow];
      if Abs(M[k][i]) > Abs(M[maxRow][i]) {
        maxRow := k;
      }
    }
  }

  /** Exchange rows i and r in place (`[M[i], M[r]] = [M[r], M[i]]`). */
  method Exchange(M: array<seq<real>>, i: nat, r: nat)
    requires Working(M[..]) && i < M.Length && r < M.Length
    modifies M
    ensures M[..] == SwapRows(old(M[..]), i, r) && Working(M[..])
  {
    M[i], M[r] := M[r], M[i];
  }

  /** Divide row i by div from column i through the last column, in place. */
  method NormalizeRow(M: array<seq<real>>, i: nat, div: real)
    requires Working(M[..]) && i < M.Length && div != 0.0
    modifies M
    ensures M[..] == old(M[..])[i := Normalize(old(M[i]), i, div)] && Working(M[..])
  {
    var n := M.Length;
    for j := i to n + 1
      invariant forall k :: 0 <= k < n && k != i ==> M[k] == old(M[k])
      invariant |M[i]| == n + 1
      invariant forall t :: 0 <= t <= n ==> M[i][t] == if i <= t < j then old(M[i][t]) / div else old(M[i][t])
    {
      M[i] := M[i][j := M[i][j] / div];
    }
    assert M[i] == Normalize(old(M[i]), i, div);
  }

  /** Clear column i from every row but i, subtracting multiples of row i from column i on, in place. */
  method EliminateOthers(M: array<seq<real>>, i: nat)
    requires Working(M[..]) && i < M.Length
    modifies M
    ensures M[..] == EliminateColumn(old(M[..]), i) && Working(M[..])
  {
    var n := M.Length;
    ghost var N := EliminateColumn(M[..], i);
    for k := 0 to n
      invariant forall r :: 0 <= r < k ==> M[r] == N[r]
      invariant forall r :: k <= r < n ==> M[r] == old(M[r])
    {
      if k != i {
        var factor := M[k][i];
        for j := i to n + 1
          invariant forall r :: 0 <= r < k ==> M[r] == N[r]
          invariant forall r :: k < r < n ==> M[r] == old(M[r])
          invariant M[i] == old(M[i])
          invariant |M[k]| == n + 1
          invariant forall t :: 0 <= t <= n ==>
            M[k][t] == if i <= t < j then old(M[k][t]) - factor * old(M[i][t]) else old(M[k][t])
        {
          M[k] := M[k][j := M[k][j] - factor * M[i][j]];
        }
        assert forall t :: 0 <= t <= n ==> M[k][t] == N[k][t];
        assert M[k] == N[k];
      }
    }
  }

  /**
   * Step i of the outer loop of `solve`: choose and swap up the pivot row, then
   * either report the singular exit (pivot below Epsilon) or normalise the
   * pivot row and clear column i from the other rows.
   */
  method PivotStep(M: array<seq<real>>, i: nat) returns (singular: bool)
    requires Working(M[..]) && i < M.Length
    modifies M
    ensures Working(M[..])
    ensures singular ==> Abs(M[i][i]) < Epsilon
    ensures !singular ==> M[i][i] == 1.0
    ensures singular ==> M[..] == PivotSwapped(old(M[..]), i)
    ensures !singular ==> PivotSwapped(old(M[..]), i)[i][i] != 0.0 && M[..] == Pivoted(PivotSwapped(old(M[..]), i), i)
    ensures singular ==> Reduce(old(M[..]), i) == Singular(i, M[..])
    ensures !singular ==> Reduce(old(M[..]), i) == Reduce(M[..], i + 1)
  {
    ghost var before := M[..];
    var maxRow := SelectPivot(M, i);
    Exchange(M, i, maxRow);
    ghost var swapped := M[..];
    assert swapped == PivotSwapped(before, i);
    var div := M[i][i];
    if Abs(div) < Epsilon {
      return true;
    }
    NormalizeRow(M, i, div);
    EliminateOthers(M, i);
    assert M[..] == Pivoted(swapped, i);
    PivotedClearsColumn(swapped, i);
    return false;
  }

  /**
   * The source's `solve(A, b)`. It works on a copy, so A and b are untouched.
   * The result always has length n. It is the zero vector when some step's
   * best pivot is below Epsilon. Otherwise it is the last column of the
   * reduced matrix, which solves A·x == b.
   */
  method Solve(A: Matrix, b: Vector) returns (x: Vector)
    requires IsMatrix(A, |A|, |A|) && |b| == |A|
    ensures |x| == |A|
    ensures Reduce(Augment(A, b), 0).Singular? ==> x == Zeros(|A|)
    ensures Reduce(Augment(A, b), 0).Reduced? ==>
      x == Solution(Reduce(Augment(A, b), 0).reduced) && MatVec(A, x) == b
  {
    var n := |A|;
    ghost var outcome := Reduce(Augment(A, b), 0);
    var M := new seq<real>[n](i requires 0 <= i < n => A[i] + [b[i]]);
    assert M[..] == Augment(A, b);
    for i := 0 to n
      invariant Working(M[..]) && M.Length == n
      invariant Reduce(M[..], i) == outcome
    {
      var singular := PivotStep(M, i);
      if singular {
        assert outcome.Singular?;
        return Zeros(n);
      }
      assert outcome == Reduce(M[..], i + 1);
    }
    assert outcome == Reduced(M[..]);
    x := Solution(M[..]);
    assert MatVec(A, x) == b by {
      SolveCorrect(A, b);
    }
  }
}
