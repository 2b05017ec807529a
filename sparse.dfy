/** Compressed sparse row (CSR) matrices, row partitions, and the exact
    row-times-vector sum that every multiplication kernel computes.
    Matrix and vector values are exact integers standing for `real`. */
module Sparse {

  /** A matrix in CSR form: the non-zeros of row i sit at positions
      row[i] .. row[i+1]-1 of `col` (their column numbers) and `val`
      (their values). */
  datatype Csr = Csr(row: seq<nat>, col: seq<nat>, val: seq<int>)

  predicate NonDecreasing(s: seq<nat>)
  {
    forall i, j :: 0 <= i <= j < |s| ==> s[i] <= s[j]
  }

  /** Offsets of a CSR matrix: starting at 0, monotone, the last one equal
      to the number of non-zeros. */
  predicate WellFormed(M: Csr)
  {
    |M.row| >= 1 && M.row[0] == 0 && NonDecreasing(M.row) &&
    M.row[|M.row| - 1] == |M.col| && |M.col| == |M.val|
  }

  /** Number of rows of a well-formed CSR matrix. */
  function Rows(M: Csr): nat
    requires WellFormed(M)
  {
    |M.row| - 1
  }

  predicate ColumnsBelow(col: seq<nat>, m: nat)
  {
    forall j :: 0 <= j < |col| ==> col[j] < m
  }

  /** The square n-by-n input matrix of the distributed product: every
      column addresses an entry of the n-vector x. */
  predicate ValidMatrix(n: nat, A: Csr)
  {
    WellFormed(A) && Rows(A) == n && ColumnsBelow(A.col, n)
  }

  /** A row partition over n rows: device d owns rows part[d] .. part[d+1]-1. */
  predicate ValidPartition(part: seq<nat>, n: nat)
  {
    |part| >= 1 && part[0] == 0 && part[|part| - 1] == n && NonDecreasing(part)
  }

  /** The sum of val[t] * x[col[t]], accumulated front to back as the
      kernels' `sum += val[j] * x[col[j]]` loops do. */
  function Dot(col: seq<nat>, val: seq<int>, x: seq<int>): int
    requires |col| == |val| && ColumnsBelow(col, |x|)
  {
    if |col| == 0 then 0
    else Dot(col[..|col| - 1], val[..|val| - 1], x) + val[|val| - 1] * x[col[|col| - 1]]
  }

  /** The sum over a concatenation is the sum of the sums. */
  lemma {:induction false} DotAppend(c1: seq<nat>, v1: seq<int>, c2: seq<nat>, v2: seq<int>, x: seq<int>)
    requires |c1| == |v1| && |c2| == |v2|
    requires ColumnsBelow(c1, |x|) && ColumnsBelow(c2, |x|)
    ensures ColumnsBelow(c1 + c2, |x|)
    ensures Dot(c1 + c2, v1 + v2, x) == Dot(c1, v1, x) + Dot(c2, v2, x)
    decreases |c2|
  {
    if |c2| == 0 {
      assert c1 + c2 == c1;
      assert v1 + v2 == v1;
    } else {
      var c2', v2' := c2[..|c2| - 1], v2[..|v2| - 1];
      DotAppend(c1, v1, c2', v2', x);
      assert (c1 + c2)[..|c1 + c2| - 1] == c1 + c2';
      assert (v1 + v2)[..|v1 + v2| - 1] == v1 + v2';
    }
  }

  /** Extending a run by one entry adds that entry's product. */
  lemma DotSnoc(c: seq<nat>, v: seq<int>, a: nat, b: int, x: seq<int>)
    requires |c| == |v| && ColumnsBelow(c, |x|) && a < |x|
    ensures ColumnsBelow(c + [a], |x|)
    ensures Dot(c + [a], v + [b], x) == Dot(c, v, x) + b * x[a]
  {
    assert (c + [a])[..|c|] == c;
    assert (v + [b])[..|v|] == v;
  }

  /** A slice is its shorter slice followed by its last element. */
  lemma SliceSnoc<T>(s: seq<T>, lo: nat, hi: nat)
    requires lo < hi <= |s|
    ensures s[lo..hi] == s[lo..hi - 1] + [s[hi - 1]]
  {
  }

  /** Row i of M times x. */
  function RowSum(M: Csr, i: nat, x: seq<int>): int
    requires WellFormed(M) && i < Rows(M) && ColumnsBelow(M.col, |x|)
  {
    Dot(M.col[M.row[i]..M.row[i + 1]], M.val[M.row[i]..M.row[i + 1]], x)
  }

  /** The reference product y = alpha*A*x (append = false) or
      y + alpha*A*x (append = true), row by row. */
  function Product(A: Csr, x: seq<int>, y: seq<int>, alpha: int, append: bool): (r: seq<int>)
    requires WellFormed(A) && ColumnsBelow(A.col, |x|) && |y| == Rows(A)
  {
    seq(Rows(A), i requires 0 <= i < Rows(A) =>
      (if append then y[i] else 0) + alpha * RowSum(A, i, x))
  }

  /** Multiplying twice into the same y, first overwriting with alpha and then
      appending with beta, is one overwriting multiplication by alpha+beta. */
  lemma SetThenAppend(A: Csr, x: seq<int>, y: seq<int>, alpha: int, beta: int)
    requires WellFormed(A) && ColumnsBelow(A.col, |x|) && |y| == Rows(A)
    ensures Product(A, x, Product(A, x, y, alpha, false), beta, true)
         == Product(A, x, y, alpha + beta, false)
  {
    var p := Product(A, x, Product(A, x, y, alpha, false), beta, true);
    var q := Product(A, x, y, alpha + beta, false);
    forall i | 0 <= i < Rows(A) ensures p[i] == q[i] {
      var s := RowSum(A, i, x);
      assert alpha * s + beta * s == (alpha + beta) * s;
    }
  }
}
