/** The compressed CSR format (`SpMatCCSR`) for matrices with few distinct
    row patterns: row i of the n-row matrix follows pattern idx[i], whose
    entries are pattern positions row[idx[i]] .. row[idx[i]+1]-1 of `col`
    and `val`; `col` holds signed offsets from the diagonal, so such an
    entry sits in column i + col[j]. */
module Ccsr {
  import opened Sparse
  import opened Slices

  /** The arrays the constructor uploads: n row-to-pattern indices, the
      m+1 pattern offsets, and the pattern columns and values. */
  datatype Ccsr = Ccsr(n: nat, idx: seq<nat>, row: seq<nat>, col: seq<int>, val: seq<int>)

  /** Pattern p spans positions row[p] .. row[p+1]-1 of `col` and `val`. */
  predicate PatternsOk(M: Ccsr)
  {
    |M.row| >= 1 && NonDecreasing(M.row) && M.row[|M.row| - 1] == |M.col| == |M.val|
  }

  /** A matrix whose every row names an existing pattern and whose every
      entry falls in column [0, len). */
  predicate Valid(M: Ccsr, len: nat)
  {
    PatternsOk(M) && |M.idx| == M.n &&
    forall i :: 0 <= i < M.n ==>
      M.idx[i] + 1 < |M.row| &&
      forall j :: M.row[M.idx[i]] <= j < M.row[M.idx[i] + 1] ==> 0 <= i + M.col[j] < len
  }

  /** The kernels' loop `sum += val[j] * x[i + col[j]]` for row i, taken over
      pattern positions row[idx[i]] .. hi-1. */
  function PatternSum(M: Ccsr, i: nat, x: seq<int>, hi: nat): int
    requires Valid(M, |x|) && i < M.n
    requires M.row[M.idx[i]] <= hi <= M.row[M.idx[i] + 1]
    decreases hi
  {
    if hi == M.row[M.idx[i]] then 0
    else PatternSum(M, i, x, hi - 1) + M.val[hi - 1] * x[i + M.col[hi - 1]]
  }

  /** `spmv_set` (append false: y[i] = alpha * sum) or `spmv_add` (append
      true: y[i] += alpha * sum), as `SpMatCCSR::mul` selects them. */
  function CcsrProduct(M: Ccsr, x: seq<int>, y: seq<int>, alpha: int, append: bool): seq<int>
    requires Valid(M, |x|) && |y| == M.n
  {
    seq(M.n, i requires 0 <= i < M.n =>
      (if append then y[i] else 0) + alpha * PatternSum(M, i, x, M.row[M.idx[i] + 1]))
  }

  /** Pattern positions lo .. hi-1 of row i, with their offsets turned into
      absolute column numbers. */
  function Expanded(M: Ccsr, len: nat, i: nat, lo: nat, hi: nat): (e: Entries)
    requires Valid(M, len) && i < M.n
    requires M.row[M.idx[i]] <= lo <= hi <= M.row[M.idx[i] + 1]
    ensures |e.col| == |e.val| == hi - lo && ColumnsBelow(e.col, len)
  {
    assert M.row[M.idx[i] + 1] <= |M.col|;
    Entries(seq(hi - lo, t requires 0 <= t < hi - lo => (i + M.col[lo + t]) as nat), M.val[lo..hi])
  }

  /** The matrix the compressed arrays stand for, one run per row. */
  function ExpandedRows(M: Ccsr, len: nat): (rows: seq<Entries>)
    requires Valid(M, len)
    ensures |rows| == M.n && RunsBelow(rows, len)
  {
    seq(M.n, i requires 0 <= i < M.n =>
      Expanded(M, len, i, M.row[M.idx[i]], M.row[M.idx[i] + 1]))
  }

  /** The kernel's sum over a prefix of the pattern is the ordinary sum over
      the expanded run. */
  lemma {:induction false} PatternSumMeaning(M: Ccsr, i: nat, x: seq<int>, hi: nat)
    requires Valid(M, |x|) && i < M.n
    requires M.row[M.idx[i]] <= hi <= M.row[M.idx[i] + 1]
    ensures PatternSum(M, i, x, hi) ==
      Dot(Expanded(M, |x|, i, M.row[M.idx[i]], hi).col, Expanded(M, |x|, i, M.row[M.idx[i]], hi).val, x)
    decreases hi
  {
    var lo := M.row[M.idx[i]];
    if hi > lo {
      PatternSumMeaning(M, i, x, hi - 1);
      var e, e' := Expanded(M, |x|, i, lo, hi), Expanded(M, |x|, i, lo, hi - 1);
      assert e.col[..|e.col| - 1] == e'.col;
      assert e.val[..|e.val| - 1] == e'.val;
    }
  }

  /** Both CCSR kernels compute the product of the expanded matrix. */
  lemma CcsrProductMeaning(M: Ccsr, x: seq<int>, y: seq<int>, alpha: int, append: bool)
    requires Valid(M, |x|) && |y| == M.n
    ensures CcsrProduct(M, x, y, alpha, append) ==
            RowsProduct(ExpandedRows(M, |x|), x, y, alpha, append)
  {
    var rows := ExpandedRows(M, |x|);
    forall i | 0 <= i < M.n
      ensures PatternSum(M, i, x, M.row[M.idx[i] + 1]) == Dot(rows[i].col, rows[i].val, x)
    {
      PatternSumMeaning(M, i, x, M.row[M.idx[i] + 1]);
    }
  }
}
