/** The compact-row backend chosen for CPU devices (`SpMatCSR`): one device's
    rows beg .. end-1 kept as a local CSR matrix (in-range columns, shifted
    down by beg) and a remote CSR matrix (ghost columns, renumbered to their
    rank in the device's ordered ghost set). Its `spmv_set` and `spmv_add`
    kernels compute `Sparse.Product` with append false and true. */
module CsrBackend {
  import opened Sparse
  import opened SortedSet
  import opened Slices

  /** The two matrices a device uploads. `rem` is left empty when the device
      has no ghost columns. */
  datatype CsrSlice = CsrSlice(loc: Csr, rem: Csr)

  /** What the constructor guarantees: each row's entries are split, in
      order, into its local and its ghost entries, all renumbered within
      the bounds of the device's buffers. */
  predicate Holds(s: CsrSlice, A: Csr, beg: nat, end: nat, R: seq<nat>)
    requires WellFormed(A) && beg <= end <= Rows(A)
    requires Covered(A, beg, end, R, A.row[beg], A.row[end])
  {
    Stores(s.loc, LocalRows(A, beg, end)) && ColumnsBelow(s.loc.col, end - beg) &&
    (|R| > 0 ==> Stores(s.rem, RemoteRows(A, beg, end, R)) && ColumnsBelow(s.rem.col, |R|)) &&
    (|R| == 0 ==> s.rem == Csr([], [], []))
  }

  /** The `SpMatCSR` constructor for rows beg .. end-1 with ordered ghost set
      R. The caller guarantees that every out-of-range column of those rows
      is in R (the constructor's `assert(r2l.count(col[j]))`). */
  method Build(A: Csr, beg: nat, end: nat, R: seq<nat>) returns (s: CsrSlice)
    requires WellFormed(A) && beg <= end <= Rows(A)
    requires Sorted(R) && Covered(A, beg, end, R, A.row[beg], A.row[end])
    ensures Holds(s, A, beg, end, R)
    // first device without ghost columns: the global arrays, unchanged
    ensures beg == 0 && |R| == 0 ==>
      s.loc == Csr(A.row[..end + 1], A.col[..A.row[end]], A.val[..A.row[end]])
    // otherwise: the pushed arrays, whose per-row lengths add up to the row's
    ensures !(beg == 0 && |R| == 0) ==>
      s.loc.col == Local(A, beg, end, A.row[beg], A.row[end]).col &&
      s.loc.val == Local(A, beg, end, A.row[beg], A.row[end]).val
    ensures |R| > 0 ==>
      s.rem.col == Remote(A, beg, end, R, A.row[beg], A.row[end]).col &&
      s.rem.val == Remote(A, beg, end, R, A.row[beg], A.row[end]).val
    ensures |R| > 0 ==> forall k :: 0 <= k < end - beg ==>
      (s.loc.row[k + 1] - s.loc.row[k]) + (s.rem.row[k + 1] - s.rem.row[k]) ==
      A.row[beg + k + 1] - A.row[beg + k]
    // without ghost columns, every row's entries are all local
    ensures |R| == 0 ==> forall k :: 0 <= k < end - beg ==>
      s.loc.row[k + 1] - s.loc.row[k] == A.row[beg + k + 1] - A.row[beg + k]
  {
    if beg == 0 && |R| == 0 {
      var loc := Csr(A.row[..end + 1], A.col[..A.row[end]], A.val[..A.row[end]]);
      WholeStrip(A, end, R, loc);
      s := CsrSlice(loc, Csr([], [], []));
      return;
    }
    var lrow, lcol, lval, rrow, rcol, rval := PushRows(A, beg, end, R);
    var loc := Csr(lrow, lcol, lval);
    var rem := if |R| > 0 then Csr(rrow, rcol, rval) else Csr([], [], []);
    Assembled(A, beg, end, R, loc, rem);
    s := CsrSlice(loc, rem);
  }

  /** The first rows of the global matrix, when none of their columns lies
      beyond them, are their own local matrix. */
  lemma WholeStrip(A: Csr, end: nat, R: seq<nat>, loc: Csr)
    requires WellFormed(A) && end <= Rows(A)
    requires Covered(A, 0, end, R, A.row[0], A.row[end]) && |R| == 0
    requires loc == Csr(A.row[..end + 1], A.col[..A.row[end]], A.val[..A.row[end]])
    ensures Stores(loc, LocalRows(A, 0, end)) && ColumnsBelow(loc.col, end)
  {
    assert A.row[end] <= |A.col|;
    assert forall j :: 0 <= j < A.row[end] ==> A.col[j] < end;
    assert WellFormed(loc) by {
      forall i, j | 0 <= i <= j < |loc.row| ensures loc.row[i] <= loc.row[j] {
        assert loc.row[i] == A.row[i] && loc.row[j] == A.row[j];
      }
    }
    forall k | 0 <= k < end
      ensures RowEntries(loc, k) == LocalRows(A, 0, end)[k]
    {
      WholeStripRow(A, end, loc, k);
    }
  }

  lemma WholeStripRow(A: Csr, end: nat, loc: Csr, k: nat)
    requires WellFormed(A) && k < end <= Rows(A)
    requires forall j :: 0 <= j < A.row[end] ==> A.col[j] < end
    requires loc == Csr(A.row[..end + 1], A.col[..A.row[end]], A.val[..A.row[end]])
    requires WellFormed(loc)
    ensures RowEntries(loc, k) == LocalRows(A, 0, end)[k]
  {
    var lo, hi := A.row[k], A.row[k + 1];
    assert lo <= hi <= A.row[end];
    LocalOfInRange(A, end, lo, hi);
    assert loc.row[k] == lo && loc.row[k + 1] == hi;
    assert loc.col[lo..hi] == A.col[lo..hi];
    assert loc.val[lo..hi] == A.val[lo..hi];
  }

  /** The pushed arrays, assembled into the two matrices, satisfy `Holds`
      and split each row's length between them. */
  lemma Assembled(A: Csr, beg: nat, end: nat, R: seq<nat>, loc: Csr, rem: Csr)
    requires WellFormed(A) && beg <= end <= Rows(A)
    requires Covered(A, beg, end, R, A.row[beg], A.row[end])
    requires LocalPushed(A, beg, end, end, loc.row, loc.col, loc.val)
    requires |R| > 0 ==> RemotePushed(A, beg, end, R, end, 0, rem.row, rem.col, rem.val)
    requires |R| == 0 ==> rem == Csr([], [], [])
    ensures Holds(CsrSlice(loc, rem), A, beg, end, R)
    ensures |R| > 0 ==> forall k :: 0 <= k < end - beg ==>
      (loc.row[k + 1] - loc.row[k]) + (rem.row[k + 1] - rem.row[k]) ==
      A.row[beg + k + 1] - A.row[beg + k]
    ensures |R| == 0 ==> forall k :: 0 <= k < end - beg ==>
      loc.row[k + 1] - loc.row[k] == A.row[beg + k + 1] - A.row[beg + k]
  {
    LocalStored(A, beg, end, loc);
    if |R| == 0 {
      forall k | 0 <= k < end - beg
        ensures loc.row[k + 1] - loc.row[k] == A.row[beg + k + 1] - A.row[beg + k]
      {
        RemoteOfNoGhosts(A, beg, end, R, A.row[beg + k], A.row[beg + k + 1]);
        LocalConcat(A, beg, end, A.row[beg], A.row[beg + k], A.row[beg + k + 1]);
      }
    }
    if |R| > 0 {
      RemoteStored(A, beg, end, R, rem);
      forall k | 0 <= k < end - beg
        ensures (loc.row[k + 1] - loc.row[k]) + (rem.row[k + 1] - rem.row[k]) ==
                A.row[beg + k + 1] - A.row[beg + k]
      {
        LocalConcat(A, beg, end, A.row[beg], A.row[beg + k], A.row[beg + k + 1]);
        RemoteConcat(A, beg, end, R, A.row[beg], A.row[beg + k], A.row[beg + k + 1]);
      }
    }
  }

  /** The constructor's outer loop: rows beg .. end-1 pushed in order. */
  method PushRows(A: Csr, beg: nat, end: nat, R: seq<nat>)
    returns (lrow: seq<nat>, lcol: seq<nat>, lval: seq<int>,
             rrow: seq<nat>, rcol: seq<nat>, rval: seq<int>)
    requires WellFormed(A) && beg <= end <= Rows(A)
    requires Sorted(R) && Covered(A, beg, end, R, A.row[beg], A.row[end])
    ensures LocalPushed(A, beg, end, end, lrow, lcol, lval)
    ensures RemotePushed(A, beg, end, R, end, if |R| > 0 then 0 else 1, rrow, rcol, rval)
  {
    var r2l := Renumber(R);
    lrow, lcol, lval := [0], [], [];
    // rrow only starts with its leading 0 when the device has ghost columns
    rrow := if |R| > 0 then [0] else [];
    rcol, rval := [], [];
    var skip := if |R| > 0 then 0 else 1;
    var i := beg;
    while i < end
      invariant beg <= i <= end
      invariant LocalPushed(A, beg, end, i, lrow, lcol, lval)
      invariant skip == (if |R| > 0 then 0 else 1)
      invariant RemotePushed(A, beg, end, R, i, skip, rrow, rcol, rval)
    {
      LocalStep(A, beg, end, i, lrow, lcol, lval);
      RemoteStep(A, beg, end, R, i, skip, rrow, rcol, rval);
      lcol, lval, rcol, rval := PushRow(A, beg, end, R, r2l, i, lcol, lval, rcol, rval);
      lrow := lrow + [|lcol|];
      rrow := rrow + [|rcol|];
      i := i + 1;
    }
  }

  /** Rows beg .. i-1 pushed onto the local arrays: `lrow` holds the offset
      of every row start pushed so far. */
  ghost predicate LocalPushed(A: Csr, beg: nat, end: nat, i: nat,
                              lrow: seq<nat>, lcol: seq<nat>, lval: seq<int>)
    requires WellFormed(A) && beg <= i <= end <= Rows(A)
  {
    |lrow| == i - beg + 1 &&
    (forall k :: 0 <= k < |lrow| ==>
      lrow[k] == |Local(A, beg, end, A.row[beg], A.row[beg + k]).col|) &&
    lcol == Local(A, beg, end, A.row[beg], A.row[i]).col &&
    lval == Local(A, beg, end, A.row[beg], A.row[i]).val
  }

  /** Rows beg .. i-1 pushed onto the remote arrays. `skip` is 1 when the
      device has no ghost columns: `rrow` then lacks its leading 0. */
  ghost predicate RemotePushed(A: Csr, beg: nat, end: nat, R: seq<nat>, i: nat, skip: nat,
                               rrow: seq<nat>, rcol: seq<nat>, rval: seq<int>)
    requires WellFormed(A) && beg <= i <= end <= Rows(A)
    requires Covered(A, beg, end, R, A.row[beg], A.row[end])
  {
    |rrow| + skip == i - beg + 1 &&
    (forall k :: 0 <= k < |rrow| && k + skip <= i - beg ==>
      rrow[k] == |Remote(A, beg, end, R, A.row[beg], A.row[beg + k + skip]).col|) &&
    rcol == Remote(A, beg, end, R, A.row[beg], A.row[i]).col &&
    rval == Remote(A, beg, end, R, A.row[beg], A.row[i]).val
  }

  lemma LocalStep(A: Csr, beg: nat, end: nat, i: nat, lrow: seq<nat>, lcol: seq<nat>, lval: seq<int>)
    requires WellFormed(A) && beg <= i < end <= Rows(A)
    requires LocalPushed(A, beg, end, i, lrow, lcol, lval)
    ensures LocalPushed(A, beg, end, i + 1, lrow + [|Local(A, beg, end, A.row[beg], A.row[i + 1]).col|],
                        Local(A, beg, end, A.row[beg], A.row[i + 1]).col,
                        Local(A, beg, end, A.row[beg], A.row[i + 1]).val)
  {
  }

  lemma RemoteStep(A: Csr, beg: nat, end: nat, R: seq<nat>, i: nat, skip: nat,
                   rrow: seq<nat>, rcol: seq<nat>, rval: seq<int>)
    requires WellFormed(A) && beg <= i < end <= Rows(A)
    requires Covered(A, beg, end, R, A.row[beg], A.row[end])
    requires RemotePushed(A, beg, end, R, i, skip, rrow, rcol, rval)
    ensures RemotePushed(A, beg, end, R, i + 1, skip,
                   rrow + [|Remote(A, beg, end, R, A.row[beg], A.row[i + 1]).col|],
                   Remote(A, beg, end, R, A.row[beg], A.row[i + 1]).col,
                   Remote(A, beg, end, R, A.row[beg], A.row[i + 1]).val)
  {
  }

  /** The inner loop of the constructor: row i's entries pushed, in order,
      onto the local or the remote arrays. */
  method PushRow(A: Csr, beg: nat, end: nat, R: seq<nat>, r2l: map<nat, nat>, i: nat,
                 lcol0: seq<nat>, lval0: seq<int>, rcol0: seq<nat>, rval0: seq<int>)
    returns (lcol: seq<nat>, lval: seq<int>, rcol: seq<nat>, rval: seq<int>)
    requires WellFormed(A) && beg <= i < end <= Rows(A)
    requires Covered(A, beg, end, R, A.row[beg], A.row[end])
    requires r2l.Keys == Elems(R) && forall k :: 0 <= k < |R| ==> r2l[R[k]] == k
    requires lcol0 == Local(A, beg, end, A.row[beg], A.row[i]).col
    requires lval0 == Local(A, beg, end, A.row[beg], A.row[i]).val
    requires rcol0 == Remote(A, beg, end, R, A.row[beg], A.row[i]).col
    requires rval0 == Remote(A, beg, end, R, A.row[beg], A.row[i]).val
    ensures lcol == Local(A, beg, end, A.row[beg], A.row[i + 1]).col
    ensures lval == Local(A, beg, end, A.row[beg], A.row[i + 1]).val
    ensures rcol == Remote(A, beg, end, R, A.row[beg], A.row[i + 1]).col
    ensures rval == Remote(A, beg, end, R, A.row[beg], A.row[i + 1]).val
  {
    lcol, lval, rcol, rval := lcol0, lval0, rcol0, rval0;
    var j := A.row[i];
    while j < A.row[i + 1]
      invariant A.row[i] <= j <= A.row[i + 1]
      invariant lcol == Local(A, beg, end, A.row[beg], j).col
      invariant lval == Local(A, beg, end, A.row[beg], j).val
      invariant rcol == Remote(A, beg, end, R, A.row[beg], j).col
      invariant rval == Remote(A, beg, end, R, A.row[beg], j).val
    {
      if beg <= A.col[j] < end {
        lcol := lcol + [A.col[j] - beg];
        lval := lval + [A.val[j]];
      } else {
        assert r2l[R[IndexIn(R, A.col[j])]] == IndexIn(R, A.col[j]);
        rcol := rcol + [r2l[A.col[j]]];
        rval := rval + [A.val[j]];
      }
      j := j + 1;
    }
  }

  /** The pushed local arrays store the device's local runs. */
  lemma LocalStored(A: Csr, beg: nat, end: nat, loc: Csr)
    requires WellFormed(A) && beg <= end <= Rows(A)
    requires |loc.row| == end - beg + 1
    requires forall k :: 0 <= k < |loc.row| ==>
      loc.row[k] == |Local(A, beg, end, A.row[beg], A.row[beg + k]).col|
    requires loc.col == Local(A, beg, end, A.row[beg], A.row[end]).col
    requires loc.val == Local(A, beg, end, A.row[beg], A.row[end]).val
    ensures Stores(loc, LocalRows(A, beg, end))
  {
    var rows := LocalRows(A, beg, end);
    forall k | 0 <= k <= |rows| ensures loc.row[k] == |Concat(rows[..k]).col| {
      LocalPrefix(A, beg, end, k);
    }
    LocalPrefix(A, beg, end, end - beg);
    assert rows[..end - beg] == rows;
    assert loc.col == Concat(rows).col && loc.val == Concat(rows).val;
    forall k | 0 <= k < |rows| ensures |rows[k].col| == |rows[k].val| {
      var e := Local(A, beg, end, A.row[beg + k], A.row[beg + k + 1]);
      assert rows[k] == e;
    }
    StoresConcat(loc, rows);
  }

  /** The pushed remote arrays store the device's ghost runs. */
  lemma RemoteStored(A: Csr, beg: nat, end: nat, R: seq<nat>, rem: Csr)
    requires WellFormed(A) && beg <= end <= Rows(A)
    requires Covered(A, beg, end, R, A.row[beg], A.row[end])
    requires |rem.row| == end - beg + 1
    requires forall k :: 0 <= k < |rem.row| ==>
      rem.row[k] == |Remote(A, beg, end, R, A.row[beg], A.row[beg + k]).col|
    requires rem.col == Remote(A, beg, end, R, A.row[beg], A.row[end]).col
    requires rem.val == Remote(A, beg, end, R, A.row[beg], A.row[end]).val
    ensures Stores(rem, RemoteRows(A, beg, end, R))
  {
    var rows := RemoteRows(A, beg, end, R);
    forall k | 0 <= k <= |rows| ensures rem.row[k] == |Concat(rows[..k]).col| {
      RemotePrefix(A, beg, end, R, k);
    }
    RemotePrefix(A, beg, end, R, end - beg);
    assert rows[..end - beg] == rows;
    assert rem.col == Concat(rows).col && rem.val == Concat(rows).val;
    RemoteRowsBalanced(A, beg, end, R);
    StoresConcat(rem, rows);
  }

  lemma RemoteRowsBalanced(A: Csr, beg: nat, end: nat, R: seq<nat>)
    requires WellFormed(A) && beg <= end <= Rows(A)
    requires Covered(A, beg, end, R, A.row[beg], A.row[end])
    ensures forall k :: 0 <= k < end - beg ==>
      |RemoteRows(A, beg, end, R)[k].col| == |RemoteRows(A, beg, end, R)[k].val|
  {
    var rows := RemoteRows(A, beg, end, R);
    forall k | 0 <= k < end - beg ensures |rows[k].col| == |rows[k].val| {
      var e := Remote(A, beg, end, R, A.row[beg + k], A.row[beg + k + 1]);
      assert rows[k] == e;
    }
  }

  /** The `spmv_set`/`spmv_add` kernels over a matrix that stores the
      given runs compute the product over those runs. */
  lemma CsrProductMeaning(M: Csr, rows: seq<Entries>, x: seq<int>, y: seq<int>, alpha: int, append: bool)
    requires Stores(M, rows) && ColumnsBelow(M.col, |x|) && |y| == |rows|
    ensures RunsBelow(rows, |x|)
    ensures Product(M, x, y, alpha, append) == RowsProduct(rows, x, y, alpha, append)
  {
    forall k | 0 <= k < |rows|
      ensures |rows[k].col| == |rows[k].val| && ColumnsBelow(rows[k].col, |x|)
      ensures RowSum(M, k, x) == Dot(rows[k].col, rows[k].val, x)
    {
      assert RowEntries(M, k) == rows[k];
      assert M.row[k] <= M.row[k + 1] <= |M.col|;
    }
  }
}
