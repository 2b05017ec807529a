/** The padded backend chosen for devices other than CPUs (`SpMatELL`).
    Row k's j-th entry of the device's local (or ghost) part is stored at
    slot k + pitch*j of a column-major array of pitch*w slots, where w is
    the largest number of local (or ghost) entries in any row; the other
    slots hold the column sentinel `NCOL` with value 0. */
module EllBackend {
  import opened Sparse
  import opened SortedSet
  import opened Slices

  /** The column sentinel of unused slots, `(column_t)(-1)`. */
  const NCOL: int := -1

  /** Rows are padded to a multiple of this. */
  const ALIGN: nat := 16

  /** `alignup(n, 16)`: the multiple of 16 that is at least n and less
      than n + 16. */
  function AlignUp(n: nat): (r: nat)
    ensures n <= r < n + ALIGN && r % ALIGN == 0
  {
    if n % ALIGN == 0 then n else n - n % ALIGN + ALIGN
  }

  /** The slot of row k's j-th entry. */
  function Slot(pitch: nat, k: nat, j: nat): nat
  {
    k + pitch * j
  }

  /** Every slot of the first w columns lies below pitch*w. */
  lemma SlotBound(pitch: nat, w: nat, k: nat, j: nat)
    requires k < pitch && j < w
    ensures Slot(pitch, k, j) < pitch * w
  {
    assert pitch * j + pitch == pitch * (j + 1) <= pitch * w;
  }

  /** Distinct (row, position) pairs occupy distinct slots. */
  lemma SlotDistinct(pitch: nat, k: nat, j: nat, k': nat, j': nat)
    requires k < pitch && k' < pitch && (k != k' || j != j')
    ensures Slot(pitch, k, j) != Slot(pitch, k', j')
  {
    if j < j' {
      assert pitch * j + pitch == pitch * (j + 1) <= pitch * j';
    } else if j' < j {
      assert pitch * j' + pitch == pitch * (j' + 1) <= pitch * j;
    }
  }

  /** The largest of the counts, 0 when there are none. */
  predicate IsWidth(w: nat, counts: seq<int>)
  {
    (forall k :: 0 <= k < |counts| ==> counts[k] <= w) &&
    (w == 0 || exists k :: 0 <= k < |counts| && counts[k] == w)
  }

  /** Number of local entries of row i. */
  function LocalCount(A: Csr, beg: nat, end: nat, i: nat): nat
    requires WellFormed(A) && beg <= end && i < Rows(A)
  {
    |Local(A, beg, end, A.row[i], A.row[i + 1]).col|
  }

  /** Number of non-local entries of row i. */
  function RemoteCount(A: Csr, beg: nat, end: nat, i: nat): nat
    requires WellFormed(A) && beg <= end && i < Rows(A)
  {
    (A.row[i + 1] - A.row[i]) - LocalCount(A, beg, end, i)
  }

  /** The local entry counts of rows beg .. end-1. */
  function LocalCounts(A: Csr, beg: nat, end: nat): (c: seq<int>)
    requires WellFormed(A) && beg <= end <= Rows(A)
    ensures |c| == end - beg
  {
    seq(end - beg, k requires 0 <= k < end - beg => LocalCount(A, beg, end, beg + k))
  }

  /** The non-local entry counts of rows beg .. end-1. */
  function RemoteCounts(A: Csr, beg: nat, end: nat): (c: seq<int>)
    requires WellFormed(A) && beg <= end <= Rows(A)
    ensures |c| == end - beg
  {
    seq(end - beg, k requires 0 <= k < end - beg => RemoteCount(A, beg, end, beg + k))
  }

  /** Taking the larger of a running maximum and a new count. */
  lemma WidthSnoc(w: nat, counts: seq<int>, c: nat)
    requires IsWidth(w, counts)
    ensures IsWidth(if w < c then c else w, counts + [c])
  {
    var counts' := counts + [c];
    if w < c {
      assert counts'[|counts|] == c;
    } else if w > 0 {
      var k :| 0 <= k < |counts| && counts[k] == w;
      assert counts'[k] == w;
    }
  }

  /** The first loop of the constructor: the running maxima `loc.w` and
      `rem.w` of the per-row local and non-local entry counts. */
  method Widths(A: Csr, beg: nat, end: nat) returns (lw: nat, rw: nat)
    requires WellFormed(A) && beg <= end <= Rows(A)
    ensures IsWidth(lw, LocalCounts(A, beg, end))
    ensures IsWidth(rw, RemoteCounts(A, beg, end))
  {
    ghost var lc, rc := LocalCounts(A, beg, end), RemoteCounts(A, beg, end);
    lw, rw := 0, 0;
    var i := beg;
    while i < end
      invariant beg <= i <= end
      invariant IsWidth(lw, lc[..i - beg]) && IsWidth(rw, rc[..i - beg])
    {
      var w := 0;
      var j := A.row[i];
      while j < A.row[i + 1]
        invariant A.row[i] <= j <= A.row[i + 1]
        invariant w == |Local(A, beg, end, A.row[i], j).col|
      {
        if A.col[j] >= beg && A.col[j] < end {
          w := w + 1;
        }
        j := j + 1;
      }
      assert w == LocalCount(A, beg, end, i);
      assert lc[i - beg] == LocalCount(A, beg, end, i);
      assert lc[i - beg] == w;
      assert lc[..i + 1 - beg] == lc[..i - beg] + [w];
      var r := (A.row[i + 1] - A.row[i]) - w;
      assert rc[i - beg] == RemoteCount(A, beg, end, i);
      assert rc[..i + 1 - beg] == rc[..i - beg] + [r];
      WidthSnoc(lw, lc[..i - beg], w);
      WidthSnoc(rw, rc[..i - beg], r);
      lw := if lw < w then w else lw;
      rw := if rw < r then r else rw;
      i := i + 1;
    }
    assert lc[..end - beg] == lc && rc[..end - beg] == rc;
  }

  /** Slot (k, j) holds row k's j-th entry when there is one, and the
      sentinel with value 0 otherwise. */
  predicate CellOk(col: seq<int>, val: seq<int>, pitch: nat, rows: seq<Entries>, k: nat, j: nat)
  {
    Slot(pitch, k, j) < |col| == |val| &&
    if k < |rows| && j < |rows[k].col| && j < |rows[k].val| then
      col[Slot(pitch, k, j)] == rows[k].col[j] && val[Slot(pitch, k, j)] == rows[k].val[j]
    else
      col[Slot(pitch, k, j)] == NCOL && val[Slot(pitch, k, j)] == 0
  }

  /** The padded arrays hold exactly the given runs, row k's run in slots
      k, k + pitch, k + 2*pitch, ... */
  predicate Layout(col: seq<int>, val: seq<int>, pitch: nat, w: nat, rows: seq<Entries>)
  {
    |col| == |val| == pitch * w && |rows| <= pitch &&
    (forall k :: 0 <= k < |rows| ==> |rows[k].col| == |rows[k].val| <= w) &&
    forall k, j :: 0 <= k < pitch && 0 <= j < w ==> CellOk(col, val, pitch, rows, k, j)
  }

  /** Freshly allocated arrays: every slot holds the sentinel. */
  lemma LayoutEmpty(col: seq<int>, val: seq<int>, pitch: nat, w: nat)
    requires |col| == |val| == pitch * w
    requires forall s :: 0 <= s < |col| ==> col[s] == NCOL && val[s] == 0
    ensures Layout(col, val, pitch, w, [])
  {
    forall k, j | 0 <= k < pitch && 0 <= j < w ensures CellOk(col, val, pitch, [], k, j) {
      SlotBound(pitch, w, k, j);
    }
  }

  /** Starting a new row changes no slot. */
  lemma LayoutNewRow(col: seq<int>, val: seq<int>, pitch: nat, w: nat, rows: seq<Entries>)
    requires Layout(col, val, pitch, w, rows) && |rows| < pitch
    ensures Layout(col, val, pitch, w, rows + [NoEntries])
  {
    var rows' := rows + [NoEntries];
    forall k, j | 0 <= k < pitch && 0 <= j < w ensures CellOk(col, val, pitch, rows', k, j) {
      assert CellOk(col, val, pitch, rows, k, j);
    }
  }

  /** Writing the next entry of the last row into its slot. */
  lemma LayoutPush(col: seq<int>, val: seq<int>, pitch: nat, w: nat, rows: seq<Entries>, c: nat, v: int)
    requires Layout(col, val, pitch, w, rows) && |rows| > 0
    requires |rows[|rows| - 1].col| < w
    ensures Slot(pitch, |rows| - 1, |rows[|rows| - 1].col|) < |col|
    ensures Layout(col[Slot(pitch, |rows| - 1, |rows[|rows| - 1].col|) := c],
                   val[Slot(pitch, |rows| - 1, |rows[|rows| - 1].col|) := v],
                   pitch, w, rows[..|rows| - 1] + [rows[|rows| - 1].Append(Entries([c], [v]))])
  {
    var last := |rows| - 1;
    var e := rows[last];
    var lc := |e.col|;
    SlotBound(pitch, w, last, lc);
    var s := Slot(pitch, last, lc);
    var col', val' := col[s := c], val[s := v];
    var rows' := rows[..last] + [e.Append(Entries([c], [v]))];
    forall k, j | 0 <= k < pitch && 0 <= j < w ensures CellOk(col', val', pitch, rows', k, j) {
      assert CellOk(col, val, pitch, rows, k, j);
      if k != last || j != lc {
        SlotDistinct(pitch, k, j, last, lc);
        assert col'[Slot(pitch, k, j)] == col[Slot(pitch, k, j)];
        assert val'[Slot(pitch, k, j)] == val[Slot(pitch, k, j)];
        if k == last && j < lc {
          assert rows'[k].col[j] == e.col[j] && rows'[k].val[j] == e.val[j];
        }
      }
    }
  }

  /** One part (local or ghost) of a device's padded matrix. */
  datatype EllPart = EllPart(w: nat, col: seq<int>, val: seq<int>)

  /** What the constructor uploads: the number of rows, the padded row
      count `pitch` and the two parts. */
  datatype Ell = Ell(n: nat, pitch: nat, loc: EllPart, rem: EllPart)

  /** The layout predicate the constructor establishes. */
  predicate Holds(m: Ell, A: Csr, beg: nat, end: nat, R: seq<nat>)
    requires WellFormed(A) && beg <= end <= Rows(A)
    requires Covered(A, beg, end, R, A.row[beg], A.row[end])
  {
    m.n == end - beg && m.pitch == AlignUp(end - beg) &&
    IsWidth(m.loc.w, LocalCounts(A, beg, end)) &&
    IsWidth(m.rem.w, RemoteCounts(A, beg, end)) &&
    Layout(m.loc.col, m.loc.val, m.pitch, m.loc.w, LocalRows(A, beg, end)) &&
    Layout(m.rem.col, m.rem.val, m.pitch, m.rem.w, RemoteRows(A, beg, end, R))
  }

  /** The rows laid out so far while filling row i (the k-th of the
      device) up to entry j. */
  function LocalSoFar(A: Csr, beg: nat, end: nat, i: nat, j: nat): seq<Entries>
    requires WellFormed(A) && beg <= i < end <= Rows(A) && A.row[i] <= j <= A.row[i + 1]
  {
    LocalRows(A, beg, end)[..i - beg] + [Local(A, beg, end, A.row[i], j)]
  }

  function RemoteSoFar(A: Csr, beg: nat, end: nat, R: seq<nat>, i: nat, j: nat): seq<Entries>
    requires WellFormed(A) && beg <= i < end <= Rows(A) && A.row[i] <= j <= A.row[i + 1]
    requires Covered(A, beg, end, R, A.row[beg], A.row[end])
  {
    RemoteRows(A, beg, end, R)[..i - beg] + [Remote(A, beg, end, R, A.row[i], j)]
  }

  /** The second loop of the constructor, for row i: its entries are
      written, in order, to the next free slot of the row in the local or
      the ghost arrays, ghost columns renumbered by `r2l`. */
  method FillRow(A: Csr, beg: nat, end: nat, R: seq<nat>, r2l: map<nat, nat>, i: nat,
                 pitch: nat, lw: nat, rw: nat,
                 lcol: array<int>, lval: array<int>, rcol: array<int>, rval: array<int>)
    requires WellFormed(A) && beg <= i < end <= Rows(A) && end - beg <= pitch
    requires Covered(A, beg, end, R, A.row[beg], A.row[end])
    requires r2l.Keys == Elems(R) && forall k :: 0 <= k < |R| ==> r2l[R[k]] == k
    requires IsWidth(lw, LocalCounts(A, beg, end)) && IsWidth(rw, RemoteCounts(A, beg, end))
    requires lcol != lval && lcol != rcol && lcol != rval && lval != rcol && lval != rval && rcol != rval
    requires Layout(lcol[..], lval[..], pitch, lw, LocalSoFar(A, beg, end, i, A.row[i]))
    requires Layout(rcol[..], rval[..], pitch, rw, RemoteSoFar(A, beg, end, R, i, A.row[i]))
    modifies lcol, lval, rcol, rval
    ensures Layout(lcol[..], lval[..], pitch, lw, LocalSoFar(A, beg, end, i, A.row[i + 1]))
    ensures Layout(rcol[..], rval[..], pitch, rw, RemoteSoFar(A, beg, end, R, i, A.row[i + 1]))
  {
    var k := i - beg;
    var j, lc, rc := A.row[i], 0, 0;
    while j < A.row[i + 1]
      invariant A.row[i] <= j <= A.row[i + 1]
      invariant lc == |Local(A, beg, end, A.row[i], j).col|
      invariant rc == |Remote(A, beg, end, R, A.row[i], j).col|
      invariant Layout(lcol[..], lval[..], pitch, lw, LocalSoFar(A, beg, end, i, j))
      invariant Layout(rcol[..], rval[..], pitch, rw, RemoteSoFar(A, beg, end, R, i, j))
    {
      if A.col[j] >= beg && A.col[j] < end {
        LocalPushStep(A, beg, end, R, i, j, pitch, lw, lcol[..], lval[..]);
        ghost var c0, v0 := lcol[..], lval[..];
        lcol[k + pitch * lc] := A.col[j] - beg;
        lval[k + pitch * lc] := A.val[j];
        assert lcol[..] == c0[Slot(pitch, k, lc) := A.col[j] - beg];
        assert lval[..] == v0[Slot(pitch, k, lc) := A.val[j]];
        lc := lc + 1;
      } else {
        RemotePushStep(A, beg, end, R, i, j, pitch, rw, rcol[..], rval[..]);
        assert r2l[R[IndexIn(R, A.col[j])]] == IndexIn(R, A.col[j]);
        ghost var c0, v0 := rcol[..], rval[..];
        rcol[k + pitch * rc] := r2l[A.col[j]];
        rval[k + pitch * rc] := A.val[j];
        assert rcol[..] == c0[Slot(pitch, k, rc) := IndexIn(R, A.col[j])];
        assert rval[..] == v0[Slot(pitch, k, rc) := A.val[j]];
        rc := rc + 1;
      }
      j := j + 1;
    }
  }

  /** A local entry goes to the next free slot of its row in the local
      arrays; the ghost arrays' rows are unchanged. */
  lemma LocalPushStep(A: Csr, beg: nat, end: nat, R: seq<nat>, i: nat, j: nat,
                      pitch: nat, lw: nat, col: seq<int>, val: seq<int>)
    requires WellFormed(A) && beg <= i < end <= Rows(A) && A.row[i] <= j < A.row[i + 1]
    requires Covered(A, beg, end, R, A.row[beg], A.row[end])
    requires InRange(A.col[j], beg, end)
    requires IsWidth(lw, LocalCounts(A, beg, end))
    requires Layout(col, val, pitch, lw, LocalSoFar(A, beg, end, i, j))
    ensures Slot(pitch, i - beg, |Local(A, beg, end, A.row[i], j).col|) < |col|
    ensures Layout(col[Slot(pitch, i - beg, |Local(A, beg, end, A.row[i], j).col|) := A.col[j] - beg],
                   val[Slot(pitch, i - beg, |Local(A, beg, end, A.row[i], j).col|) := A.val[j]],
                   pitch, lw, LocalSoFar(A, beg, end, i, j + 1))
    ensures RemoteSoFar(A, beg, end, R, i, j + 1) == RemoteSoFar(A, beg, end, R, i, j)
  {
    var rows := LocalSoFar(A, beg, end, i, j);
    LocalSlotFree(A, beg, end, i, j, lw);
    LocalSoFarStep(A, beg, end, i, j);
    LayoutPush(col, val, pitch, lw, rows, A.col[j] - beg, A.val[j]);
  }

  /** The next local entry of row i has a free slot. */
  lemma LocalSlotFree(A: Csr, beg: nat, end: nat, i: nat, j: nat, lw: nat)
    requires WellFormed(A) && beg <= i < end <= Rows(A) && A.row[i] <= j < A.row[i + 1]
    requires InRange(A.col[j], beg, end)
    requires IsWidth(lw, LocalCounts(A, beg, end))
    ensures |Local(A, beg, end, A.row[i], j).col| < lw
  {
    LocalBefore(A, beg, end, A.row[i], j, A.row[i + 1]);
    assert LocalCounts(A, beg, end)[i - beg] == LocalCount(A, beg, end, i) <= lw;
  }

  /** Pushing a local entry extends the last run of the rows so far. */
  lemma LocalSoFarStep(A: Csr, beg: nat, end: nat, i: nat, j: nat)
    requires WellFormed(A) && beg <= i < end <= Rows(A) && A.row[i] <= j < A.row[i + 1]
    requires InRange(A.col[j], beg, end)
    ensures |LocalSoFar(A, beg, end, i, j)| == i - beg + 1
    ensures LocalSoFar(A, beg, end, i, j)[i - beg] == Local(A, beg, end, A.row[i], j)
    ensures LocalSoFar(A, beg, end, i, j + 1) ==
      LocalSoFar(A, beg, end, i, j)[..i - beg] +
      [Local(A, beg, end, A.row[i], j).Append(Entries([A.col[j] - beg], [A.val[j]]))]
  {
    var rows := LocalSoFar(A, beg, end, i, j);
    assert rows[..i - beg] == LocalRows(A, beg, end)[..i - beg];
  }

  /** A ghost entry goes to the next free slot of its row in the ghost
      arrays; the local arrays' rows are unchanged. */
  lemma RemotePushStep(A: Csr, beg: nat, end: nat, R: seq<nat>, i: nat, j: nat,
                       pitch: nat, rw: nat, col: seq<int>, val: seq<int>)
    requires WellFormed(A) && beg <= i < end <= Rows(A) && A.row[i] <= j < A.row[i + 1]
    requires Covered(A, beg, end, R, A.row[beg], A.row[end])
    requires !InRange(A.col[j], beg, end)
    requires IsWidth(rw, RemoteCounts(A, beg, end))
    requires Layout(col, val, pitch, rw, RemoteSoFar(A, beg, end, R, i, j))
    ensures Slot(pitch, i - beg, |Remote(A, beg, end, R, A.row[i], j).col|) < |col|
    ensures Layout(col[Slot(pitch, i - beg, |Remote(A, beg, end, R, A.row[i], j).col|) := IndexIn(R, A.col[j])],
                   val[Slot(pitch, i - beg, |Remote(A, beg, end, R, A.row[i], j).col|) := A.val[j]],
                   pitch, rw, RemoteSoFar(A, beg, end, R, i, j + 1))
    ensures LocalSoFar(A, beg, end, i, j + 1) == LocalSoFar(A, beg, end, i, j)
  {
    var rows := RemoteSoFar(A, beg, end, R, i, j);
    RemoteSlotFree(A, beg, end, R, i, j, rw);
    RemoteSoFarStep(A, beg, end, R, i, j);
    LayoutPush(col, val, pitch, rw, rows, IndexIn(R, A.col[j]), A.val[j]);
  }

  /** The next ghost entry of row i has a free slot. */
  lemma RemoteSlotFree(A: Csr, beg: nat, end: nat, R: seq<nat>, i: nat, j: nat, rw: nat)
    requires WellFormed(A) && beg <= i < end <= Rows(A) && A.row[i] <= j < A.row[i + 1]
    requires Covered(A, beg, end, R, A.row[beg], A.row[end])
    requires !InRange(A.col[j], beg, end)
    requires IsWidth(rw, RemoteCounts(A, beg, end))
    ensures |Remote(A, beg, end, R, A.row[i], j).col| < rw
  {
    var lo, hi := A.row[i], A.row[i + 1];
    assert A.row[beg] <= lo <= hi <= A.row[end];
    RemoteBefore(A, beg, end, R, lo, j, hi);
    assert |Remote(A, beg, end, R, lo, hi).col| == RemoteCount(A, beg, end, i);
    assert RemoteCounts(A, beg, end)[i - beg] <= rw;
  }

  /** Pushing a ghost entry extends the last run of the rows so far. */
  lemma RemoteSoFarStep(A: Csr, beg: nat, end: nat, R: seq<nat>, i: nat, j: nat)
    requires WellFormed(A) && beg <= i < end <= Rows(A) && A.row[i] <= j < A.row[i + 1]
    requires Covered(A, beg, end, R, A.row[beg], A.row[end])
    requires !InRange(A.col[j], beg, end)
    ensures |RemoteSoFar(A, beg, end, R, i, j)| == i - beg + 1
    ensures RemoteSoFar(A, beg, end, R, i, j)[i - beg] == Remote(A, beg, end, R, A.row[i], j)
    ensures RemoteSoFar(A, beg, end, R, i, j + 1) ==
      RemoteSoFar(A, beg, end, R, i, j)[..i - beg] +
      [Remote(A, beg, end, R, A.row[i], j).Append(Entries([IndexIn(R, A.col[j])], [A.val[j]]))]
  {
    var rows := RemoteSoFar(A, beg, end, R, i, j);
    assert rows[..i - beg] == RemoteRows(A, beg, end, R)[..i - beg];
  }

  /** The `SpMatELL` constructor for rows beg .. end-1 with ordered ghost
      set R: widths first, then sentinel-filled arrays of pitch*w slots,
      then every row's entries written to their slots. */
  method Build(A: Csr, beg: nat, end: nat, R: seq<nat>) returns (m: Ell)
    requires WellFormed(A) && beg <= end <= Rows(A)
    requires Sorted(R) && Covered(A, beg, end, R, A.row[beg], A.row[end])
    ensures Holds(m, A, beg, end, R)
  {
    var n := end - beg;
    var pitch := AlignUp(n);
    var lw, rw := Widths(A, beg, end);
    var lcol, lval := Sentinels(pitch, lw);
    var rcol, rval := Sentinels(pitch, rw);
    var r2l := Renumber(R);
    FillRows(A, beg, end, R, r2l, pitch, lw, rw, lcol, lval, rcol, rval);
    m := Ell(n, pitch, EllPart(lw, lcol[..], lval[..]), EllPart(rw, rcol[..], rval[..]));
  }

  /** A part's arrays as allocated: pitch*w slots, columns `NCOL` and
      values 0. */
  method Sentinels(pitch: nat, w: nat) returns (col: array<int>, val: array<int>)
    ensures fresh(col) && fresh(val) && col != val && col.Length == val.Length == pitch * w
    ensures forall s :: 0 <= s < col.Length ==> col[s] == NCOL && val[s] == 0
    ensures Layout(col[..], val[..], pitch, w, [])
  {
    col := new int[pitch * w](_ => NCOL);
    val := new int[pitch * w](_ => 0);
    LayoutEmpty(col[..], val[..], pitch, w);
  }

  /** The constructor's loop over the device's rows. */
  method FillRows(A: Csr, beg: nat, end: nat, R: seq<nat>, r2l: map<nat, nat>,
                  pitch: nat, lw: nat, rw: nat,
                  lcol: array<int>, lval: array<int>, rcol: array<int>, rval: array<int>)
    requires WellFormed(A) && beg <= end <= Rows(A) && end - beg <= pitch
    requires Covered(A, beg, end, R, A.row[beg], A.row[end])
    requires r2l.Keys == Elems(R) && forall k :: 0 <= k < |R| ==> r2l[R[k]] == k
    requires IsWidth(lw, LocalCounts(A, beg, end)) && IsWidth(rw, RemoteCounts(A, beg, end))
    requires lcol != lval && lcol != rcol && lcol != rval && lval != rcol && lval != rval && rcol != rval
    requires Layout(lcol[..], lval[..], pitch, lw, [])
    requires Layout(rcol[..], rval[..], pitch, rw, [])
    modifies lcol, lval, rcol, rval
    ensures Layout(lcol[..], lval[..], pitch, lw, LocalRows(A, beg, end))
    ensures Layout(rcol[..], rval[..], pitch, rw, RemoteRows(A, beg, end, R))
  {
    assert LocalRows(A, beg, end)[..0] == [];
    assert RemoteRows(A, beg, end, R)[..0] == [];
    var i := beg;
    while i < end
      invariant beg <= i <= end
      invariant Layout(lcol[..], lval[..], pitch, lw, LocalRows(A, beg, end)[..i - beg])
      invariant Layout(rcol[..], rval[..], pitch, rw, RemoteRows(A, beg, end, R)[..i - beg])
    {
      NextRow(A, beg, end, R, i, pitch, lw, rw, lcol[..], lval[..], rcol[..], rval[..]);
      FillRow(A, beg, end, R, r2l, i, pitch, lw, rw, lcol, lval, rcol, rval);
      RowDone(A, beg, end, R, i);
      i := i + 1;
    }
    assert LocalRows(A, beg, end)[..end - beg] == LocalRows(A, beg, end);
    assert RemoteRows(A, beg, end, R)[..end - beg] == RemoteRows(A, beg, end, R);
  }

  /** Moving to row i starts an empty run in both layouts. */
  lemma NextRow(A: Csr, beg: nat, end: nat, R: seq<nat>, i: nat, pitch: nat, lw: nat, rw: nat,
                lcol: seq<int>, lval: seq<int>, rcol: seq<int>, rval: seq<int>)
    requires WellFormed(A) && beg <= i < end <= Rows(A) && end - beg <= pitch
    requires Covered(A, beg, end, R, A.row[beg], A.row[end])
    requires Layout(lcol, lval, pitch, lw, LocalRows(A, beg, end)[..i - beg])
    requires Layout(rcol, rval, pitch, rw, RemoteRows(A, beg, end, R)[..i - beg])
    ensures Layout(lcol, lval, pitch, lw, LocalSoFar(A, beg, end, i, A.row[i]))
    ensures Layout(rcol, rval, pitch, rw, RemoteSoFar(A, beg, end, R, i, A.row[i]))
  {
    LayoutNewRow(lcol, lval, pitch, lw, LocalRows(A, beg, end)[..i - beg]);
    LayoutNewRow(rcol, rval, pitch, rw, RemoteRows(A, beg, end, R)[..i - beg]);
  }

  /** After its last entry, row i's runs are complete. */
  lemma RowDone(A: Csr, beg: nat, end: nat, R: seq<nat>, i: nat)
    requires WellFormed(A) && beg <= i < end <= Rows(A)
    requires Covered(A, beg, end, R, A.row[beg], A.row[end])
    ensures LocalSoFar(A, beg, end, i, A.row[i + 1]) == LocalRows(A, beg, end)[..i + 1 - beg]
    ensures RemoteSoFar(A, beg, end, R, i, A.row[i + 1]) == RemoteRows(A, beg, end, R)[..i + 1 - beg]
  {
    var k := i - beg;
    assert LocalRows(A, beg, end)[..k + 1] == LocalRows(A, beg, end)[..k] + [LocalRows(A, beg, end)[k]];
    assert RemoteRows(A, beg, end, R)[..k + 1] == RemoteRows(A, beg, end, R)[..k] + [RemoteRows(A, beg, end, R)[k]];
  }

  /** Every slot of row k holds the sentinel or a column below m. */
  predicate RowColumnsBelow(p: EllPart, pitch: nat, k: nat, m: nat)
  {
    forall j :: 0 <= j < p.w ==>
      Slot(pitch, k, j) < |p.col| &&
      (p.col[Slot(pitch, k, j)] == NCOL || 0 <= p.col[Slot(pitch, k, j)] < m)
  }

  /** The ELL kernels' inner loop over the first j slots of row k: slots
      holding `NCOL` are skipped, the others add val * x[col]. */
  function EllDot(p: EllPart, pitch: nat, k: nat, x: seq<int>, j: nat): int
    requires |p.col| == |p.val| == pitch * p.w && k < pitch && j <= p.w
    requires RowColumnsBelow(p, pitch, k, |x|)
  {
    if j == 0 then 0
    else
      SlotBound(pitch, p.w, k, j - 1);
      var s := Slot(pitch, k, j - 1);
      EllDot(p, pitch, k, x, j - 1) + (if p.col[s] != NCOL then p.val[s] * x[p.col[s]] else 0)
  }

  /** In a laid-out part, the kernel's sum over row k's slots is the sum
      over row k's run. */
  lemma {:induction false} EllRowMeaning(p: EllPart, pitch: nat, rows: seq<Entries>, k: nat, x: seq<int>, j: nat)
    requires Layout(p.col, p.val, pitch, p.w, rows) && k < |rows| && j <= p.w
    requires ColumnsBelow(rows[k].col, |x|)
    ensures RowColumnsBelow(p, pitch, k, |x|)
    ensures var t := if j < |rows[k].col| then j else |rows[k].col|;
      EllDot(p, pitch, k, x, j) == Dot(rows[k].col[..t], rows[k].val[..t], x)
  {
    var e := rows[k];
    forall j' | 0 <= j' < p.w
      ensures Slot(pitch, k, j') < |p.col|
      ensures p.col[Slot(pitch, k, j')] == NCOL || 0 <= p.col[Slot(pitch, k, j')] < |x|
    {
      assert CellOk(p.col, p.val, pitch, rows, k, j');
    }
    if j > 0 {
      EllRowMeaning(p, pitch, rows, k, x, j - 1);
      assert CellOk(p.col, p.val, pitch, rows, k, j - 1);
      if j <= |e.col| {
        assert e.col[..j][..j - 1] == e.col[..j - 1];
        assert e.val[..j][..j - 1] == e.val[..j - 1];
      }
    }
  }

  /** `spmv_set` (append false) or `spmv_add` (append true) over one part
      of a device's padded matrix: y[k] = alpha * sum, or y[k] += alpha * sum. */
  function EllProduct(p: EllPart, pitch: nat, n: nat, x: seq<int>, y: seq<int>, alpha: int, append: bool): seq<int>
    requires |p.col| == |p.val| == pitch * p.w && n <= pitch && |y| == n
    requires forall k :: 0 <= k < n ==> RowColumnsBelow(p, pitch, k, |x|)
  {
    seq(n, k requires 0 <= k < n => (if append then y[k] else 0) + alpha * EllDot(p, pitch, k, x, p.w))
  }

  /** The kernel over a laid-out part computes the product over its runs. */
  lemma EllProductMeaning(p: EllPart, pitch: nat, rows: seq<Entries>, x: seq<int>, y: seq<int>, alpha: int, append: bool)
    requires Layout(p.col, p.val, pitch, p.w, rows) && |y| == |rows| && RunsBelow(rows, |x|)
    ensures forall k :: 0 <= k < |rows| ==> RowColumnsBelow(p, pitch, k, |x|)
    ensures EllProduct(p, pitch, |rows|, x, y, alpha, append) == RowsProduct(rows, x, y, alpha, append)
  {
    forall k | 0 <= k < |rows|
      ensures RowColumnsBelow(p, pitch, k, |x|)
      ensures EllDot(p, pitch, k, x, p.w) == Dot(rows[k].col, rows[k].val, x)
    {
      EllRowMeaning(p, pitch, rows, k, x, p.w);
      assert rows[k].col[..|rows[k].col|] == rows[k].col;
      assert rows[k].val[..|rows[k].val|] == rows[k].val;
    }
  }
}
