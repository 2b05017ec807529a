/** How one device sees a run of non-zeros of the global matrix: the entries
    whose columns fall in its own row range [beg, end) ("local", renumbered
    from beg) and the others ("remote" or ghost entries, renumbered to their
    rank in the device's ordered set of ghost columns R). */
module Slices {
  import opened Sparse
  import opened SortedSet

  /** Column numbers and values of a run of non-zeros, in order. */
  datatype Entries = Entries(col: seq<nat>, val: seq<int>)
  {
    function Append(e: Entries): Entries
    {
      Entries(col + e.col, val + e.val)
    }
  }

  const NoEntries := Entries([], [])

  predicate InRange(c: nat, beg: nat, end: nat)
  {
    beg <= c < end
  }

  /** Non-zeros lo .. hi-1 of A whose columns lie in [beg, end), each column
      shifted down by beg. */
  function Local(A: Csr, beg: nat, end: nat, lo: nat, hi: nat): (e: Entries)
    requires beg <= end && lo <= hi <= |A.col| == |A.val|
    ensures |e.col| == |e.val| <= hi - lo
    ensures ColumnsBelow(e.col, end - beg)
    decreases hi
  {
    if lo == hi then NoEntries
    else
      var e := Local(A, beg, end, lo, hi - 1);
      if InRange(A.col[hi - 1], beg, end)
      then Entries(e.col + [A.col[hi - 1] - beg], e.val + [A.val[hi - 1]])
      else e
  }

  /** Every column of non-zeros lo .. hi-1 outside [beg, end) belongs to R. */
  predicate Covered(A: Csr, beg: nat, end: nat, R: seq<nat>, lo: nat, hi: nat)
    requires lo <= hi <= |A.col|
  {
    forall j :: lo <= j < hi && !InRange(A.col[j], beg, end) ==> A.col[j] in R
  }

  /** Non-zeros lo .. hi-1 of A whose columns lie outside [beg, end), each
      column replaced by its position in R. */
  function Remote(A: Csr, beg: nat, end: nat, R: seq<nat>, lo: nat, hi: nat): (e: Entries)
    requires beg <= end && lo <= hi <= |A.col| == |A.val|
    requires Covered(A, beg, end, R, lo, hi)
    ensures |e.col| == |e.val|
    ensures |e.col| + |Local(A, beg, end, lo, hi).col| == hi - lo
    ensures ColumnsBelow(e.col, |R|)
    decreases hi
  {
    if lo == hi then NoEntries
    else
      var e := Remote(A, beg, end, R, lo, hi - 1);
      if InRange(A.col[hi - 1], beg, end) then e
      else Entries(e.col + [IndexIn(R, A.col[hi - 1])], e.val + [A.val[hi - 1]])
  }

  /** The distinct columns outside [beg, end) among non-zeros lo .. hi-1. */
  function Outside(A: Csr, beg: nat, end: nat, lo: nat, hi: nat): set<nat>
    requires lo <= hi <= |A.col|
    decreases hi
  {
    if lo == hi then {}
    else Outside(A, beg, end, lo, hi - 1) +
         (if InRange(A.col[hi - 1], beg, end) then {} else {A.col[hi - 1]})
  }

  /** c is one of these columns exactly when some non-zero in the run has
      column c outside [beg, end). */
  lemma {:induction false} OutsideMembers(A: Csr, beg: nat, end: nat, lo: nat, hi: nat, c: nat)
    requires lo <= hi <= |A.col|
    ensures c in Outside(A, beg, end, lo, hi) <==>
            exists j :: lo <= j < hi && !InRange(A.col[j], beg, end) && A.col[j] == c
    decreases hi
  {
    if lo < hi {
      OutsideMembers(A, beg, end, lo, hi - 1, c);
    }
  }

  /** An ordered set holding all these columns covers every ghost entry of
      the run, and so of every run inside it. */
  lemma OutsideCovered(A: Csr, beg: nat, end: nat, R: seq<nat>, lo: nat, hi: nat)
    requires lo <= hi <= |A.col|
    requires Outside(A, beg, end, lo, hi) <= Elems(R)
    ensures Covered(A, beg, end, R, lo, hi)
  {
    forall j | lo <= j < hi && !InRange(A.col[j], beg, end)
      ensures A.col[j] in R
    {
      OutsideMembers(A, beg, end, lo, hi, A.col[j]);
      assert A.col[j] in Elems(R);
    }
  }

  /** The local entries of a run are those of its two halves, in order. */
  lemma {:induction false} LocalConcat(A: Csr, beg: nat, end: nat, lo: nat, mid: nat, hi: nat)
    requires beg <= end && lo <= mid <= hi <= |A.col| == |A.val|
    ensures Local(A, beg, end, lo, hi) ==
            Local(A, beg, end, lo, mid).Append(Local(A, beg, end, mid, hi))
    decreases hi
  {
    if hi == mid {
      var e := Local(A, beg, end, lo, mid);
      assert e.col + [] == e.col && e.val + [] == e.val;
    } else {
      LocalConcat(A, beg, end, lo, mid, hi - 1);
      var p, q := Local(A, beg, end, lo, mid), Local(A, beg, end, mid, hi - 1);
      if InRange(A.col[hi - 1], beg, end) {
        var c, v := [A.col[hi - 1] - beg], [A.val[hi - 1]];
        assert p.col + q.col + c == p.col + (q.col + c);
        assert p.val + q.val + v == p.val + (q.val + v);
      }
    }
  }

  /** The ghost entries of a run are those of its two halves, in order. */
  lemma {:induction false} RemoteConcat(A: Csr, beg: nat, end: nat, R: seq<nat>, lo: nat, mid: nat, hi: nat)
    requires beg <= end && lo <= mid <= hi <= |A.col| == |A.val|
    requires Covered(A, beg, end, R, lo, hi)
    ensures Remote(A, beg, end, R, lo, hi) ==
            Remote(A, beg, end, R, lo, mid).Append(Remote(A, beg, end, R, mid, hi))
    decreases hi
  {
    if hi == mid {
      var e := Remote(A, beg, end, R, lo, mid);
      assert e.col + [] == e.col && e.val + [] == e.val;
    } else {
      RemoteConcat(A, beg, end, R, lo, mid, hi - 1);
      var p, q := Remote(A, beg, end, R, lo, mid), Remote(A, beg, end, R, mid, hi - 1);
      if !InRange(A.col[hi - 1], beg, end) {
        var c, v := [IndexIn(R, A.col[hi - 1])], [A.val[hi - 1]];
        assert p.col + q.col + c == p.col + (q.col + c);
        assert p.val + q.val + v == p.val + (q.val + v);
      }
    }
  }

  /** A local entry at position j lies beyond the local entries before it,
      so those are fewer than all local entries of the run. */
  lemma LocalBefore(A: Csr, beg: nat, end: nat, lo: nat, j: nat, hi: nat)
    requires beg <= end && lo <= j < hi <= |A.col| == |A.val|
    requires InRange(A.col[j], beg, end)
    ensures |Local(A, beg, end, lo, j).col| < |Local(A, beg, end, lo, hi).col|
  {
    LocalConcat(A, beg, end, lo, j + 1, hi);
    assert |Local(A, beg, end, lo, j + 1).col| == |Local(A, beg, end, lo, j).col| + 1;
  }

  /** The same for a ghost entry at position j. */
  lemma RemoteBefore(A: Csr, beg: nat, end: nat, R: seq<nat>, lo: nat, j: nat, hi: nat)
    requires beg <= end && lo <= j < hi <= |A.col| == |A.val|
    requires Covered(A, beg, end, R, lo, hi) && !InRange(A.col[j], beg, end)
    ensures |Remote(A, beg, end, R, lo, j).col| < |Remote(A, beg, end, R, lo, hi).col|
  {
    RemoteConcat(A, beg, end, R, lo, j + 1, hi);
    assert |Remote(A, beg, end, R, lo, j + 1).col| == |Remote(A, beg, end, R, lo, j).col| + 1;
  }

  /** A run none of whose columns is outside [0, end) is its own local part. */
  lemma {:induction false} LocalOfInRange(A: Csr, end: nat, lo: nat, hi: nat)
    requires lo <= hi <= |A.col| == |A.val|
    requires forall j :: lo <= j < hi ==> A.col[j] < end
    ensures Local(A, 0, end, lo, hi) == Entries(A.col[lo..hi], A.val[lo..hi])
    decreases hi
  {
    if lo < hi {
      LocalOfInRange(A, end, lo, hi - 1);
      assert A.col[lo..hi] == A.col[lo..hi - 1] + [A.col[hi - 1]];
      assert A.val[lo..hi] == A.val[lo..hi - 1] + [A.val[hi - 1]];
    }
  }

  /** With no ghost columns at all, a covered run has no ghost entries. */
  lemma {:induction false} RemoteOfNoGhosts(A: Csr, beg: nat, end: nat, R: seq<nat>, lo: nat, hi: nat)
    requires beg <= end && lo <= hi <= |A.col| == |A.val|
    requires Covered(A, beg, end, R, lo, hi) && |R| == 0
    ensures Remote(A, beg, end, R, lo, hi) == NoEntries
    decreases hi
  {
    if lo < hi {
      RemoteOfNoGhosts(A, beg, end, R, lo, hi - 1);
    }
  }

  /** The receive buffer of a device: the value of x at each of its ghost
      columns, in the order of R. */
  function Received(R: seq<nat>, x: seq<int>): (v: seq<int>)
    requires ColumnsBelow(R, |x|)
    ensures |v| == |R| && forall r :: 0 <= r < |R| ==> v[r] == x[R[r]]
  {
    if |R| == 0 then [] else Received(R[..|R| - 1], x) + [x[R[|R| - 1]]]
  }

  /** The product of non-zeros lo .. hi-1 of A with x. */
  function RunDot(A: Csr, lo: nat, hi: nat, x: seq<int>): int
    requires lo <= hi <= |A.col| == |A.val| && ColumnsBelow(A.col, |x|)
  {
    assert ColumnsBelow(A.col[lo..hi], |x|);
    Dot(A.col[lo..hi], A.val[lo..hi], x)
  }

  /** The product of the local part of the run with the device's own
      slice x[beg..end]. */
  function LocalDot(A: Csr, beg: nat, end: nat, lo: nat, hi: nat, x: seq<int>): int
    requires lo <= hi <= |A.col| == |A.val| && beg <= end <= |x|
  {
    var l := Local(A, beg, end, lo, hi);
    Dot(l.col, l.val, x[beg..end])
  }

  /** The product of the ghost part of the run with the receive buffer. */
  function RemoteDot(A: Csr, beg: nat, end: nat, R: seq<nat>, lo: nat, hi: nat, x: seq<int>): int
    requires lo <= hi <= |A.col| == |A.val| && beg <= end
    requires ColumnsBelow(R, |x|) && Covered(A, beg, end, R, lo, hi)
  {
    var r := Remote(A, beg, end, R, lo, hi);
    Dot(r.col, r.val, Received(R, x))
  }

  /** Splitting a run into its local and ghost parts does not change its
      product with x, when the local part reads the device's own slice
      x[beg..end] and the ghost part reads the receive buffer. */
  lemma {:induction false} SplitDot(A: Csr, beg: nat, end: nat, R: seq<nat>, lo: nat, hi: nat, x: seq<int>)
    requires lo <= hi <= |A.col| == |A.val| && beg <= end <= |x|
    requires ColumnsBelow(A.col, |x|) && ColumnsBelow(R, |x|)
    requires Covered(A, beg, end, R, lo, hi)
    ensures RunDot(A, lo, hi, x) == LocalDot(A, beg, end, lo, hi, x) + RemoteDot(A, beg, end, R, lo, hi, x)
    decreases hi
  {
    if lo < hi {
      assert Covered(A, beg, end, R, lo, hi - 1);
      SplitDot(A, beg, end, R, lo, hi - 1, x);
      SplitDotStep(A, beg, end, R, lo, hi, x);
    } else {
      assert A.col[lo..hi] == [];
      assert Local(A, beg, end, lo, hi) == NoEntries;
      assert Remote(A, beg, end, R, lo, hi) == NoEntries;
    }
  }

  /** Each of the three products gains the last non-zero's term, the
      run's and exactly one of its two parts'. */
  lemma SplitDotStep(A: Csr, beg: nat, end: nat, R: seq<nat>, lo: nat, hi: nat, x: seq<int>)
    requires lo < hi <= |A.col| == |A.val| && beg <= end <= |x|
    requires ColumnsBelow(A.col, |x|) && ColumnsBelow(R, |x|)
    requires Covered(A, beg, end, R, lo, hi)
    ensures RunDot(A, lo, hi, x) == RunDot(A, lo, hi - 1, x) + A.val[hi - 1] * x[A.col[hi - 1]]
    ensures InRange(A.col[hi - 1], beg, end) ==>
      LocalDot(A, beg, end, lo, hi, x) == LocalDot(A, beg, end, lo, hi - 1, x) + A.val[hi - 1] * x[A.col[hi - 1]] &&
      RemoteDot(A, beg, end, R, lo, hi, x) == RemoteDot(A, beg, end, R, lo, hi - 1, x)
    ensures !InRange(A.col[hi - 1], beg, end) ==>
      LocalDot(A, beg, end, lo, hi, x) == LocalDot(A, beg, end, lo, hi - 1, x) &&
      RemoteDot(A, beg, end, R, lo, hi, x) == RemoteDot(A, beg, end, R, lo, hi - 1, x) + A.val[hi - 1] * x[A.col[hi - 1]]
  {
    RunDotStep(A, lo, hi, x);
    if InRange(A.col[hi - 1], beg, end) {
      LocalDotStep(A, beg, end, R, lo, hi, x);
    } else {
      RemoteDotStep(A, beg, end, R, lo, hi, x);
    }
  }

  lemma RunDotStep(A: Csr, lo: nat, hi: nat, x: seq<int>)
    requires lo < hi <= |A.col| == |A.val| && ColumnsBelow(A.col, |x|)
    ensures RunDot(A, lo, hi, x) == RunDot(A, lo, hi - 1, x) + A.val[hi - 1] * x[A.col[hi - 1]]
  {
    SliceSnoc(A.col, lo, hi);
    SliceSnoc(A.val, lo, hi);
    DotSnoc(A.col[lo..hi - 1], A.val[lo..hi - 1], A.col[hi - 1], A.val[hi - 1], x);
  }

  lemma LocalDotStep(A: Csr, beg: nat, end: nat, R: seq<nat>, lo: nat, hi: nat, x: seq<int>)
    requires lo < hi <= |A.col| == |A.val| && beg <= end <= |x|
    requires ColumnsBelow(R, |x|) && Covered(A, beg, end, R, lo, hi)
    requires InRange(A.col[hi - 1], beg, end)
    ensures LocalDot(A, beg, end, lo, hi, x) == LocalDot(A, beg, end, lo, hi - 1, x) + A.val[hi - 1] * x[A.col[hi - 1]]
    ensures RemoteDot(A, beg, end, R, lo, hi, x) == RemoteDot(A, beg, end, R, lo, hi - 1, x)
  {
    LocalGains(A, beg, end, lo, hi, x);
    assert Remote(A, beg, end, R, lo, hi) == Remote(A, beg, end, R, lo, hi - 1);
  }

  lemma LocalGains(A: Csr, beg: nat, end: nat, lo: nat, hi: nat, x: seq<int>)
    requires lo < hi <= |A.col| == |A.val| && beg <= end <= |x|
    requires InRange(A.col[hi - 1], beg, end)
    ensures LocalDot(A, beg, end, lo, hi, x) == LocalDot(A, beg, end, lo, hi - 1, x) + A.val[hi - 1] * x[A.col[hi - 1]]
  {
    var c, v := A.col[hi - 1], A.val[hi - 1];
    var l := Local(A, beg, end, lo, hi - 1);
    assert Local(A, beg, end, lo, hi) == Entries(l.col + [c - beg], l.val + [v]);
    DotSnoc(l.col, l.val, c - beg, v, x[beg..end]);
    assert x[beg..end][c - beg] == x[c];
  }

  lemma RemoteDotStep(A: Csr, beg: nat, end: nat, R: seq<nat>, lo: nat, hi: nat, x: seq<int>)
    requires lo < hi <= |A.col| == |A.val| && beg <= end <= |x|
    requires ColumnsBelow(A.col, |x|) && ColumnsBelow(R, |x|) && Covered(A, beg, end, R, lo, hi)
    requires !InRange(A.col[hi - 1], beg, end)
    ensures LocalDot(A, beg, end, lo, hi, x) == LocalDot(A, beg, end, lo, hi - 1, x)
    ensures RemoteDot(A, beg, end, R, lo, hi, x) == RemoteDot(A, beg, end, R, lo, hi - 1, x) + A.val[hi - 1] * x[A.col[hi - 1]]
  {
    RemoteGains(A, beg, end, R, lo, hi, x);
    assert Local(A, beg, end, lo, hi) == Local(A, beg, end, lo, hi - 1);
  }

  lemma RemoteGains(A: Csr, beg: nat, end: nat, R: seq<nat>, lo: nat, hi: nat, x: seq<int>)
    requires lo < hi <= |A.col| == |A.val| && beg <= end
    requires ColumnsBelow(R, |x|) && Covered(A, beg, end, R, lo, hi)
    requires !InRange(A.col[hi - 1], beg, end)
    ensures A.col[hi - 1] < |x|
    ensures RemoteDot(A, beg, end, R, lo, hi, x) == RemoteDot(A, beg, end, R, lo, hi - 1, x) + A.val[hi - 1] * x[A.col[hi - 1]]
  {
    var c, v := A.col[hi - 1], A.val[hi - 1];
    var r := Remote(A, beg, end, R, lo, hi - 1);
    var k := IndexIn(R, c);
    assert Remote(A, beg, end, R, lo, hi) == Entries(r.col + [k], r.val + [v]);
    DotSnoc(r.col, r.val, k, v, Received(R, x));
    assert Received(R, x)[k] == x[c];
  }

  /** Row k of M as a run of entries. */
  function RowEntries(M: Csr, k: nat): Entries
    requires WellFormed(M) && k < Rows(M)
  {
    Entries(M.col[M.row[k]..M.row[k + 1]], M.val[M.row[k]..M.row[k + 1]])
  }

  /** M holds exactly the given runs, one per row, in order. */
  predicate Stores(M: Csr, rows: seq<Entries>)
  {
    WellFormed(M) && Rows(M) == |rows| &&
    forall k :: 0 <= k < |rows| ==> RowEntries(M, k) == rows[k]
  }

  /** The local entries of rows beg .. end-1 of A, one run per row. */
  function LocalRows(A: Csr, beg: nat, end: nat): seq<Entries>
    requires WellFormed(A) && beg <= end <= Rows(A)
  {
    seq(end - beg, k requires 0 <= k < end - beg =>
      Local(A, beg, end, A.row[beg + k], A.row[beg + k + 1]))
  }

  /** The ghost entries of rows beg .. end-1 of A, one run per row. */
  function RemoteRows(A: Csr, beg: nat, end: nat, R: seq<nat>): seq<Entries>
    requires WellFormed(A) && beg <= end <= Rows(A)
    requires Covered(A, beg, end, R, A.row[beg], A.row[end])
  {
    seq(end - beg, k requires 0 <= k < end - beg =>
      Remote(A, beg, end, R, A.row[beg + k], A.row[beg + k + 1]))
  }

  /** Run k of the local runs is row beg+k's local part. */
  lemma LocalRowAt(A: Csr, beg: nat, end: nat, k: nat)
    requires WellFormed(A) && beg <= end <= Rows(A) && k < end - beg
    ensures A.row[beg] <= A.row[beg + k] <= A.row[beg + k + 1] <= A.row[end]
    ensures LocalRows(A, beg, end)[k] == Local(A, beg, end, A.row[beg + k], A.row[beg + k + 1])
  {
  }

  /** Run k of the ghost runs is row beg+k's ghost part. */
  lemma RemoteRowAt(A: Csr, beg: nat, end: nat, R: seq<nat>, k: nat)
    requires WellFormed(A) && beg <= end <= Rows(A) && k < end - beg
    requires Covered(A, beg, end, R, A.row[beg], A.row[end])
    ensures A.row[beg] <= A.row[beg + k] <= A.row[beg + k + 1] <= A.row[end]
    ensures Covered(A, beg, end, R, A.row[beg + k], A.row[beg + k + 1])
    ensures RemoteRows(A, beg, end, R)[k] == Remote(A, beg, end, R, A.row[beg + k], A.row[beg + k + 1])
  {
  }

  /** All runs laid end to end. */
  function Concat(rows: seq<Entries>): Entries
  {
    if |rows| == 0 then NoEntries
    else Concat(rows[..|rows| - 1]).Append(rows[|rows| - 1])
  }

  lemma {:induction false} ConcatAppend(a: seq<Entries>, b: seq<Entries>)
    ensures Concat(a + b) == Concat(a).Append(Concat(b))
    decreases |b|
  {
    if |b| == 0 {
      assert a + b == a;
      var c := Concat(a);
      assert c.col + [] == c.col && c.val + [] == c.val;
    } else {
      var b' := b[..|b| - 1];
      ConcatAppend(a, b');
      assert (a + b)[..|a + b| - 1] == a + b';
      var p, q, r := Concat(a), Concat(b'), b[|b| - 1];
      assert p.col + q.col + r.col == p.col + (q.col + r.col);
      assert p.val + q.val + r.val == p.val + (q.val + r.val);
    }
  }

  /** The local entries of the first k rows of a device are the first k
      local runs laid end to end. */
  lemma {:induction false} LocalPrefix(A: Csr, beg: nat, end: nat, k: nat)
    requires WellFormed(A) && beg <= end <= Rows(A) && k <= end - beg
    ensures Local(A, beg, end, A.row[beg], A.row[beg + k]) == Concat(LocalRows(A, beg, end)[..k])
  {
    var rows := LocalRows(A, beg, end);
    if k > 0 {
      LocalPrefix(A, beg, end, k - 1);
      LocalConcat(A, beg, end, A.row[beg], A.row[beg + k - 1], A.row[beg + k]);
      LocalRowAt(A, beg, end, k - 1);
      assert beg + (k - 1) == beg + k - 1 && beg + (k - 1) + 1 == beg + k;
      assert rows[k - 1] == Local(A, beg, end, A.row[beg + k - 1], A.row[beg + k]);
      ConcatPrefixSnoc(rows, k);
    }
  }

  /** The same for ghost entries. */
  lemma {:induction false} RemotePrefix(A: Csr, beg: nat, end: nat, R: seq<nat>, k: nat)
    requires WellFormed(A) && beg <= end <= Rows(A) && k <= end - beg
    requires Covered(A, beg, end, R, A.row[beg], A.row[end])
    ensures Remote(A, beg, end, R, A.row[beg], A.row[beg + k]) == Concat(RemoteRows(A, beg, end, R)[..k])
  {
    var rows := RemoteRows(A, beg, end, R);
    if k == 0 {
      assert rows[..0] == [];
    } else {
      RemoteRowAt(A, beg, end, R, k - 1);
      assert beg + (k - 1) == beg + k - 1 && beg + (k - 1) + 1 == beg + k;
      var lo, mid, hi := A.row[beg], A.row[beg + k - 1], A.row[beg + k];
      RemotePrefix(A, beg, end, R, k - 1);
      assert Remote(A, beg, end, R, lo, mid) == Concat(rows[..k - 1]);
      assert Remote(A, beg, end, R, mid, hi) == rows[k - 1];
      RemoteConcat(A, beg, end, R, lo, mid, hi);
      ConcatPrefixSnoc(rows, k);
    }
  }

  /** offs holds the running lengths of the runs laid end to end. */
  predicate RunningLengths(offs: seq<nat>, rows: seq<Entries>)
  {
    |offs| == |rows| + 1 &&
    forall k :: 0 <= k <= |rows| ==> offs[k] == |Concat(rows[..k]).col|
  }

  /** A matrix whose offsets are the running lengths of some runs and whose
      arrays are those runs laid end to end stores the runs row by row. */
  lemma StoresConcat(M: Csr, rows: seq<Entries>)
    requires RunningLengths(M.row, rows)
    requires forall k :: 0 <= k < |rows| ==> |rows[k].col| == |rows[k].val|
    requires M.col == Concat(rows).col && M.val == Concat(rows).val
    ensures Stores(M, rows)
  {
    ConcatWellFormed(M, rows);
    forall k | 0 <= k < |rows| ensures RowEntries(M, k) == rows[k] {
      StoresRow(M, rows, k);
    }
  }

  /** Running lengths of runs laid end to end are the offsets of a
      well-formed matrix. */
  lemma ConcatWellFormed(M: Csr, rows: seq<Entries>)
    requires RunningLengths(M.row, rows)
    requires forall k :: 0 <= k < |rows| ==> |rows[k].col| == |rows[k].val|
    requires M.col == Concat(rows).col && M.val == Concat(rows).val
    ensures WellFormed(M)
  {
    assert rows[..|rows|] == rows;
    assert rows[..0] == [];
    ConcatLengths(rows);
    forall i, j | 0 <= i <= j < |M.row| ensures M.row[i] <= M.row[j] {
      ConcatPrefixGrows(rows, i, j);
    }
  }

  lemma ConcatPrefixGrows(rows: seq<Entries>, i: nat, j: nat)
    requires i <= j <= |rows|
    ensures |Concat(rows[..i]).col| <= |Concat(rows[..j]).col|
  {
    ConcatAppend(rows[..i], rows[i..j]);
    assert rows[..i] + rows[i..j] == rows[..j];
  }

  lemma StoresRow(M: Csr, rows: seq<Entries>, k: nat)
    requires WellFormed(M) && |M.row| == |rows| + 1 && k < |rows|
    requires M.row[k] == |Concat(rows[..k]).col| && M.row[k + 1] == |Concat(rows[..k + 1]).col|
    requires forall t :: 0 <= t < |rows| ==> |rows[t].col| == |rows[t].val|
    requires M.col == Concat(rows).col && M.val == Concat(rows).val
    ensures RowEntries(M, k) == rows[k]
  {
    ConcatAt(rows, k);
    ConcatLengths(rows[..k]);
    var P, r, S := Concat(rows[..k]), rows[k], Concat(rows[k + 1..]);
    SliceMiddle(P.col, r.col, S.col);
    SliceMiddle(P.val, r.val, S.val);
  }

  /** The runs laid end to end: those before run k, run k, those after. */
  lemma ConcatAt(rows: seq<Entries>, k: nat)
    requires k < |rows|
    ensures Concat(rows[..k + 1]) == Concat(rows[..k]).Append(rows[k])
    ensures Concat(rows) == Concat(rows[..k]).Append(rows[k]).Append(Concat(rows[k + 1..]))
  {
    ConcatLast(rows[..k + 1]);
    assert rows[..k + 1][..k] == rows[..k];
    assert rows == rows[..k + 1] + rows[k + 1..];
    ConcatAppend(rows[..k + 1], rows[k + 1..]);
  }

  /** The first k runs laid end to end are the first k-1 followed by run k-1. */
  lemma ConcatPrefixSnoc(rows: seq<Entries>, k: nat)
    requires 0 < k <= |rows|
    ensures Concat(rows[..k]) == Concat(rows[..k - 1]).Append(rows[k - 1])
  {
    ConcatLast(rows[..k]);
    assert rows[..k][..k - 1] == rows[..k - 1];
  }

  /** The last run comes last. */
  lemma ConcatLast(rows: seq<Entries>)
    requires |rows| > 0
    ensures Concat(rows) == Concat(rows[..|rows| - 1]).Append(rows[|rows| - 1])
  {
  }

  lemma SliceMiddle<T>(p: seq<T>, r: seq<T>, s: seq<T>)
    ensures (p + r + s)[|p|..|p| + |r|] == r
  {
  }

  lemma {:induction false} ConcatLengths(rows: seq<Entries>)
    requires forall k :: 0 <= k < |rows| ==> |rows[k].col| == |rows[k].val|
    ensures |Concat(rows).col| == |Concat(rows).val|
  {
    if |rows| > 0 {
      ConcatLengths(rows[..|rows| - 1]);
    }
  }

  /** Every run is balanced and addresses entries of a vector of length m. */
  predicate RunsBelow(rows: seq<Entries>, m: nat)
  {
    forall k :: 0 <= k < |rows| ==> |rows[k].col| == |rows[k].val| && ColumnsBelow(rows[k].col, m)
  }

  /** The product of a matrix given by its runs, one per row: y = alpha*M*x
      (append false) or y + alpha*M*x (append true). */
  function RowsProduct(rows: seq<Entries>, x: seq<int>, y: seq<int>, alpha: int, append: bool): (r: seq<int>)
    requires RunsBelow(rows, |x|) && |y| == |rows|
  {
    seq(|rows|, k requires 0 <= k < |rows| =>
      (if append then y[k] else 0) + alpha * Dot(rows[k].col, rows[k].val, x))
  }
}
