/** The distributed matrix `SpMat`: rows split over devices by a partition,
    one strip per device, the ghost-value exchange planned once by the
    constructor, and `mul`, which gathers the values other devices need,
    runs every device's local kernel, scatters the received values and runs
    every device's ghost kernel. Together the passes compute y = alpha*A*x
    or y += alpha*A*x. */
module SpMatrix {
  import opened Sparse
  import opened SortedSet
  import opened Slices
  import opened Exchange
  import opened Strips

  /** The device owning row i: the d with part[d] <= i < part[d+1], found
      from d0 on. */
  function Owner(part: seq<nat>, i: nat, d0: nat): (d: nat)
    requires NonDecreasing(part) && d0 < |part| && part[d0] <= i < part[|part| - 1]
    ensures d0 <= d < |part| - 1 && part[d] <= i < part[d + 1]
    decreases |part| - d0
  {
    if i < part[d0 + 1] then d0 else Owner(part, i, d0 + 1)
  }

  /** Row ranges of a partition are disjoint, so the owner is the only
      device whose range holds the row. */
  lemma OwnerUnique(part: seq<nat>, i: nat, d: nat)
    requires NonDecreasing(part) && d + 1 < |part| && part[d] <= i < part[d + 1]
    ensures Owner(part, i, 0) == d
  {
  }

  /** Device d's send offsets: its stretch cidx[d] .. cidx[d+1]-1 of the
      send list, each column shifted down by part[d] into the device's row
      range. */
  predicate SendOffsets(send: seq<nat>, part: seq<nat>, cidx: seq<nat>, d: nat, off: seq<nat>)
    requires |cidx| == |part| && d + 1 < |part|
  {
    cidx[d] <= cidx[d + 1] <= |send| && |off| == cidx[d + 1] - cidx[d] &&
    forall i :: 0 <= i < |off| ==>
      part[d] + off[i] == send[cidx[d] + i] && send[cidx[d] + i] < part[d + 1]
  }

  /** Receive positions of every device. */
  predicate RecvPlan(send: seq<nat>, remote: seq<seq<nat>>, recv: seq<seq<nat>>)
  {
    |recv| == |remote| && forall d :: 0 <= d < |remote| ==> RecvLayout(send, remote[d], recv[d])
  }

  /** Send boundaries and offsets: empty when nothing is sent, otherwise
      boundaries from 0 to the end of the list and every device's offsets. */
  predicate SendPlan(send: seq<nat>, part: seq<nat>, off: seq<seq<nat>>, cidx: seq<nat>)
    requires |part| >= 1
  {
    |off| == |part| - 1 &&
    (|send| == 0 ==> cidx == [] && forall d :: 0 <= d < |part| - 1 ==> off[d] == []) &&
    (|send| > 0 ==>
      |cidx| == |part| && NonDecreasing(cidx) && cidx[0] == 0 && cidx[|cidx| - 1] == |send| &&
      forall d :: 0 <= d < |part| - 1 ==> SendOffsets(send, part, cidx, d, off[d]))
  }

  /** Everything `setup_exchange` establishes: the ghost sets, the ordered
      send list of all of them, each device's receive positions, and, when
      anything is exchanged at all, the device boundaries and send offsets
      (otherwise these stay empty). */
  ghost predicate Planned(n: nat, A: Csr, part: seq<nat>, remote: seq<seq<nat>>, send: seq<nat>,
                          recv: seq<seq<nat>>, off: seq<seq<nat>>, cidx: seq<nat>)
    requires ValidMatrix(n, A) && ValidPartition(part, n)
  {
    GhostsBelow(A, part, remote, n) &&
    (forall d :: 0 <= d < |part| - 1 ==> GhostsOf(A, part, d, remote[d])) &&
    Sorted(send) && Elems(send) == Union(remote) && ColumnsBelow(send, n) &&
    RecvPlan(send, remote, recv) &&
    (|send| > 0 ==> SplitsAt(send, part, cidx)) &&
    SendPlan(send, part, off, cidx)
  }

  /** Every device's strip is built over its row range and ghost set. */
  ghost predicate Built(A: Csr, part: seq<nat>, remote: seq<seq<nat>>, mtx: seq<Strip>)
    requires WellFormed(A) && ValidPartition(part, Rows(A))
  {
    |mtx| == |remote| == |part| - 1 &&
    forall d :: 0 <= d < |part| - 1 ==>
      Covered(A, part[d], part[d + 1], remote[d], A.row[part[d]], A.row[part[d + 1]]) &&
      StripHolds(mtx[d], A, part[d], part[d + 1], remote[d])
  }

  /** The elements of one of the sequences are in their union. */
  lemma ElemsInUnion(rs: seq<seq<nat>>, d: nat)
    requires d < |rs|
    ensures Elems(rs[d]) <= Union(rs)
  {
    forall c | c in Elems(rs[d]) ensures c in Union(rs) {
      UnionMembers(rs, c);
    }
  }

  /** A ghost set holds columns of A only, so all of them are below n, and
      it covers the device's ghost entries. */
  lemma GhostFacts(n: nat, A: Csr, part: seq<nat>, d: nat, rc: seq<nat>)
    requires ValidMatrix(n, A) && ValidPartition(part, n) && d + 1 < |part|
    requires GhostsOf(A, part, d, rc)
    ensures ColumnsBelow(rc, n)
    ensures Covered(A, part[d], part[d + 1], rc, A.row[part[d]], A.row[part[d + 1]])
  {
    var beg, end := part[d], part[d + 1];
    assert A.row[beg] <= A.row[end] <= |A.col|;
    OutsideCovered(A, beg, end, rc, A.row[beg], A.row[end]);
    forall t | 0 <= t < |rc| ensures rc[t] < n {
      assert rc[t] in Elems(rc);
      OutsideMembers(A, beg, end, A.row[beg], A.row[end], rc[t]);
    }
  }

  /** The send list holds columns of the ghost sets only. */
  lemma SendBelow(n: nat, remote: seq<seq<nat>>, send: seq<nat>)
    requires forall d :: 0 <= d < |remote| ==> ColumnsBelow(remote[d], n)
    requires Elems(send) == Union(remote)
    ensures ColumnsBelow(send, n)
  {
    forall k | 0 <= k < |send| ensures send[k] < n {
      assert send[k] in Elems(send);
      UnionMembers(remote, send[k]);
      var d :| 0 <= d < |remote| && send[k] in remote[d];
      var t :| 0 <= t < |remote[d]| && remote[d][t] == send[k];
    }
  }

  /** Only the empty sequence has no elements. */
  lemma EmptyElems(s: seq<nat>)
    ensures Elems(s) == {} ==> s == []
  {
    if |s| > 0 {
      assert s[0] in Elems(s);
    }
  }

  /** With nothing to send every ghost set is empty. */
  lemma NoSendNoGhosts(remote: seq<seq<nat>>, send: seq<nat>, d: nat)
    requires Elems(send) == Union(remote) && |send| == 0 && d < |remote|
    ensures remote[d] == []
  {
    ElemsInUnion(remote, d);
    EmptyElems(remote[d]);
  }

  /** The receive positions of every device: `cols_to_recv` is filled only
      for a device whose ghost set is not empty. */
  method RecvLists(send: seq<nat>, remote: seq<seq<nat>>) returns (recv: seq<seq<nat>>)
    requires Sorted(send)
    requires forall d :: 0 <= d < |remote| ==> Sorted(remote[d]) && Elems(remote[d]) <= Elems(send)
    ensures |recv| == |remote|
    ensures forall d :: 0 <= d < |remote| ==> RecvLayout(send, remote[d], recv[d])
  {
    recv := [];
    var d := 0;
    while d < |remote|
      invariant d <= |remote| && |recv| == d
      invariant forall t :: 0 <= t < d ==> RecvLayout(send, remote[t], recv[t])
    {
      var r: seq<nat> := [];
      if |remote[d]| > 0 {
        r := ColsToRecv(send, remote[d]);
      }
      recv := recv + [r];
      d := d + 1;
    }
  }

  /** Device d's stretch of the shifted send list. */
  function DeviceOffsets(shifted: seq<nat>, cidx: seq<nat>, d: nat): seq<nat>
    requires d + 1 < |cidx| && cidx[d] <= cidx[d + 1] <= |shifted|
  {
    shifted[cidx[d]..cidx[d + 1]]
  }

  /** `setup_exchange`: the ghost sets, the send list, and, only when the
      send list is not empty, the receive positions, the boundaries `cidx`
      and the send offsets (made local by the in-place subtraction). */
  method SetupExchange(n: nat, A: Csr, part: seq<nat>)
    returns (remote: seq<seq<nat>>, send: seq<nat>, recv: seq<seq<nat>>, off: seq<seq<nat>>, cidx: seq<nat>)
    requires ValidMatrix(n, A) && ValidPartition(part, n)
    ensures Planned(n, A, part, remote, send, recv, off, cidx)
  {
    remote := AllGhostColumns(A, part);
    forall d | 0 <= d < |part| - 1
      ensures ColumnsBelow(remote[d], n)
      ensures Covered(A, part[d], part[d + 1], remote[d], A.row[part[d]], A.row[part[d + 1]])
    {
      GhostFacts(n, A, part, d, remote[d]);
    }
    send := SendList(remote);
    SendBelow(n, remote, send);
    if |send| > 0 {
      forall d | 0 <= d < |remote| ensures Elems(remote[d]) <= Elems(send) {
        ElemsInUnion(remote, d);
      }
      recv := RecvLists(send, remote);
      cidx, off := PlanSends(n, part, send);
    } else {
      recv := seq(|part| - 1, _ => []);
      off := seq(|part| - 1, _ => []);
      cidx := [];
      forall d | 0 <= d < |part| - 1 ensures RecvLayout(send, remote[d], recv[d]) {
        NoSendNoGhosts(remote, send, d);
      }
    }
  }

  /** The part of `setup_exchange` run when something is sent: the
      boundaries by `lower_bound`, and the subtraction of part[d] over each
      device's stretch of the send list. */
  method PlanSends(n: nat, part: seq<nat>, send: seq<nat>) returns (cidx: seq<nat>, off: seq<seq<nat>>)
    requires ValidPartition(part, n) && Sorted(send) && ColumnsBelow(send, n) && |send| > 0
    ensures SplitsAt(send, part, cidx) && SendPlan(send, part, off, cidx)
  {
    cidx := Boundaries(send, part);
    BoundariesCover(send, part, n, cidx);
    var cols := new nat[|send|](i requires 0 <= i < |send| => send[i]);
    assert cols[..] == send;
    ShiftToLocal(cols, part, cidx);
    var shifted := cols[..];
    off := seq(|part| - 1, d requires 0 <= d < |part| - 1 => DeviceOffsets(shifted, cidx, d));
    forall d | 0 <= d < |part| - 1 ensures SendOffsets(send, part, cidx, d, off[d]) {
      assert forall i :: 0 <= i < |off[d]| ==> off[d][i] == shifted[cidx[d] + i];
    }
  }

  /** The constructor's loop over devices: a strip for each non-empty row
      range, `SpMatCSR` on CPU devices and `SpMatELL` on the others. */
  method BuildStrips(A: Csr, part: seq<nat>, remote: seq<seq<nat>>, kinds: seq<DeviceKind>)
    returns (mtx: seq<Strip>)
    requires WellFormed(A) && ValidPartition(part, Rows(A))
    requires |remote| == |kinds| == |part| - 1
    requires forall d :: 0 <= d < |part| - 1 ==>
      Sorted(remote[d]) &&
      Covered(A, part[d], part[d + 1], remote[d], A.row[part[d]], A.row[part[d + 1]])
    ensures Built(A, part, remote, mtx)
    ensures forall d :: 0 <= d < |mtx| ==> (mtx[d].NoStrip? <==> part[d] == part[d + 1])
    ensures forall d :: 0 <= d < |mtx| && part[d] < part[d + 1] ==> (mtx[d].CsrStrip? <==> kinds[d] == Cpu)
  {
    mtx := [];
    var d := 0;
    while d < |part| - 1
      invariant d <= |part| - 1 && |mtx| == d
      invariant forall t :: 0 <= t < d ==> StripHolds(mtx[t], A, part[t], part[t + 1], remote[t])
      invariant forall t :: 0 <= t < d ==> (mtx[t].NoStrip? <==> part[t] == part[t + 1])
      invariant forall t :: 0 <= t < d && part[t] < part[t + 1] ==> (mtx[t].CsrStrip? <==> kinds[t] == Cpu)
    {
      assert part[d] <= part[d + 1] <= part[|part| - 1];
      var b := BuildStrip(kinds[d], A, part[d], part[d + 1], remote[d]);
      mtx := mtx + [b];
      d := d + 1;
    }
  }

  /** Row i's local entries times the owning device's part of x. */
  ghost function LocalSum(A: Csr, part: seq<nat>, x: seq<int>, i: nat): int
    requires ValidMatrix(|x|, A) && ValidPartition(part, |x|) && i < |x|
  {
    var d := Owner(part, i, 0);
    var beg, end := part[d], part[d + 1];
    assert A.row[i] <= A.row[i + 1] <= |A.col|;
    var e := Local(A, beg, end, A.row[i], A.row[i + 1]);
    Dot(e.col, e.val, x[beg..end])
  }

  /** The ghost-set facts the remote sums need, for every device. */
  ghost predicate GhostsBelow(A: Csr, part: seq<nat>, remote: seq<seq<nat>>, n: nat)
    requires WellFormed(A) && ValidPartition(part, Rows(A))
  {
    |remote| == |part| - 1 &&
    forall d :: 0 <= d < |part| - 1 ==>
      ColumnsBelow(remote[d], n) &&
      Covered(A, part[d], part[d + 1], remote[d], A.row[part[d]], A.row[part[d + 1]])
  }

  /** Row i's ghost entries times the owning device's receive buffer. */
  ghost function RemoteSum(A: Csr, part: seq<nat>, remote: seq<seq<nat>>, x: seq<int>, i: nat): int
    requires ValidMatrix(|x|, A) && ValidPartition(part, |x|) && i < |x|
    requires GhostsBelow(A, part, remote, |x|)
  {
    var d := Owner(part, i, 0);
    var beg, end, R := part[d], part[d + 1], remote[d];
    assert A.row[beg] <= A.row[i] <= A.row[i + 1] <= A.row[end];
    var e := Remote(A, beg, end, R, A.row[i], A.row[i + 1]);
    Dot(e.col, e.val, Received(R, x))
  }

  /** Splitting a row between its owner's local part of x and the received
      ghost values does not change the row's product with x. */
  lemma RowSplits(A: Csr, part: seq<nat>, remote: seq<seq<nat>>, x: seq<int>, i: nat)
    requires ValidMatrix(|x|, A) && ValidPartition(part, |x|) && i < |x|
    requires GhostsBelow(A, part, remote, |x|)
    ensures LocalSum(A, part, x, i) + RemoteSum(A, part, remote, x, i) == RowSum(A, i, x)
  {
    var d := Owner(part, i, 0);
    var beg, end := part[d], part[d + 1];
    assert A.row[beg] <= A.row[i] <= A.row[i + 1] <= A.row[end];
    SplitDot(A, beg, end, remote[d], A.row[i], A.row[i + 1], x);
  }

  /** A row whose owner has no ghost columns has no ghost contribution. */
  lemma NoGhostsNoRemote(A: Csr, part: seq<nat>, remote: seq<seq<nat>>, x: seq<int>, i: nat)
    requires ValidMatrix(|x|, A) && ValidPartition(part, |x|) && i < |x|
    requires GhostsBelow(A, part, remote, |x|)
    requires remote[Owner(part, i, 0)] == []
    ensures RemoteSum(A, part, remote, x, i) == 0
  {
    var d := Owner(part, i, 0);
    var beg, end := part[d], part[d + 1];
    assert A.row[beg] <= A.row[i] <= A.row[i + 1] <= A.row[end];
    RemoteOfNoGhosts(A, beg, end, remote[d], A.row[i], A.row[i + 1]);
  }

  /** A device without ghost columns adds nothing in the ghost pass. */
  lemma DeviceWithoutGhosts(A: Csr, part: seq<nat>, remote: seq<seq<nat>>, x: seq<int>, d: nat)
    requires ValidMatrix(|x|, A) && ValidPartition(part, |x|)
    requires GhostsBelow(A, part, remote, |x|) && d + 1 < |part| && remote[d] == []
    ensures forall i :: part[d] <= i < part[d + 1] ==> RemoteSum(A, part, remote, x, i) == 0
  {
    forall i | part[d] <= i < part[d + 1] ensures RemoteSum(A, part, remote, x, i) == 0 {
      assert part[d + 1] <= part[|part| - 1];
      OwnerUnique(part, i, d);
      NoGhostsNoRemote(A, part, remote, x, i);
    }
  }

  /** With an empty send list no row has a ghost contribution, which is why
      `mul` may skip the gather and the whole ghost pass. */
  lemma NothingExchanged(A: Csr, part: seq<nat>, remote: seq<seq<nat>>, send: seq<nat>, x: seq<int>)
    requires ValidMatrix(|x|, A) && ValidPartition(part, |x|)
    requires GhostsBelow(A, part, remote, |x|)
    requires Elems(send) == Union(remote) && |send| == 0
    ensures forall i :: 0 <= i < |x| ==> RemoteSum(A, part, remote, x, i) == 0
  {
    forall i | 0 <= i < |x| ensures RemoteSum(A, part, remote, x, i) == 0 {
      NoSendNoGhosts(remote, send, Owner(part, i, 0));
      NoGhostsNoRemote(A, part, remote, x, i);
    }
  }

  /** The receive buffer the scatter fills, `vals_to_recv[i] =
      rx[cols_to_recv[i]]`, holds x at the device's ghost columns, in
      order, once rx holds x at every send column. */
  lemma ScatterReceives(send: seq<nat>, rc: seq<nat>, recv: seq<nat>, rx: seq<int>, x: seq<int>, vals: seq<int>)
    requires RecvLayout(send, rc, recv) && |rx| == |send|
    requires ColumnsBelow(send, |x|) && ColumnsBelow(rc, |x|)
    requires forall k :: 0 <= k < |rx| ==> rx[k] == x[send[k]]
    requires |vals| == |recv| && forall i :: 0 <= i < |recv| ==> vals[i] == rx[recv[i]]
    ensures vals == Received(rc, x)
  {
  }

  /** The same position is what both backends' `r2l` map gives the ghost
      column: receive slot t holds the value the ghost matrix reads as its
      column t. */
  lemma ReceiveSlotIsRenumbering(send: seq<nat>, rc: seq<nat>, recv: seq<nat>, t: nat)
    requires RecvLayout(send, rc, recv) && Sorted(rc) && t < |rc|
    ensures send[recv[t]] in rc && IndexIn(rc, send[recv[t]]) == t
  {
    IndexOfElement(rc, t);
  }

  /** Row i of device d after its local kernel: the kernel's entry for
      the row is the row's local sum. */
  lemma LocalRowValue(A: Csr, part: seq<nat>, x: seq<int>, d: nat, i: nat,
                      yd: seq<int>, alpha: int, append: bool, r: seq<int>)
    requires ValidMatrix(|x|, A) && ValidPartition(part, |x|)
    requires d + 1 < |part| && part[d] <= i < part[d + 1] && |yd| == part[d + 1] - part[d]
    requires RunsBelow(LocalRows(A, part[d], part[d + 1]), part[d + 1] - part[d])
    requires r == RowsProduct(LocalRows(A, part[d], part[d + 1]), x[part[d]..part[d + 1]], yd, alpha, append)
    ensures r[i - part[d]] == (if append then yd[i - part[d]] else 0) + alpha * LocalSum(A, part, x, i)
  {
    var beg, end := part[d], part[d + 1];
    var rows := LocalRows(A, beg, end);
    var k := i - beg;
    var sum := Dot(rows[k].col, rows[k].val, x[beg..end]);
    assert r[k] == (if append then yd[k] else 0) + alpha * sum;
    LocalRowAt(A, beg, end, k);
    assert beg + k == i && beg + k + 1 == i + 1;
    assert rows[k] == Local(A, beg, end, A.row[i], A.row[i + 1]);
    OwnerUnique(part, i, d);
    assert part[d + 1] <= part[|part| - 1];
  }

  /** Device d's `mul_local` on its slices of x and y. */
  function DeviceLocal(ghost A: Csr, part: seq<nat>, ghost remote: seq<seq<nat>>, mtx: seq<Strip>, d: nat,
                       x: seq<int>, yd: seq<int>, alpha: int, append: bool): (r: seq<int>)
    requires ValidMatrix(|x|, A) && ValidPartition(part, |x|) && Built(A, part, remote, mtx)
    requires d + 1 < |part| && part[d] <= part[d + 1] <= |x| && |yd| == part[d + 1] - part[d]
    ensures RunsBelow(LocalRows(A, part[d], part[d + 1]), part[d + 1] - part[d])
    ensures r == RowsProduct(LocalRows(A, part[d], part[d + 1]), x[part[d]..part[d + 1]], yd, alpha, append)
  {
    LocalMul(mtx[d], A, part[d], part[d + 1], remote[d], x[part[d]..part[d + 1]], yd, alpha, append)
  }

  /** y with device d's rows replaced by the result of its local kernel:
      those rows hold their local sums, the others are unchanged. */
  lemma LocalSpliced(A: Csr, part: seq<nat>, x: seq<int>, d: nat, y0: seq<int>, y1: seq<int>,
                     alpha: int, append: bool, r: seq<int>)
    requires ValidMatrix(|x|, A) && ValidPartition(part, |x|) && |y0| == |y1| == |x|
    requires d + 1 < |part| && part[d] <= part[d + 1] <= |x|
    requires RunsBelow(LocalRows(A, part[d], part[d + 1]), part[d + 1] - part[d])
    requires r == RowsProduct(LocalRows(A, part[d], part[d + 1]), x[part[d]..part[d + 1]],
                              y0[part[d]..part[d + 1]], alpha, append)
    requires forall k :: 0 <= k < |y1| ==>
      y1[k] == if part[d] <= k < part[d] + |r| then r[k - part[d]] else y0[k]
    ensures forall i :: 0 <= i < |x| ==>
      y1[i] == if part[d] <= i < part[d + 1]
               then (if append then y0[i] else 0) + alpha * LocalSum(A, part, x, i)
               else y0[i]
  {
    LocalRowValues(A, part, x, d, y0[part[d]..part[d + 1]], alpha, append, r);
  }

  /** y with device d's rows replaced by the result of its ghost kernel:
      those rows gain their ghost sums, the others are unchanged. */
  lemma RemoteSpliced(A: Csr, part: seq<nat>, remote: seq<seq<nat>>, x: seq<int>, d: nat,
                      y0: seq<int>, y1: seq<int>, alpha: int, r: seq<int>)
    requires ValidMatrix(|x|, A) && ValidPartition(part, |x|) && |y0| == |y1| == |x|
    requires GhostsBelow(A, part, remote, |x|)
    requires d + 1 < |part| && part[d] <= part[d + 1] <= |x|
    requires RunsBelow(RemoteRows(A, part[d], part[d + 1], remote[d]), |remote[d]|)
    requires r == RowsProduct(RemoteRows(A, part[d], part[d + 1], remote[d]), Received(remote[d], x),
                              y0[part[d]..part[d + 1]], alpha, true)
    requires forall k :: 0 <= k < |y1| ==>
      y1[k] == if part[d] <= k < part[d] + |r| then r[k - part[d]] else y0[k]
    ensures forall i :: 0 <= i < |x| ==>
      y1[i] == if part[d] <= i < part[d + 1]
               then y0[i] + alpha * RemoteSum(A, part, remote, x, i)
               else y0[i]
  {
    RemoteRowValues(A, part, remote, x, d, y0[part[d]..part[d + 1]], alpha, r);
  }

  /** All rows of device d after its local kernel. */
  lemma LocalRowValues(A: Csr, part: seq<nat>, x: seq<int>, d: nat,
                       yd: seq<int>, alpha: int, append: bool, r: seq<int>)
    requires ValidMatrix(|x|, A) && ValidPartition(part, |x|)
    requires d + 1 < |part| && |yd| == part[d + 1] - part[d]
    requires RunsBelow(LocalRows(A, part[d], part[d + 1]), part[d + 1] - part[d])
    requires r == RowsProduct(LocalRows(A, part[d], part[d + 1]), x[part[d]..part[d + 1]], yd, alpha, append)
    ensures |r| == |yd|
    ensures forall i :: part[d] <= i < part[d + 1] ==>
      r[i - part[d]] == (if append then yd[i - part[d]] else 0) + alpha * LocalSum(A, part, x, i)
  {
    forall i | part[d] <= i < part[d + 1]
      ensures r[i - part[d]] == (if append then yd[i - part[d]] else 0) + alpha * LocalSum(A, part, x, i)
    {
      LocalRowValue(A, part, x, d, i, yd, alpha, append, r);
    }
  }

  /** All rows of device d after its ghost kernel. */
  lemma RemoteRowValues(A: Csr, part: seq<nat>, remote: seq<seq<nat>>, x: seq<int>, d: nat,
                        yd: seq<int>, alpha: int, r: seq<int>)
    requires ValidMatrix(|x|, A) && ValidPartition(part, |x|)
    requires GhostsBelow(A, part, remote, |x|)
    requires d + 1 < |part| && |yd| == part[d + 1] - part[d]
    requires RunsBelow(RemoteRows(A, part[d], part[d + 1], remote[d]), |remote[d]|)
    requires r == RowsProduct(RemoteRows(A, part[d], part[d + 1], remote[d]), Received(remote[d], x), yd, alpha, true)
    ensures |r| == |yd|
    ensures forall i :: part[d] <= i < part[d + 1] ==>
      r[i - part[d]] == yd[i - part[d]] + alpha * RemoteSum(A, part, remote, x, i)
  {
    forall i | part[d] <= i < part[d + 1]
      ensures r[i - part[d]] == yd[i - part[d]] + alpha * RemoteSum(A, part, remote, x, i)
    {
      RemoteRowValue(A, part, remote, x, d, i, yd, alpha, r);
    }
  }

  /** Row i of device d after its ghost kernel: the kernel's entry for the
      row adds the row's ghost sum. */
  lemma RemoteRowValue(A: Csr, part: seq<nat>, remote: seq<seq<nat>>, x: seq<int>, d: nat, i: nat,
                       yd: seq<int>, alpha: int, r: seq<int>)
    requires ValidMatrix(|x|, A) && ValidPartition(part, |x|)
    requires GhostsBelow(A, part, remote, |x|)
    requires d + 1 < |part| && part[d] <= i < part[d + 1] && |yd| == part[d + 1] - part[d]
    requires RunsBelow(RemoteRows(A, part[d], part[d + 1], remote[d]), |remote[d]|)
    requires r == RowsProduct(RemoteRows(A, part[d], part[d + 1], remote[d]), Received(remote[d], x), yd, alpha, true)
    ensures r[i - part[d]] == yd[i - part[d]] + alpha * RemoteSum(A, part, remote, x, i)
  {
    var beg, end, R := part[d], part[d + 1], remote[d];
    var rows := RemoteRows(A, beg, end, R);
    var k := i - beg;
    var sum := Dot(rows[k].col, rows[k].val, Received(R, x));
    assert r[k] == yd[k] + alpha * sum;
    RemoteRowAt(A, beg, end, R, k);
    assert beg + k == i && beg + k + 1 == i + 1;
    assert rows[k] == Remote(A, beg, end, R, A.row[i], A.row[i + 1]);
    RemoteSumAt(A, part, remote, x, d, i);
  }

  /** The ghost sum of row i, read from its owner d's ghost entries. */
  lemma RemoteSumAt(A: Csr, part: seq<nat>, remote: seq<seq<nat>>, x: seq<int>, d: nat, i: nat)
    requires ValidMatrix(|x|, A) && ValidPartition(part, |x|)
    requires GhostsBelow(A, part, remote, |x|)
    requires d + 1 < |part| && part[d] <= i < part[d + 1]
    ensures A.row[part[d]] <= A.row[i] <= A.row[i + 1] <= A.row[part[d + 1]]
    ensures RemoteSum(A, part, remote, x, i) ==
      var e := Remote(A, part[d], part[d + 1], remote[d], A.row[i], A.row[i + 1]);
      Dot(e.col, e.val, Received(remote[d], x))
  {
    OwnerUnique(part, i, d);
    assert part[d + 1] <= part[|part| - 1];
  }

  /** The two passes of `mul` together give row i of the product. */
  lemma MulRow(A: Csr, part: seq<nat>, remote: seq<seq<nat>>, x: seq<int>, i: nat,
               y0: int, alpha: int, append: bool, y: int)
    requires ValidMatrix(|x|, A) && ValidPartition(part, |x|) && i < |x|
    requires GhostsBelow(A, part, remote, |x|)
    requires y == (if append then y0 else 0) + alpha * LocalSum(A, part, x, i) + alpha * RemoteSum(A, part, remote, x, i)
    ensures y == (if append then y0 else 0) + alpha * RowSum(A, i, x)
  {
    RowSplits(A, part, remote, x, i);
    Distributes(alpha, LocalSum(A, part, x, i), RemoteSum(A, part, remote, x, i));
  }

  lemma Distributes(a: int, l: int, r: int)
    ensures a * l + a * r == a * (l + r)
  {
  }

  /** A vector whose every row is that of the product is the product. */
  lemma ProductByRows(A: Csr, x: seq<int>, y0: seq<int>, alpha: int, append: bool, y: seq<int>)
    requires WellFormed(A) && ColumnsBelow(A.col, |x|) && |y0| == |y| == Rows(A)
    requires forall i :: 0 <= i < |y| ==> y[i] == (if append then y0[i] else 0) + alpha * RowSum(A, i, x)
    ensures y == Product(A, x, y0, alpha, append)
  {
  }

  /** Writing src into dst at position `at`, the other entries untouched
      (the device slice y(d), or rx[cidx[d]..] for the read-back). */
  method Store(dst: array<int>, at: nat, src: seq<int>)
    requires at + |src| <= dst.Length
    modifies dst
    ensures forall k :: 0 <= k < dst.Length ==>
      dst[k] == if at <= k < at + |src| then src[k - at] else old(dst[k])
  {
    var i := 0;
    while i < |src|
      invariant i <= |src|
      invariant forall k :: 0 <= k < dst.Length ==>
        dst[k] == if at <= k < at + i then src[k - at] else old(dst[k])
    {
      dst[at + i] := src[i];
      i := i + 1;
    }
  }

  /** `y = expr + A*x` (alpha 1) or `y = expr - A*x` (alpha -1): the
      expression, already evaluated, and the product to combine with it. */
  datatype Combination = Combination(expr: seq<int>, alpha: int, x: seq<int>)

  /** `operator+(expr, A*x)`. */
  function PlusProduct(expr: seq<int>, x: seq<int>): Combination
  {
    Combination(expr, 1, x)
  }

  /** `operator-(expr, A*x)`. */
  function MinusProduct(expr: seq<int>, x: seq<int>): Combination
  {
    Combination(expr, -1, x)
  }

  class SpMat {
    const n: nat
    const part: seq<nat>
    /** The global matrix the strips were cut from. */
    ghost const A: Csr
    /** `remote_cols`, kept by the constructor only while it builds strips. */
    ghost const remoteCols: seq<seq<nat>>
    /** The send list before the subtraction, also local to the constructor. */
    ghost const sendCols: seq<nat>
    const mtx: seq<Strip>
    /** `exc[d].cols_to_recv` */
    const colsToRecv: seq<seq<nat>>
    /** `exc[d].cols_to_send`: the device's send offsets */
    const colsToSend: seq<seq<nat>>
    const cidx: seq<nat>
    /** Host copy of every value some device sends. */
    const rx: array<int>
    /** `exc[d].vals_to_recv` */
    var valsToRecv: seq<seq<int>>

    /** What the constructor fixes once: the exchange plan and the strips. */
    ghost predicate Static()
    {
      ValidMatrix(n, A) && ValidPartition(part, n) &&
      Planned(n, A, part, remoteCols, sendCols, colsToRecv, colsToSend, cidx) &&
      Built(A, part, remoteCols, mtx) &&
      rx.Length == |sendCols|
    }

    /** One receive buffer per device, as long as its receive list. */
    ghost predicate Buffers()
      reads this
    {
      |valsToRecv| == |colsToRecv| &&
      forall d :: 0 <= d < |colsToRecv| ==> |valsToRecv[d]| == |colsToRecv[d]|
    }

    ghost predicate Valid()
      reads this
    {
      Static() && Buffers()
    }

    /** The constructor over rows 0 .. n-1 split by `part`, with `kinds[d]`
        the type of device d. */
    constructor (n: nat, A: Csr, part: seq<nat>, kinds: seq<DeviceKind>)
      requires ValidMatrix(n, A) && ValidPartition(part, n) && |kinds| == |part| - 1
      ensures Valid() && fresh(rx)
      ensures this.n == n && this.A == A && this.part == part
      ensures forall d :: 0 <= d < |kinds| ==> (mtx[d].NoStrip? <==> part[d] == part[d + 1])
      ensures forall d :: 0 <= d < |kinds| && part[d] < part[d + 1] ==> (mtx[d].CsrStrip? <==> kinds[d] == Cpu)
    {
      var remote, send, recv, off, c := SetupExchange(n, A, part);
      var strips := BuildStrips(A, part, remote, kinds);
      this.n := n;
      this.part := part;
      this.A := A;
      remoteCols := remote;
      sendCols := send;
      mtx := strips;
      colsToRecv := recv;
      colsToSend := off;
      cidx := c;
      rx := new int[|send|];
      valsToRecv := seq(|recv|, d requires 0 <= d < |recv| => seq(|recv[d]|, _ => 0));
    }

    /** The gather half of `mul`: each device with something to send gathers
        x at its send offsets and the values are read back into rx at
        cidx[d], so rx holds x at every send column. */
    method GatherSent(x: seq<int>)
      requires ValidPartition(part, n) && |x| == n && ColumnsBelow(sendCols, n)
      requires SendPlan(sendCols, part, colsToSend, cidx) && rx.Length == |sendCols|
      modifies rx
      ensures forall k :: 0 <= k < rx.Length ==> rx[k] == x[sendCols[k]]
    {
      if rx.Length > 0 {
        var d := 0;
        while d < |part| - 1
          invariant d <= |part| - 1
          invariant forall k :: 0 <= k < cidx[d] ==> rx[k] == x[sendCols[k]]
        {
          var beg, end := part[d], part[d + 1];
          assert beg <= end <= n;
          if cidx[d + 1] - cidx[d] > 0 {
            var off := colsToSend[d];
            assert ColumnsBelow(off, end - beg);
            var vals := Gather(x[beg..end], off);
            Store(rx, cidx[d], vals);
            forall k | cidx[d] <= k < cidx[d + 1] ensures rx[k] == x[sendCols[k]] {
              assert rx[k] == vals[k - cidx[d]] == x[beg + off[k - cidx[d]]];
            }
          }
          d := d + 1;
        }
      }
    }

    /** The local half of `mul`: every device with rows runs its local
        kernel on its slices of x and y, honouring `append`. */
    method LocalPass(x: seq<int>, y: array<int>, alpha: int, append: bool)
      requires Static() && |x| == n && y.Length == n
      modifies y
      ensures forall i :: 0 <= i < n ==>
        y[i] == (if append then old(y[i]) else 0) + alpha * LocalSum(A, part, x, i)
    {
      var d := 0;
      while d < |part| - 1
        invariant d <= |part| - 1
        invariant forall i :: 0 <= i < part[d] ==>
          y[i] == (if append then old(y[i]) else 0) + alpha * LocalSum(A, part, x, i)
        invariant forall i :: part[d] <= i < n ==> y[i] == old(y[i])
      {
        assert part[d] <= part[d + 1] <= n;
        if !mtx[d].NoStrip? {
          LocalDevice(d, x, y, alpha, append);
        }
        d := d + 1;
      }
    }

    /** `mtx[d]->mul_local(x(d), y(d), alpha, append)`: device d's rows of
        y take their local sums, the other rows are untouched. */
    method LocalDevice(d: nat, x: seq<int>, y: array<int>, alpha: int, append: bool)
      requires ValidMatrix(n, A) && ValidPartition(part, n) && Built(A, part, remoteCols, mtx)
      requires d + 1 < |part| && |x| == n && y.Length == n
      modifies y
      ensures forall i :: 0 <= i < n ==>
        y[i] == if part[d] <= i < part[d + 1]
                then (if append then old(y[i]) else 0) + alpha * LocalSum(A, part, x, i)
                else old(y[i])
    {
      var beg, end := part[d], part[d + 1];
      assert beg <= end <= n;
      ghost var y0 := y[..];
      var yd := y[beg..end];
      var r := DeviceLocal(A, part, remoteCols, mtx, d, x, yd, alpha, append);
      Store(y, beg, r);
      LocalSpliced(A, part, x, d, y0, y[..], alpha, append, r);
    }

    /** The scatter for device d: `vals_to_recv[i] = rx[cols_to_recv[i]]`. */
    method Scatter(d: nat)
      requires Buffers() && d < |colsToRecv|
      requires forall i :: 0 <= i < |colsToRecv[d]| ==> colsToRecv[d][i] < rx.Length
      modifies this
      ensures Buffers()
      ensures |valsToRecv| == |old(valsToRecv)|
      ensures forall t :: 0 <= t < |valsToRecv| && t != d ==> valsToRecv[t] == old(valsToRecv)[t]
      ensures |valsToRecv[d]| == |colsToRecv[d]|
      ensures forall i :: 0 <= i < |colsToRecv[d]| ==> valsToRecv[d][i] == rx[colsToRecv[d][i]]
    {
      var recv := colsToRecv[d];
      var i := 0;
      while i < |recv|
        invariant i <= |recv|
        invariant |valsToRecv| == |old(valsToRecv)|
        invariant forall t :: 0 <= t < |valsToRecv| && t != d ==> valsToRecv[t] == old(valsToRecv)[t]
        invariant |valsToRecv[d]| == |recv|
        invariant forall k :: 0 <= k < i ==> valsToRecv[d][k] == rx[recv[k]]
      {
        valsToRecv := valsToRecv[d := valsToRecv[d][i := rx[recv[i]]]];
        i := i + 1;
      }
    }

    /** The ghost half of `mul`, run only when something is exchanged: each
        device with ghost columns receives their values and its ghost kernel
        adds to y, whatever `append` was. */
    method RemotePass(x: seq<int>, y: array<int>, alpha: int)
      requires ValidMatrix(n, A) && ValidPartition(part, n) && Built(A, part, remoteCols, mtx)
      requires GhostsBelow(A, part, remoteCols, n) && RecvPlan(sendCols, remoteCols, colsToRecv)
      requires Elems(sendCols) == Union(remoteCols) && ColumnsBelow(sendCols, n)
      requires Buffers() && rx.Length == |sendCols| && |x| == n && y.Length == n && y != rx
      requires forall k :: 0 <= k < rx.Length ==> rx[k] == x[sendCols[k]]
      modifies this, y
      ensures Buffers()
      ensures forall i :: 0 <= i < n ==> y[i] == old(y[i]) + alpha * RemoteSum(A, part, remoteCols, x, i)
    {
      if rx.Length > 0 {
        RemoteDevices(x, y, alpha);
      } else {
        NothingExchanged(A, part, remoteCols, sendCols, x);
        forall i | 0 <= i < n ensures y[i] == old(y[i]) + alpha * RemoteSum(A, part, remoteCols, x, i) {
          assert RemoteSum(A, part, remoteCols, x, i) == 0;
        }
      }
    }

    /** The loop over devices of the ghost pass. */
    method RemoteDevices(x: seq<int>, y: array<int>, alpha: int)
      requires ValidMatrix(n, A) && ValidPartition(part, n) && Built(A, part, remoteCols, mtx)
      requires GhostsBelow(A, part, remoteCols, n) && RecvPlan(sendCols, remoteCols, colsToRecv)
      requires Elems(sendCols) == Union(remoteCols) && ColumnsBelow(sendCols, n)
      requires Buffers() && rx.Length == |sendCols| && |x| == n && y.Length == n && y != rx
      requires forall k :: 0 <= k < rx.Length ==> rx[k] == x[sendCols[k]]
      modifies this, y
      ensures Buffers()
      ensures forall i :: 0 <= i < n ==> y[i] == old(y[i]) + alpha * RemoteSum(A, part, remoteCols, x, i)
    {
      ghost var g := seq(n, i requires 0 <= i < n => RemoteSum(A, part, remoteCols, x, i));
      var d := 0;
      while d < |part| - 1
        invariant d <= |part| - 1 && Buffers()
        invariant forall i :: 0 <= i < part[d] ==> y[i] == old(y[i]) + alpha * g[i]
        invariant forall i :: part[d] <= i < n ==> y[i] == old(y[i])
      {
        assert part[d] <= part[d + 1] <= n;
        RemoteStage(d, x, y, alpha);
        d := d + 1;
      }
    }

    /** Device d's turn in the ghost pass: nothing happens unless the device
        receives ghost values. */
    method RemoteStage(d: nat, x: seq<int>, y: array<int>, alpha: int)
      requires ValidMatrix(n, A) && ValidPartition(part, n) && Built(A, part, remoteCols, mtx)
      requires GhostsBelow(A, part, remoteCols, n) && ColumnsBelow(sendCols, n)
      requires d + 1 < |part| && |x| == n && y.Length == n && y != rx
      requires |colsToRecv| == |part| - 1 && RecvLayout(sendCols, remoteCols[d], colsToRecv[d])
      requires Buffers() && rx.Length == |sendCols|
      requires forall k :: 0 <= k < rx.Length ==> rx[k] == x[sendCols[k]]
      modifies this, y
      ensures Buffers()
      ensures forall i :: 0 <= i < n ==>
        y[i] == if part[d] <= i < part[d + 1]
                then old(y[i]) + alpha * RemoteSum(A, part, remoteCols, x, i)
                else old(y[i])
    {
      if |colsToRecv[d]| > 0 {
        RemoteDevice(d, x, y, alpha);
      } else {
        DeviceWithoutGhosts(A, part, remoteCols, x, d);
      }
    }

    /** Device d's share of the ghost pass: the scatter into its receive
        buffer, then `mtx[d]->mul_remote(exc[d].rx, y(d), alpha)`, which
        adds the rows' ghost sums to device d's rows of y. */
    method RemoteDevice(d: nat, x: seq<int>, y: array<int>, alpha: int)
      requires ValidMatrix(n, A) && ValidPartition(part, n) && Built(A, part, remoteCols, mtx)
      requires GhostsBelow(A, part, remoteCols, n) && ColumnsBelow(sendCols, n)
      requires d + 1 < |part| && |x| == n && y.Length == n && y != rx
      requires |colsToRecv| == |part| - 1 && RecvLayout(sendCols, remoteCols[d], colsToRecv[d])
      requires |colsToRecv[d]| > 0 && Buffers() && rx.Length == |sendCols|
      requires forall k :: 0 <= k < rx.Length ==> rx[k] == x[sendCols[k]]
      modifies this, y
      ensures Buffers()
      ensures forall i :: 0 <= i < n ==>
        y[i] == if part[d] <= i < part[d + 1]
                then old(y[i]) + alpha * RemoteSum(A, part, remoteCols, x, i)
                else old(y[i])
    {
      Scatter(d);
      ScatterReceives(sendCols, remoteCols[d], colsToRecv[d], rx[..], x, valsToRecv[d]);
      RemoteApply(d, x, y, alpha, valsToRecv[d]);
    }

    /** Device d's ghost kernel on its receive buffer and its slice of y. */
    method RemoteKernel(d: nat, vals: seq<int>, yd: seq<int>, alpha: int) returns (r: seq<int>)
      requires ValidMatrix(n, A) && ValidPartition(part, n) && Built(A, part, remoteCols, mtx)
      requires d + 1 < |part| && |remoteCols[d]| > 0
      requires |vals| == |remoteCols[d]| && |yd| == part[d + 1] - part[d]
      ensures Covered(A, part[d], part[d + 1], remoteCols[d], A.row[part[d]], A.row[part[d + 1]])
      ensures RunsBelow(RemoteRows(A, part[d], part[d + 1], remoteCols[d]), |vals|)
      ensures r == RowsProduct(RemoteRows(A, part[d], part[d + 1], remoteCols[d]), vals, yd, alpha, true)
    {
      assert part[d] <= part[d + 1] <= n;
      r := RemoteMul(mtx[d], A, part[d], part[d + 1], remoteCols[d], vals, yd, alpha);
    }

    /** `mtx[d]->mul_remote(exc[d].rx, y(d), alpha)` once the receive buffer
        holds x at the device's ghost columns. */
    method RemoteApply(d: nat, x: seq<int>, y: array<int>, alpha: int, vals: seq<int>)
      requires ValidMatrix(n, A) && ValidPartition(part, n) && Built(A, part, remoteCols, mtx)
      requires GhostsBelow(A, part, remoteCols, n)
      requires d + 1 < |part| && |x| == n && y.Length == n
      requires |remoteCols[d]| > 0 && vals == Received(remoteCols[d], x)
      modifies y
      ensures forall i :: part[d] <= i < part[d + 1] ==>
        y[i] == old(y[i]) + alpha * RemoteSum(A, part, remoteCols, x, i)
      ensures forall i :: 0 <= i < n && !(part[d] <= i < part[d + 1]) ==> y[i] == old(y[i])
    {
      var beg, end := part[d], part[d + 1];
      assert beg <= end <= n;
      var yd := y[beg..end];
      ghost var y0 := y[..];
      var r := RemoteKernel(d, vals, yd, alpha);
      Store(y, beg, r);
      RemoteSpliced(A, part, remoteCols, x, d, y0, y[..], alpha, r);
    }

    /** `mul(x, y, alpha, append)`: y = alpha*A*x, or y += alpha*A*x when
        appending. */
    method Mul(x: seq<int>, y: array<int>, alpha: int, append: bool)
      requires Valid() && |x| == n && y.Length == n && y != rx
      modifies this, rx, y
      ensures Valid()
      ensures y[..] == Product(A, x, old(y[..]), alpha, append)
    {
      GatherSent(x);
      ghost var y0 := y[..];
      LocalPass(x, y, alpha, append);
      RemotePass(x, y, alpha);
      forall i | 0 <= i < n
        ensures y[..][i] == (if append then y0[i] else 0) + alpha * RowSum(A, i, x)
      {
        MulRow(A, part, remoteCols, x, i, y0[i], alpha, append, y[i]);
      }
      ProductByRows(A, x, y0, alpha, append, y[..]);
    }

    /** `y = A * x`. */
    method Assign(x: seq<int>, y: array<int>)
      requires Valid() && |x| == n && y.Length == n && y != rx
      modifies this, rx, y
      ensures Valid()
      ensures forall i :: 0 <= i < n ==> y[i] == RowSum(A, i, x)
    {
      Mul(x, y, 1, false);
    }

    /** `y += A * x`. */
    method AddAssign(x: seq<int>, y: array<int>)
      requires Valid() && |x| == n && y.Length == n && y != rx
      modifies this, rx, y
      ensures Valid()
      ensures forall i :: 0 <= i < n ==> y[i] == old(y[i]) + RowSum(A, i, x)
    {
      Mul(x, y, 1, true);
    }

    /** `y -= A * x`. */
    method SubAssign(x: seq<int>, y: array<int>)
      requires Valid() && |x| == n && y.Length == n && y != rx
      modifies this, rx, y
      ensures Valid()
      ensures forall i :: 0 <= i < n ==> y[i] == old(y[i]) - RowSum(A, i, x)
    {
      Mul(x, y, -1, true);
    }

    /** `y = expr ± A * x`: y first takes the expression's value, then the
        product is appended with the combination's sign. */
    method AssignCombination(c: Combination, y: array<int>)
      requires Valid() && |c.x| == n && |c.expr| == n && y.Length == n && y != rx
      modifies this, rx, y
      ensures Valid()
      ensures forall i :: 0 <= i < n ==> y[i] == c.expr[i] + c.alpha * RowSum(A, i, c.x)
    {
      Store(y, 0, c.expr);
      assert y[..] == c.expr;
      Mul(c.x, y, c.alpha, true);
    }
  }
}
