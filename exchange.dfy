/** Planning of the ghost-value exchange between devices
    (`SpMat::setup_exchange`): the ordered ghost-column set of every device,
    the global ordered send list, each device's receive positions in that
    list, the per-device boundaries `cidx` of the send list and the send
    columns made local to their owning device. */
module Exchange {
  import opened Sparse
  import opened SortedSet
  import opened Slices

  /** The columns device `beg .. end-1` reads but does not own: those of its
      non-zeros that fall outside its row range. */
  ghost function GhostSet(A: Csr, beg: nat, end: nat): set<nat>
    requires WellFormed(A) && beg <= end <= Rows(A)
  {
    Outside(A, beg, end, A.row[beg], A.row[end])
  }

  /** `remote_cols[d]` for the device owning rows beg .. end-1: every entry
      of those rows is visited in order and each out-of-range column is
      inserted into the ordered set. */
  method GhostColumns(A: Csr, beg: nat, end: nat) returns (rc: seq<nat>)
    requires WellFormed(A) && beg <= end <= Rows(A)
    ensures Sorted(rc) && Elems(rc) == GhostSet(A, beg, end)
    ensures beg == end ==> rc == []
  {
    rc := [];
    var i := beg;
    while i < end
      invariant beg <= i <= end
      invariant Sorted(rc) && Elems(rc) == Outside(A, beg, end, A.row[beg], A.row[i])
    {
      var j := A.row[i];
      while j < A.row[i + 1]
        invariant A.row[i] <= j <= A.row[i + 1]
        invariant Sorted(rc) && Elems(rc) == Outside(A, beg, end, A.row[beg], j)
      {
        if A.col[j] < beg || A.col[j] >= end {
          rc := Insert(rc, A.col[j]);
        }
        j := j + 1;
      }
      i := i + 1;
    }
    assert |rc| > 0 ==> rc[0] in Elems(rc);
  }

  /** Whether rc is the ghost set of device d under partition `part`. */
  ghost predicate GhostsOf(A: Csr, part: seq<nat>, d: nat, rc: seq<nat>)
    requires WellFormed(A) && ValidPartition(part, Rows(A)) && d + 1 < |part|
  {
    Sorted(rc) && Elems(rc) == GhostSet(A, part[d], part[d + 1])
  }

  /** The ghost sets of all devices, one per consecutive pair of `part`. */
  method AllGhostColumns(A: Csr, part: seq<nat>) returns (remote: seq<seq<nat>>)
    requires WellFormed(A) && ValidPartition(part, Rows(A))
    ensures |remote| == |part| - 1
    ensures forall d :: 0 <= d < |remote| ==> GhostsOf(A, part, d, remote[d])
    ensures forall d :: 0 <= d < |remote| && part[d] == part[d + 1] ==> remote[d] == []
  {
    remote := [];
    var d := 0;
    while d < |part| - 1
      invariant d <= |part| - 1 && |remote| == d
      invariant forall t :: 0 <= t < d ==> GhostsOf(A, part, t, remote[t])
      invariant forall t :: 0 <= t < d && part[t] == part[t + 1] ==> remote[t] == []
    {
      var rc := GhostColumns(A, part[d], part[d + 1]);
      remote := remote + [rc];
      d := d + 1;
    }
  }

  /** The union of the elements of all the given sequences. */
  ghost function Union(rs: seq<seq<nat>>): set<nat>
  {
    if |rs| == 0 then {} else Union(rs[..|rs| - 1]) + Elems(rs[|rs| - 1])
  }

  /** A column is in the union exactly when some sequence holds it. */
  lemma {:induction false} UnionMembers(rs: seq<seq<nat>>, c: nat)
    ensures c in Union(rs) <==> exists d :: 0 <= d < |rs| && c in rs[d]
    decreases |rs|
  {
    if |rs| > 0 {
      var front := rs[..|rs| - 1];
      UnionMembers(front, c);
      if c in Union(rs) && c !in Elems(rs[|rs| - 1]) {
        var d :| 0 <= d < |front| && c in front[d];
        assert c in rs[d];
      }
      if exists d :: 0 <= d < |rs| && c in rs[d] {
        var d :| 0 <= d < |rs| && c in rs[d];
        if d < |rs| - 1 {
          assert c in front[d];
        }
      }
    }
  }

  /** The global send list: every device's ghost set inserted into one
      ordered set, then copied out in order. */
  method SendList(remote: seq<seq<nat>>) returns (send: seq<nat>)
    ensures Sorted(send) && Elems(send) == Union(remote)
  {
    send := [];
    var d := 0;
    while d < |remote|
      invariant d <= |remote|
      invariant Sorted(send) && Elems(send) == Union(remote[..d])
    {
      var k := 0;
      while k < |remote[d]|
        invariant k <= |remote[d]|
        invariant Sorted(send) && Elems(send) == Union(remote[..d]) + Elems(remote[d][..k])
      {
        assert remote[d][..k + 1] == remote[d][..k] + [remote[d][k]];
        send := Insert(send, remote[d][k]);
        k := k + 1;
      }
      assert remote[d][..k] == remote[d];
      assert remote[..d + 1][..d] == remote[..d];
      d := d + 1;
    }
    assert remote[..d] == remote;
  }

  /** Receive layout of one device: position t of its ghost set is found at
      position recv[t] of the send list, and the positions increase. */
  predicate RecvLayout(send: seq<nat>, rc: seq<nat>, recv: seq<nat>)
  {
    |recv| == |rc| && Sorted(recv) &&
    forall t :: 0 <= t < |recv| ==> recv[t] < |send| && send[recv[t]] == rc[t]
  }

  /** The receive positions after scanning send-list positions 0 .. i-1:
      found in order, and every ghost column not yet found still ahead. */
  predicate RecvUpTo(send: seq<nat>, rc: seq<nat>, recv: seq<nat>, i: nat)
  {
    i <= |send| && |recv| <= |rc| && Sorted(recv) &&
    (forall t :: 0 <= t < |recv| ==> recv[t] < i && send[recv[t]] == rc[t]) &&
    (forall t :: |recv| <= t < |rc| ==> rc[t] in send[i..]) &&
    (|recv| < |rc| ==> rc[|recv|] in send[i..])
  }

  /** The scan records position i exactly when its column is a ghost
      column of the device. */
  function RecvNext(send: seq<nat>, rc: seq<nat>, recv: seq<nat>, i: nat): seq<nat>
    requires i < |send|
  {
    if send[i] in rc then recv + [i] else recv
  }

  /** One step of the scan keeps the receive positions in order and
      complete so far. */
  lemma RecvStep(send: seq<nat>, rc: seq<nat>, recv: seq<nat>, i: nat)
    requires Sorted(send) && Sorted(rc) && i < |send|
    requires RecvUpTo(send, rc, recv, i)
    ensures RecvUpTo(send, rc, RecvNext(send, rc, recv, i), i + 1)
  {
    if send[i] in rc {
      RecvFound(send, rc, recv, i);
    } else {
      RecvSkipped(send, rc, recv, i);
    }
  }

  /** Position i holds a ghost column: it is the next one expected. */
  lemma RecvFound(send: seq<nat>, rc: seq<nat>, recv: seq<nat>, i: nat)
    requires Sorted(send) && Sorted(rc) && i < |send| && send[i] in rc
    requires RecvUpTo(send, rc, recv, i)
    ensures RecvUpTo(send, rc, recv + [i], i + 1)
  {
    var j := |recv|;
    assert send[i..] == [send[i]] + send[i + 1..];
    var t := IndexIn(rc, send[i]);
    assert rc[t] in send[i..];
    assert j < |rc|;
    assert rc[j] in send[i..];
    NextExpected(send, rc, j, t, i);
    var recv' := recv + [i];
    forall a, b | 0 <= a < b < |recv'| ensures recv'[a] < recv'[b] {
      if b == j {
        assert recv[a] < i;
      }
    }
    forall t' | j + 1 <= t' < |rc| ensures rc[t'] in send[i + 1..] {
      assert rc[t'] in send[i..];
      assert rc[j] < rc[t'];
    }
  }

  /** The next expected ghost column rc[j] is at or after position i, so a
      ghost column found at position i is rc[j] itself. */
  lemma NextExpected(send: seq<nat>, rc: seq<nat>, j: nat, t: nat, i: nat)
    requires Sorted(send) && Sorted(rc) && i < |send|
    requires j <= t < |rc| && rc[t] == send[i] && rc[j] in send[i..]
    ensures t == j
  {
    var q :| 0 <= q < |send[i..]| && send[i..][q] == rc[j];
    assert send[i + q] == rc[j];
    assert send[i] <= send[i + q] by {
      if q > 0 { assert send[i] < send[i + q]; }
    }
  }

  /** Position i holds no ghost column: nothing is recorded. */
  lemma RecvSkipped(send: seq<nat>, rc: seq<nat>, recv: seq<nat>, i: nat)
    requires Sorted(send) && Sorted(rc) && i < |send| && send[i] !in rc
    requires RecvUpTo(send, rc, recv, i)
    ensures RecvUpTo(send, rc, recv, i + 1)
  {
    var j := |recv|;
    assert send[i..] == [send[i]] + send[i + 1..];
    forall t' | j <= t' < |rc| ensures rc[t'] in send[i + 1..] {
      assert rc[t'] in send[i..];
      assert rc[t'] in rc;
    }
  }

  /** Before the scan every ghost column lies ahead. */
  lemma RecvStart(send: seq<nat>, rc: seq<nat>)
    requires Elems(rc) <= Elems(send)
    ensures RecvUpTo(send, rc, [], 0)
  {
    forall t | 0 <= t < |rc| ensures rc[t] in send[0..] {
      assert rc[t] in Elems(rc);
      assert send[0..] == send;
    }
  }

  /** At the end of the scan every ghost column has been found. */
  lemma RecvDone(send: seq<nat>, rc: seq<nat>, recv: seq<nat>)
    requires RecvUpTo(send, rc, recv, |send|)
    ensures RecvLayout(send, rc, recv)
  {
    assert send[|send|..] == [];
  }

  /** `cols_to_recv` of one device: the send-list positions whose column the
      device's ghost set holds, in increasing order. */
  method ColsToRecv(send: seq<nat>, rc: seq<nat>) returns (recv: seq<nat>)
    requires Sorted(send) && Sorted(rc) && Elems(rc) <= Elems(send)
    ensures RecvLayout(send, rc, recv)
  {
    recv := [];
    var i := 0;
    RecvStart(send, rc);
    while i < |send|
      invariant RecvUpTo(send, rc, recv, i)
    {
      RecvStep(send, rc, recv, i);
      recv := RecvNext(send, rc, recv, i);
      i := i + 1;
    }
    RecvDone(send, rc, recv);
  }

  /** The device boundaries of the send list: before cidx[d] every column
      is below part[d], from cidx[d] on none is. */
  predicate SplitsAt(send: seq<nat>, part: seq<nat>, cidx: seq<nat>)
  {
    |cidx| == |part| &&
    forall d :: 0 <= d < |cidx| ==>
      cidx[d] <= |send| &&
      (forall k :: 0 <= k < cidx[d] ==> send[k] < part[d]) &&
      (forall k :: cidx[d] <= k < |send| ==> part[d] <= send[k])
  }

  /** `cidx`: for every entry of `part` the lower bound of the send list,
      each search starting where the previous one ended. */
  method Boundaries(send: seq<nat>, part: seq<nat>) returns (cidx: seq<nat>)
    requires Sorted(send) && NonDecreasing(part)
    ensures SplitsAt(send, part, cidx) && NonDecreasing(cidx)
  {
    cidx := [];
    var start := 0;
    var d := 0;
    while d < |part|
      invariant d <= |part| && |cidx| == d && start <= |send|
      invariant forall t :: 0 <= t < d ==>
        cidx[t] <= |send| &&
        (forall k :: 0 <= k < cidx[t] ==> send[k] < part[t]) &&
        (forall k :: cidx[t] <= k < |send| ==> part[t] <= send[k])
      invariant NonDecreasing(cidx)
      invariant start == if d > 0 then cidx[d - 1] else 0
      invariant d > 0 ==> forall k :: 0 <= k < start ==> send[k] < part[d - 1]
    {
      var c := LowerBound(send, start, |send|, part[d]);
      assert d > 0 ==> part[d - 1] <= part[d];
      cidx := cidx + [c];
      start := c;
      d := d + 1;
    }
  }

  /** The send-list positions device d owns are exactly those whose column
      lies in the device's row range; with every column below n the device
      ranges start at 0 and end at the list's end. */
  lemma BoundariesCover(send: seq<nat>, part: seq<nat>, n: nat, cidx: seq<nat>)
    requires ValidPartition(part, n) && ColumnsBelow(send, n)
    requires SplitsAt(send, part, cidx)
    ensures cidx[0] == 0 && cidx[|cidx| - 1] == |send|
    ensures forall d, k :: 0 <= d < |part| - 1 && 0 <= k < |send| ==>
      (cidx[d] <= k < cidx[d + 1] <==> part[d] <= send[k] < part[d + 1])
  {
    // the first and the last send column, for the quantifiers of SplitsAt
    assert |send| > 0 ==> 0 <= send[0] && send[|send| - 1] < n;
  }

  /** Every send-list position has an owning device. */
  lemma {:induction false} OwnerExists(send: seq<nat>, part: seq<nat>, cidx: seq<nat>, k: nat, d0: nat)
    requires |cidx| == |part| && d0 < |cidx| && NonDecreasing(cidx)
    requires cidx[d0] <= k < cidx[|cidx| - 1]
    ensures exists d :: d0 <= d < |part| - 1 && cidx[d] <= k < cidx[d + 1]
    decreases |cidx| - d0
  {
    if k >= cidx[d0 + 1] {
      OwnerExists(send, part, cidx, k, d0 + 1);
    }
  }

  /** Send offsets: the columns of device d's stretch of the send list,
      shifted down by part[d], address the device's own part of x. */
  predicate LocalOffsets(send: seq<nat>, part: seq<nat>, cidx: seq<nat>, off: seq<nat>)
    requires |cidx| == |part| && forall d :: 0 <= d < |cidx| ==> cidx[d] <= |send|
  {
    |off| == |send| &&
    forall d, i :: 0 <= d < |part| - 1 && cidx[d] <= i < cidx[d + 1] ==>
      part[d] + off[i] == send[i] && send[i] < part[d + 1]
  }

  /** `cols_to_send[i] -= p` for every i in [lo, hi). */
  method ShiftRange(cols: array<nat>, lo: nat, hi: nat, p: nat)
    requires lo <= hi <= cols.Length
    requires forall i :: lo <= i < hi ==> p <= cols[i]
    modifies cols
    ensures forall i :: 0 <= i < cols.Length ==>
      cols[i] == if lo <= i < hi then old(cols[i]) - p else old(cols[i])
  {
    var i := lo;
    while i < hi
      invariant lo <= i <= hi
      invariant forall k :: 0 <= k < cols.Length ==>
        cols[k] == if lo <= k < i then old(cols[k]) - p else old(cols[k])
    {
      cols[i] := cols[i] - p;
      i := i + 1;
    }
  }

  /** The in-place subtraction `cols_to_send[i] -= part[d]` over each
      device's stretch [cidx[d], cidx[d+1]) of the send list. */
  method ShiftToLocal(cols: array<nat>, part: seq<nat>, cidx: seq<nat>)
    requires |part| > 0 && NonDecreasing(cidx) && SplitsAt(cols[..], part, cidx)
    modifies cols
    ensures LocalOffsets(old(cols[..]), part, cidx, cols[..])
  {
    ghost var send := cols[..];
    var d := 0;
    while d < |part| - 1
      invariant d <= |part| - 1
      invariant cols.Length == |send|
      invariant forall t, i :: 0 <= t < d && cidx[t] <= i < cidx[t + 1] ==>
        part[t] + cols[i] == send[i] && send[i] < part[t + 1]
      invariant forall i :: cidx[d] <= i < cols.Length ==> cols[i] == send[i]
    {
      ShiftRange(cols, cidx[d], cidx[d + 1], part[d]);
      d := d + 1;
    }
  }

  /** `gather_vals_to_send` on device d: the values of the device's part of
      x at the device's local send offsets. */
  function Gather(xd: seq<int>, off: seq<nat>): (vals: seq<int>)
    requires ColumnsBelow(off, |xd|)
    ensures |vals| == |off| && forall i :: 0 <= i < |off| ==> vals[i] == xd[off[i]]
  {
    seq(|off|, i requires 0 <= i < |off| => xd[off[i]])
  }
}
