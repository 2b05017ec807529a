/** One device's strip of the distributed matrix: the backend the `SpMat`
    constructor picks for it (compact rows on CPU devices, padded ELL on
    the others, nothing for an empty row range), and what the strip's
    `mul_local` and `mul_remote` compute. */
module Strips {
  import opened Sparse
  import opened SortedSet
  import opened Slices
  import CsrBackend
  import EllBackend

  /** The device-type tag that selects the backend. */
  datatype DeviceKind = Cpu | Accelerator

  /** `mtx[d]`: empty for a device without rows, else one of the backends. */
  datatype Strip = NoStrip | CsrStrip(c: CsrBackend.CsrSlice) | EllStrip(e: EllBackend.Ell)

  /** The strip of rows beg .. end-1 with ordered ghost set R is built as
      its backend's constructor guarantees. */
  ghost predicate StripHolds(b: Strip, A: Csr, beg: nat, end: nat, R: seq<nat>)
    requires WellFormed(A) && beg <= end <= Rows(A)
    requires Covered(A, beg, end, R, A.row[beg], A.row[end])
  {
    match b
    case NoStrip => beg == end
    case CsrStrip(c) => beg < end && CsrBackend.Holds(c, A, beg, end, R)
    case EllStrip(e) => beg < end && EllBackend.Holds(e, A, beg, end, R)
  }

  /** The constructor's choice for one device: no strip for an empty row
      range, `SpMatCSR` for a CPU device and `SpMatELL` otherwise. */
  method BuildStrip(kind: DeviceKind, A: Csr, beg: nat, end: nat, R: seq<nat>) returns (b: Strip)
    requires WellFormed(A) && beg <= end <= Rows(A)
    requires Sorted(R) && Covered(A, beg, end, R, A.row[beg], A.row[end])
    ensures StripHolds(b, A, beg, end, R)
    ensures b.NoStrip? <==> beg == end
    ensures beg < end ==> (b.CsrStrip? <==> kind == Cpu)
  {
    if end > beg {
      if kind == Cpu {
        var c := CsrBackend.Build(A, beg, end, R);
        b := CsrStrip(c);
      } else {
        var e := EllBackend.Build(A, beg, end, R);
        b := EllStrip(e);
      }
    } else {
      b := NoStrip;
    }
  }

  /** The local runs of a strip address its part of x, the ghost runs its
      receive buffer. */
  lemma RowsBelow(A: Csr, beg: nat, end: nat, R: seq<nat>)
    requires WellFormed(A) && beg <= end <= Rows(A)
    requires Covered(A, beg, end, R, A.row[beg], A.row[end])
    ensures RunsBelow(LocalRows(A, beg, end), end - beg)
    ensures RunsBelow(RemoteRows(A, beg, end, R), |R|)
  {
    var lr, rr := LocalRows(A, beg, end), RemoteRows(A, beg, end, R);
    forall k | 0 <= k < end - beg
      ensures |lr[k].col| == |lr[k].val| && ColumnsBelow(lr[k].col, end - beg)
      ensures |rr[k].col| == |rr[k].val| && ColumnsBelow(rr[k].col, |R|)
    {
      assert A.row[beg + k] <= A.row[beg + k + 1] <= A.row[end];
      assert lr[k] == Local(A, beg, end, A.row[beg + k], A.row[beg + k + 1]);
      assert rr[k] == Remote(A, beg, end, R, A.row[beg + k], A.row[beg + k + 1]);
    }
  }

  /** `mul_local` on the device's slices xd of x and yd of y: the kernel the
      strip's backend runs (`spmv_add` when appending, else `spmv_set`)
      over its local matrix is the product of the strip's local runs. */
  function LocalMul(b: Strip, ghost A: Csr, ghost beg: nat, ghost end: nat, ghost R: seq<nat>,
                    xd: seq<int>, yd: seq<int>, alpha: int, append: bool): (r: seq<int>)
    requires WellFormed(A) && beg <= end <= Rows(A)
    requires Covered(A, beg, end, R, A.row[beg], A.row[end])
    requires StripHolds(b, A, beg, end, R) && |xd| == |yd| == end - beg
    ensures RunsBelow(LocalRows(A, beg, end), |xd|)
    ensures r == RowsProduct(LocalRows(A, beg, end), xd, yd, alpha, append)
  {
    RowsBelow(A, beg, end, R);
    match b
    case NoStrip => yd
    case CsrStrip(c) =>
      CsrBackend.CsrProductMeaning(c.loc, LocalRows(A, beg, end), xd, yd, alpha, append);
      Product(c.loc, xd, yd, alpha, append)
    case EllStrip(e) =>
      EllBackend.EllProductMeaning(e.loc, e.pitch, LocalRows(A, beg, end), xd, yd, alpha, append);
      EllBackend.EllProduct(e.loc, e.pitch, e.n, xd, yd, alpha, append)
  }

  /** `mul_remote` on the device's receive buffer rd: always `spmv_add`
      over the ghost matrix, so y gains the product of the strip's ghost
      runs. */
  function RemoteMul(b: Strip, ghost A: Csr, ghost beg: nat, ghost end: nat, ghost R: seq<nat>,
                     rd: seq<int>, yd: seq<int>, alpha: int): (r: seq<int>)
    requires WellFormed(A) && beg <= end <= Rows(A)
    requires Covered(A, beg, end, R, A.row[beg], A.row[end])
    requires StripHolds(b, A, beg, end, R) && |R| > 0
    requires |rd| == |R| && |yd| == end - beg
    ensures RunsBelow(RemoteRows(A, beg, end, R), |rd|)
    ensures r == RowsProduct(RemoteRows(A, beg, end, R), rd, yd, alpha, true)
  {
    RowsBelow(A, beg, end, R);
    match b
    case NoStrip => yd
    case CsrStrip(c) =>
      CsrBackend.CsrProductMeaning(c.rem, RemoteRows(A, beg, end, R), rd, yd, alpha, true);
      Product(c.rem, rd, yd, alpha, true)
    case EllStrip(e) =>
      EllBackend.EllProductMeaning(e.rem, e.pitch, RemoteRows(A, beg, end, R), rd, yd, alpha, true);
      EllBackend.EllProduct(e.rem, e.pitch, e.n, rd, yd, alpha, true)
  }
}
