# Distributed sparse matrix-vector product (VexCL `spmat.hpp`), modelled in Dafny

VexCL's `SpMat` splits the rows of a square CSR matrix over several compute
devices. A partition `part` gives device d the rows `part[d] .. part[d+1]-1`.
The constructor plans the exchange of "ghost" values: the entries of x that a
device reads but does not own. It then builds one storage strip per device:
compact rows (`SpMatCSR`) on CPU devices and padded column-major ELL
(`SpMatELL`) on the others. `mul(x, y, alpha, append)` works in four steps.
It gathers every value some device needs into the host buffer `rx`. It runs
each device's local kernel, which honours `append`. It scatters `rx` into each
device's receive buffer. Finally it runs each device's ghost kernel, which
always adds. The vector operators `=`, `+=`, `-=` and `y = expr ± A*x` are
calls of `mul`. The separate `SpMatCCSR` format stores rows as shared
patterns of diagonal offsets; it runs its kernels on one device.

The model keeps the source's structure:

- `sparse.dfy` (`Sparse`): CSR matrices and the exact row sum `Dot`. The
  reference product `Product` is y = alpha*A*x, or y + alpha*A*x when
  appending.
- `sortedset.dfy` (`SortedSet`): a `std::set` as its ordered contents, with
  `insert`, `std::lower_bound` and the `r2l` renumbering map.
- `slices.dfy` (`Slices`): how one device sees a run of non-zeros. Its local
  entries have columns shifted down by `beg`. Its ghost entries have columns
  renumbered to their rank in the ghost set. The two parts together give the
  same product as the whole run.
- `exchange.dfy` (`Exchange`): the steps of `setup_exchange`.
- `csr_backend.dfy`, `ell_backend.dfy`: the two strip constructors, and what
  their `spmv_set`/`spmv_add` kernels compute.
- `strips.dfy` (`Strips`): the choice of backend per device, and
  `mul_local`/`mul_remote`.
- `ccsr.dfy` (`Ccsr`): the CCSR arrays and their kernels.
- `spmat.dfy` (`SpMatrix`): `setup_exchange` assembled, the class `SpMat`
  (constructor, `mul`, the operators) with `rx` as an array and the receive
  buffers as a field.

Matrix and vector values are exact integers. The main result is the
postcondition of `SpMatrix.SpMat.Mul`: after the call, y equals
`Product(A, x, old(y), alpha, append)`. This holds for every partition and
every mix of device types on which the source's constructor succeeds. The
source's constructor fails in some cases that the model still builds; see
"## Left out".

## Model

| member | source | states |
|---|---|---|
| Sparse.SetThenAppend | vexcl/spmat.hpp:118-128 | a product that overwrites y with alpha, followed by one that appends with beta, equals a single overwriting product with alpha+beta |
| SortedSet.Insert | vexcl/spmat.hpp:446-450 | `set.insert`: the result stays strictly increasing, gains exactly the new column, and grows by one exactly when the column was new |
| SortedSet.IndexOfElement | vexcl/spmat.hpp:566-570 | in an ordered set, the rank of the k-th element is k |
| SortedSet.LowerBound | vexcl/spmat.hpp:487 | `std::lower_bound` on a sorted stretch: every element before the result is below v, and none from the result on is |
| SortedSet.Renumber | vexcl/spmat.hpp:827-831 | `r2l` has exactly the set's columns as keys, and maps the k-th column to k |
| Slices.OutsideMembers | vexcl/spmat.hpp:446-451 | a column is in the out-of-range set of a run exactly when some non-zero of the run has that column outside [beg, end) |
| Slices.OutsideCovered | vexcl/spmat.hpp:579 | an ordered set holding every out-of-range column of a run covers every ghost entry of it, so the renumbering lookup always succeeds |
| Slices.LocalConcat | vexcl/spmat.hpp:833-843 | the local entries of a run are those of its two halves, in order |
| Slices.RemoteConcat | vexcl/spmat.hpp:833-843 | the ghost entries of a run are those of its two halves, in order |
| Slices.SplitDot | vexcl/spmat.hpp:405-433 | a run's product with x equals its local part times the device's slice of x plus its ghost part times the receive buffer |
| Slices.StoresConcat | vexcl/spmat.hpp:833-847 | offsets that are the running lengths of some runs, over arrays holding those runs end to end, form a well-formed CSR matrix whose row k is run k |
| Exchange.GhostColumns | vexcl/spmat.hpp:445-453 | the ghost set of one device is ordered and holds exactly the out-of-range columns of its rows; it is empty for an empty row range |
| Exchange.AllGhostColumns | vexcl/spmat.hpp:442-453 | one ghost set per device, each exactly that device's out-of-range columns, and empty for an empty row range |
| Exchange.UnionMembers | vexcl/spmat.hpp:458-460 | a column is in the union exactly when some device's ghost set holds it |
| Exchange.SendList | vexcl/spmat.hpp:455-463 | the send list is strictly increasing and holds exactly the union of all ghost sets |
| Exchange.RecvStep | vexcl/spmat.hpp:475-476 | one step of the scan over the send list keeps the receive positions increasing, correct so far, and leaves every unfound ghost column ahead |
| Exchange.ColsToRecv | vexcl/spmat.hpp:468-477 | `cols_to_recv` has one position per ghost column, the positions increase, and the send list holds the t-th ghost column at position t |
| Exchange.Boundaries | vexcl/spmat.hpp:480-490 | `cidx` is non-decreasing, and `cidx[d]` splits the send list into the columns below `part[d]` and the rest |
| Exchange.BoundariesCover | vexcl/spmat.hpp:480-490 | with every send column below n, `cidx` runs from 0 to the list's length, and position k lies in device d's stretch exactly when its column is in d's row range |
| Exchange.OwnerExists | vexcl/spmat.hpp:486-489 | every send-list position lies in some device's stretch |
| Exchange.ShiftRange | vexcl/spmat.hpp:502-503 | `cols_to_send[i] -= part[d]` over one stretch, and nothing else changes |
| Exchange.ShiftToLocal | vexcl/spmat.hpp:492-509 | after the subtraction, each offset of device d plus `part[d]` is the original column, and that column is below `part[d+1]`; so the offsets address the device's part of x |
| CsrBackend.Build | vexcl/spmat.hpp:774-895 | the `SpMatCSR` constructor stores each row's local and ghost entries, in order and renumbered within bounds. The fast path for the first device without ghosts keeps the global arrays unchanged. Each row's local and ghost lengths add up to the row's length; without ghost columns the local length alone is the row's length |
| CsrBackend.WholeStrip | vexcl/spmat.hpp:785-802 | when the first rows have no column beyond them, the global arrays, cut at those rows, are their local matrix |
| CsrBackend.PushRows | vexcl/spmat.hpp:812-847 | after the loop, `lrow` holds the running local lengths and `lcol`/`lval` the local entries. The same holds for the remote arrays; without ghost columns `rrow` lacks its leading 0 |
| CsrBackend.PushRow | vexcl/spmat.hpp:833-843 | one row's entries are appended, in order, to the local arrays (column minus `beg`) or the remote arrays (column renumbered by `r2l`) |
| CsrBackend.LocalStored | vexcl/spmat.hpp:845 | the pushed local arrays store the device's local runs row by row |
| CsrBackend.RemoteStored | vexcl/spmat.hpp:846 | the pushed remote arrays store the device's ghost runs row by row |
| CsrBackend.CsrProductMeaning | vexcl/spmat.hpp:904-943 | `spmv_set`/`spmv_add` over a matrix storing some runs compute y = alpha*M*x or y += alpha*M*x over those runs |
| EllBackend.AlignUp | vexcl/spmat.hpp:539 | `pitch = alignup(n, 16)` is a multiple of 16, at least n and below n+16 |
| EllBackend.SlotBound | vexcl/spmat.hpp:575-581 | every slot `k + pitch*j` with k < pitch and j < w lies inside the pitch*w arrays |
| EllBackend.SlotDistinct | vexcl/spmat.hpp:575-581 | distinct (row, position) pairs occupy distinct slots |
| EllBackend.WidthSnoc | vexcl/spmat.hpp:553-554 | taking `std::max` with the next row's count keeps the running value the maximum of the counts so far |
| EllBackend.Widths | vexcl/spmat.hpp:545-555 | `loc.w` and `rem.w` are the largest per-row local and non-local entry counts (0 when there are none) |
| EllBackend.Sentinels | vexcl/spmat.hpp:558-562 | fresh arrays of pitch*w slots, every column `NCOL` and every value 0 |
| EllBackend.LayoutEmpty | vexcl/spmat.hpp:558-562 | sentinel-filled arrays are the layout of no rows |
| EllBackend.LayoutPush | vexcl/spmat.hpp:575-582 | writing the next entry of the last row at its slot keeps every other slot and yields the layout with that entry appended |
| EllBackend.FillRow | vexcl/spmat.hpp:572-584 | the inner loop writes row i's local and ghost entries, in order, to their slots; the layouts then include row i |
| EllBackend.FillRows | vexcl/spmat.hpp:572-585 | after the loop the arrays hold every row's local and ghost runs, with all other slots `NCOL`/0 |
| EllBackend.Build | vexcl/spmat.hpp:533-586 | the `SpMatELL` constructor: n rows, pitch `alignup(n, 16)`, the widths as the maxima, and the local and ghost runs laid out column-major with sentinels |
| EllBackend.EllRowMeaning | vexcl/spmat.hpp:642-648 | the kernel's loop over row k's first j slots, skipping `NCOL`, sums the first j entries of the row's run |
| EllBackend.EllProductMeaning | vexcl/spmat.hpp:629-669 | ELL `spmv_set`/`spmv_add` over a laid-out part compute the product over its runs |
| Strips.BuildStrip | vexcl/spmat.hpp:359-373 | no strip for an empty row range; otherwise `SpMatCSR` exactly on CPU devices and `SpMatELL` elsewhere, built as that backend guarantees |
| Strips.RowsBelow | vexcl/spmat.hpp:572-583 | renumbered local columns are below the row count, and renumbered ghost columns are below the ghost-set size |
| Strips.LocalMul | vexcl/spmat.hpp:692-730 | `mul_local` of either backend computes the product of the strip's local runs with the device's slice of x |
| Strips.RemoteMul | vexcl/spmat.hpp:732-756 | `mul_remote` of either backend adds the product of the strip's ghost runs with the receive buffer |
| Ccsr.Expanded | vexcl/spmat.hpp:1141-1145 | a row's pattern entries with offsets made absolute: as many as the pattern has, each column inside x |
| Ccsr.ExpandedRows | vexcl/spmat.hpp:1138-1147 | the matrix the CCSR arrays stand for has n rows, each addressing x within bounds |
| Ccsr.PatternSumMeaning | vexcl/spmat.hpp:1141-1145 | the kernel's sum over pattern `idx[i]`, using `x[i + col[j]]`, is the sum over row i of the expanded matrix |
| Ccsr.CcsrProductMeaning | vexcl/spmat.hpp:1193-1229 | `SpMatCCSR::mul` computes alpha times the expanded matrix times x, overwriting or appending |
| SpMatrix.Owner | vexcl/spmat.hpp:276 | every row below n has a device whose range holds it |
| SpMatrix.OwnerUnique | vexcl/spmat.hpp:276 | that device is unique |
| SpMatrix.GhostFacts | vexcl/spmat.hpp:579 | a ghost set holds columns below n only, and covers every ghost entry of its device (the renumbering `assert`s hold) |
| SpMatrix.SendBelow | vexcl/spmat.hpp:462 | every send column is below n |
| SpMatrix.NoSendNoGhosts | vexcl/spmat.hpp:466 | with an empty send list, every device's ghost set is empty |
| SpMatrix.RecvLists | vexcl/spmat.hpp:466-478 | every device gets its receive layout; it stays empty for a device without ghost columns |
| SpMatrix.SetupExchange | vexcl/spmat.hpp:437-513 | the ghost sets, the ordered send list, the receive layouts and, when anything is sent, the boundaries and the local send offsets; otherwise these stay empty |
| SpMatrix.PlanSends | vexcl/spmat.hpp:480-509 | the boundaries split the send list by device, and each device's offsets address its part of x |
| SpMatrix.BuildStrips | vexcl/spmat.hpp:358-374 | one strip per device, built over its rows and ghost set, absent exactly for empty ranges, `SpMatCSR` exactly on CPU devices |
| SpMatrix.RowSplits | vexcl/spmat.hpp:405-433 | a row's local sum plus its ghost sum is the row's product with x |
| SpMatrix.NoGhostsNoRemote | vexcl/spmat.hpp:417 | a row whose device has no ghost columns has ghost sum 0 |
| SpMatrix.DeviceWithoutGhosts | vexcl/spmat.hpp:417 | every row of a device without ghost columns has ghost sum 0, so skipping its ghost kernel is sound |
| SpMatrix.NothingExchanged | vexcl/spmat.hpp:381-410 | with an empty send list every ghost sum is 0, so skipping the gather and the ghost pass is sound |
| SpMatrix.ScatterReceives | vexcl/spmat.hpp:422-423 | once `rx` holds x at every send column, `vals_to_recv[i] = rx[cols_to_recv[i]]` holds x at the device's ghost columns, in order |
| SpMatrix.ReceiveSlotIsRenumbering | vexcl/spmat.hpp:475-476 | receive slot t holds the column that `r2l` renumbers to t |
| SpMatrix.DeviceLocal | vexcl/spmat.hpp:407 | device d's `mul_local` is the product of its local runs with its slices of x and y |
| SpMatrix.LocalRowValues | vexcl/spmat.hpp:407 | after the local kernel, each of device d's rows is its old value (when appending) or 0, plus alpha times the row's local sum |
| SpMatrix.LocalSpliced | vexcl/spmat.hpp:407 | y with device d's slice replaced by the kernel's result: those rows as above, all other rows unchanged |
| SpMatrix.RemoteRowValues | vexcl/spmat.hpp:431 | after the ghost kernel, each of device d's rows gains alpha times the row's ghost sum |
| SpMatrix.RemoteSpliced | vexcl/spmat.hpp:431 | y with device d's slice replaced by the ghost kernel's result: those rows gain their ghost sums, all other rows unchanged |
| SpMatrix.MulRow | vexcl/spmat.hpp:405-433 | the local pass followed by the ghost pass leaves row i at its old value (or 0) plus alpha times the row's product |
| SpMatrix.ProductByRows | vexcl/spmat.hpp:378-379 | a vector that agrees with the product row by row is the product |
| SpMatrix.Store | vexcl/spmat.hpp:398-400 | writing src into dst at a position changes exactly those entries |
| SpMatrix.SpMat.constructor | vexcl/spmat.hpp:304-375 | the exchange is planned, every strip is built, receive buffers are sized; a strip is absent exactly for an empty range and is `SpMatCSR` exactly on CPU devices |
| SpMatrix.SpMat.GatherSent | vexcl/spmat.hpp:381-403 | the `gather_vals_to_send` kernel (spmat.hpp:323-332) on each device followed by the read-backs into `rx` at `cidx[d]`: afterwards `rx[k]` is x at send column k, for every k |
| SpMatrix.SpMat.LocalPass | vexcl/spmat.hpp:405-407 | every row becomes its old value (when appending) or 0, plus alpha times its local sum; devices without rows are skipped |
| SpMatrix.SpMat.LocalDevice | vexcl/spmat.hpp:407 | device d's rows take their local sums, all other rows are untouched |
| SpMatrix.SpMat.Scatter | vexcl/spmat.hpp:422-423 | device d's receive buffer becomes `rx` read at its receive positions; other devices' buffers are unchanged |
| SpMatrix.SpMat.RemotePass | vexcl/spmat.hpp:410-434 | every row gains alpha times its ghost sum, whether or not anything is exchanged |
| SpMatrix.SpMat.RemoteDevices | vexcl/spmat.hpp:414-433 | the loop over devices adds every row's ghost sum |
| SpMatrix.SpMat.RemoteStage | vexcl/spmat.hpp:417-432 | device d's turn: its rows gain their ghost sums, other rows unchanged, including when it has no ghost columns |
| SpMatrix.SpMat.RemoteDevice | vexcl/spmat.hpp:422-431 | the scatter followed by the ghost kernel adds device d's ghost sums to its rows |
| SpMatrix.SpMat.RemoteKernel | vexcl/spmat.hpp:431 | the ghost kernel on the receive buffer is the appending product of the device's ghost runs |
| SpMatrix.SpMat.RemoteApply | vexcl/spmat.hpp:431 | with the receive buffer holding x at the ghost columns, device d's rows gain their ghost sums and other rows are unchanged |
| SpMatrix.SpMat.Mul | vexcl/spmat.hpp:377-435 | y becomes alpha*A*x (append false) or y + alpha*A*x (append true), for every partition and device mix, and the object stays valid |
| SpMatrix.SpMat.Assign | vexcl/spmat.hpp:118-122 | `y = A*x`: every row is the row's product with x |
| SpMatrix.SpMat.AddAssign | vexcl/spmat.hpp:124-128 | `y += A*x`: every row gains its product with x |
| SpMatrix.SpMat.SubAssign | vexcl/spmat.hpp:130-134 | `y -= A*x`: every row loses its product with x |
| SpMatrix.SpMat.AssignCombination | vexcl/spmat.hpp:104-116 | `y = expr + A*x` or `y = expr - A*x`: every row is the expression's value plus or minus the row's product |

## Left out

- OpenCL plumbing is left out: buffers, queues, secondary queues, events and `wait`, and launch geometry (`g_size`, `wgsize`, `alignup` of work sizes). The asynchronous steps of `mul` run one after another, in the order `mul` issues them. The device-side `exc[d].rx` copy of the receive buffer is the buffer itself.
- Kernel source generation, `build_sources` and the per-context kernel caches are left out; only the arithmetic meaning of each kernel is modelled.
- `vex::partition` is not part of this model. `part` is an input satisfying `ValidPartition`: it starts at 0, never decreases and ends at n.
- The device type query is an input tag (`DeviceKind`) that selects the backend.
- `device_spmv_perf` and `partition_by_spmv_perf` are left out. They are a timing benchmark and floating-point device weighting.
- Values of type `real` are exact integers, so floating-point rounding and summation order do not affect the results.
- The source builds with OpenCL exceptions on (spmat.hpp:39). So a `cl::Buffer` of size 0 throws `cl::Error`, and the constructors allocate the local `col`/`val` buffers without a size guard. These are the ELL constructor (spmat.hpp:591-595, size `pitch*loc.w`) and both CSR paths (spmat.hpp:789-793, size `row[n]`; spmat.hpp:855-860, size `lcol.size()`). Any device whose non-empty row range holds no local non-zero therefore makes `SpMat`'s constructor throw. An example is n = 2, part = [0, 1, 2], with both rows holding only column 0. The model does not reproduce this failure: `SpMatrix.SpMat.constructor` builds such a matrix and `SpMatrix.SpMat.Mul` computes its product. The remote buffers are guarded (`if (rem.w)`, `if (!remote_cols.empty())`) and cannot fail this way.
- `column_t`, `size_t` and the 32-bit `uint` of the ELL widths (`loc.w`, `rem.w` and the per-row counter `w`, spmat.hpp:549-554) are unbounded here. The ELL sentinel `NCOL`, `(column_t)(-1)`, is -1 in integer column slots. A real column equal to the largest `column_t` would collide with the sentinel; the model cannot express this.
- The evaluation of the vector expression inside `ExSpMV` is left out. The expression is taken as an already evaluated vector (`Combination.expr`).
- `SpMatrix.PlusProduct` and `SpMatrix.MinusProduct` (`operator+`/`operator-` building an `ExSpMV`) only package their arguments. Their meaning is stated by `SpMatrix.SpMat.AssignCombination`.
- `operator*` and the `SpMV` struct only pair a matrix with a vector; `Assign`, `AddAssign` and `SubAssign` take the pair's two parts directly.
- The `SpMatCCSR` constructor only uploads its arrays, so it is the `Ccsr` datatype. `Ccsr.Valid` requires every `i + col[j]` to address x. The source leaves this to the caller and does not check it.
- The `static_assert` that CCSR columns are signed is expressed by the type `seq<int>` of `Ccsr.col`.
- `std::unordered_map` `r2l` is a Dafny `map`; its hashing and bucket count are left out.
- `mul` reads `x(d)` and `y(d)` as sub-vectors, here sequence slices. Device vectors and their aliasing with host memory are left out.
- SpMatrix.SpMat.AssignCombination: takes `x` as a value, so it assumes `x` is not the vector `y` being assigned. In the source, `SpMV` and `ExSpMV` hold `x` by reference (spmat.hpp:95-101). `y = expr ± A*y` first overwrites `y` with `expr` and then calls `mul` with `x` and `y` the same vector (spmat.hpp:136-141). That would at best compute `expr ± A*expr`, and its kernels read and write the same vector in one launch. The model promises nothing for that case.
- SpMatrix.SpMat.Mul: takes `x` as a value, so `Assign`, `AddAssign` and `SubAssign` do not cover `y = A*y`, `y += A*y` or `y -= A*y`. In the source these read and write `y` in the same kernel launch, a race with no defined result.
- vexcl/vexcl.hpp has no logic and is not modelled.
