# MAGMA driver control logic in Dafny

This project models the integer and control logic of six MAGMA 2.6.2
drivers. It leaves their floating-point content out. Each BLAS, LAPACK or
magmablas call is an opaque step, and a driver run is a trace of steps
plus the acquisitions and releases of its buffers and queue. The model
covers:

- the argument checks, an ordered `else if` chain in which the first bad
  argument decides `info`, and the early returns;
- the row interchanges of xLASWP on 1-based pivots, applied in increasing
  order (`incx = 1`) or in decreasing order to undo them (`incx = -1`);
- the recursive LU panel `magma_cgetrf_recpanel_vbatched`: its split
  rule, its seven steps, the offsets it passes down, how the pivots of the
  two halves are combined and what the interchanges do to the rows;
- the blocking loops of `magma_dsytrd_gpu` and `magma_zgeqr2x3_gpu`;
- the step order and descriptors of the solvers `magma_cgetrs_gpu`,
  `magma_dsytrs_nopiv_gpu` and `magma_dgesv_rbt`, and the cleanup paths
  of `magma_dgesv_rbt`.

Modules:

| file | module | models |
|---|---|---|
| common.dfy | Common | enums, `Arg<T>` (a named value or any other code), ceil-div and round-up, status codes |
| validation.dfy | Validation | the first-failure argument chain |
| resources.dfy | Resources | traces of acquisitions, releases and kernels; what a trace leaves held |
| laswp.dfy | Laswp | xLASWP interchanges on a sequence of rows, and how pivots combine |
| getrs.dfy | Getrs | `magma_cgetrs_gpu` |
| sytrs_nopiv.dfy | SytrsNopiv | `magma_dsytrs_nopiv_gpu` |
| recpanel.dfy | RecPanel | `magma_cgetrf_recpanel_vbatched` for one matrix of the batch |
| sytrd.dfy | Sytrd | `magma_dsytrd_gpu` |
| gesv_rbt.dfy | GesvRbt | `magma_dgesv_rbt` |
| geqr2x.dfy | Geqr2x | `magma_zgeqr2x3_gpu` and the early return of `magma_zlarfb2_gpu` |

Inputs that come from code outside this model are parameters:

- the pivots the unblocked `getf2` chooses are an oracle, `factor`;
- `magma_get_dsytrd_nb(n)` is the parameter `nb >= 1`;
- which allocations fail is a set `fails`, or a boolean flag;
- the status that `magma_dgerbt_gpu`, the solve and the refinement or
  `magmablas_dlascl_diag` leave in `info` is an integer parameter;
- the triangular solves of getrs are an opaque function `solve` that
  keeps the number of rows.

## Model

| member | source | states |
|---|---|---|
| Validation.FirstFailure | tpc/magma-2.6.2/src/cgetrs_gpu.cpp:85-98 | An `else if` chain reports 0 when every test passes, otherwise the code of the first test that fails. |
| Validation.FirstFailureDecodes | tpc/magma-2.6.2/src/cgetrs_gpu.cpp:85-98 | With distinct nonzero codes, the status is 0 exactly when all tests pass, and it is test k's code exactly when test k is the first to fail. |
| Getrs.ValidateArgs | tpc/magma-2.6.2/src/cgetrs_gpu.cpp:85-98 | -1 exactly for a trans that is not NoTrans, Trans or ConjTrans; -2 for n < 0; -3 for nrhs < 0; -5 for ldda < max(1,n); -8 for lddb < max(1,n); each only when the earlier tests pass; 0 exactly when all pass. |
| Getrs.CgetrsGpu | tpc/magma-2.6.2/src/cgetrs_gpu.cpp:99-157 | A bad argument returns its code with an empty trace. n = 0 or nrhs = 0 returns 0 with an empty trace. A failed host allocation returns MAGMA_ERR_HOST_ALLOC with no kernel. A valid call with nonzero sizes whose host allocation succeeds returns 0 and runs the five steps for trans. Kernels run exactly in that case. Nothing stays allocated. |
| Getrs.SolveSteps | tpc/magma-2.6.2/src/cgetrs_gpu.cpp:120-152 | The five calls of a valid solve for trans and nrhs. Their partners state what the calls do: NoTransSolve and TransSolve give the effect on B, SolvesFromTheLeft the descriptors, and InterchangesRoundTrip that the two interchange steps undo each other. |
| Getrs.Effect | tpc/magma-2.6.2/src/cgetrs_gpu.cpp:120-152 | Running calls on B keeps its number of rows. The copies between host and device leave B as it is; claswp applies the forward interchanges for incx = 1 and the backward ones for incx = -1; each triangular call applies the opaque solve with its descriptor. NoTransSolve and TransSolve evaluate it on the two call lists. |
| Getrs.FailureLeavesBUntouched | tpc/magma-2.6.2/src/cgetrs_gpu.cpp:99-113 | A failing or early-returning call leaves B exactly as it was. |
| Getrs.NoTransSolve | tpc/magma-2.6.2/src/cgetrs_gpu.cpp:120-136 | For NoTrans, B becomes U^-1 L^-1 applied to B with its interchanges applied in increasing order: interchanges first, then the unit lower solve, then the non-unit upper solve. |
| Getrs.TransSolve | tpc/magma-2.6.2/src/cgetrs_gpu.cpp:137-152 | For Trans or ConjTrans: the non-unit upper solve, then the unit lower solve, then the interchanges undone in decreasing order. |
| Getrs.SolvesFromTheLeft | tpc/magma-2.6.2/src/cgetrs_gpu.cpp:130-147 | A valid solve issues five calls, every trsm is from the left, and the solve descriptors are (Lower, Unit) then (Upper, NonUnit) for NoTrans, and the reverse for the transposed solves. |
| Getrs.TrsvPathMatchesTrsmPath | tpc/magma-2.6.2/src/cgetrs_gpu.cpp:130-147 | The nrhs = 1 (trsv) path issues the same descriptors as the trsm path and has the same effect on B. |
| Getrs.InterchangesRoundTrip | tpc/magma-2.6.2/src/cgetrs_gpu.cpp:120-152 | With the solves taken as identities, the transposed solve's interchanges undo the plain solve's, so B comes back unchanged. |
| Laswp.Interchange | tpc/magma-2.6.2/src/cgetrs_gpu.cpp:120-150 | The xLASWP loop with k1 = 1 and k2 = n computes the forward interchanges for incx = 1 and the backward ones for incx = -1. |
| Laswp.InterchangeUp | tpc/magma-2.6.2/src/cgetrs_gpu.cpp:120-127 | The loop i = 1..n that swaps row i with row ipiv(i) equals the reference definition Forward. |
| Laswp.InterchangeDown | tpc/magma-2.6.2/src/cgetrs_gpu.cpp:137-150 | The loop i = n..1 equals the reference definition Backward. |
| Laswp.BackwardUndoesForward | tpc/magma-2.6.2/src/cgetrs_gpu.cpp:50-52 | With pivots in 1..n, applying the interchanges with incx = -1 after incx = 1 gives back the rows. |
| Laswp.ForwardUndoesBackward | tpc/magma-2.6.2/src/cgetrs_gpu.cpp:50-52 | Applying them with incx = 1 after incx = -1 also gives back the rows. |
| Laswp.ForwardPermutes | tpc/magma-2.6.2/src/cgetrs_gpu.cpp:127 | The forward interchanges permute the rows (same multiset). |
| Laswp.BackwardPermutes | tpc/magma-2.6.2/src/cgetrs_gpu.cpp:150 | The backward interchanges permute the rows (same multiset). |
| Laswp.ColumnsStayPermutations | tpc/magma-2.6.2/src/cgetrs_gpu.cpp:127-150 | Each column of B stays a permutation of its own entries under either direction of interchanges. |
| Laswp.ForwardCombine | tpc/magma-2.6.2/src/cgetrf_panel_vbatched.cpp:78-94 | Interchanging the rows by p1 and then, from row n1 on, by p2 is the same as interchanging them by the combined pivots p1 ++ map(x => x + n1, p2). |
| SytrsNopiv.ValidateArgs | tpc/magma-2.6.2/src/dsytrs_nopiv_gpu.cpp:76-91 | -1 exactly for an uplo that is neither Upper nor Lower; -2 for n < 0; -3 for nrhs < 0; -5 for ldda < max(1,n); -7 for lddb < max(1,n); each only when the earlier tests pass; 0 exactly when all pass. |
| SytrsNopiv.SolveSteps | tpc/magma-2.6.2/src/dsytrs_nopiv_gpu.cpp:103-127 | Exactly three calls: a unit left trsm on the uplo triangle, the diagonal scaling with MagmaUpper in the middle, then the adjoint unit left trsm. Together they remove, from left to right, the factors of A = U**H D U (upper) or A = L D L**H (lower), the form the calls invert. |
| SytrsNopiv.DocumentedFormOnlyForLower | tpc/magma-2.6.2/src/dsytrs_nopiv_gpu.cpp:17-19 | The calls invert the documented factorization A = L * D * L**H for the lower triangle, and for the upper triangle they do not invert the documented A = U * D * U**H: the first call removes U**H, not U. |
| SytrsNopiv.DsytrsNopivGpu | tpc/magma-2.6.2/src/dsytrs_nopiv_gpu.cpp:76-131 | A bad argument returns its code with no trace. n = 0 or nrhs = 0 returns 0 with no trace. Otherwise the three solve steps run and the status is the one the diagonal scaling leaves. The queue is released. |
| RecPanel.Split | tpc/magma-2.6.2/src/cgetrf_panel_vbatched.cpp:39-40 | For 1 <= min_recpnb < max_n, both n1 = max(min_recpnb, max_n/2) and n2 = max_n - n1 lie in [1, max_n), so the recursion terminates; also n1 >= min_recpnb and n2 <= n1 + 1. |
| RecPanel.LeafRun | tpc/magma-2.6.2/src/cgetrf_panel_vbatched.cpp:30-37 | The base case returns 0 and issues one getf2 on the whole panel. It writes LAPACK getf2 pivots at rows [ai, ai+n) and nowhere else, and interchanges the panel's rows by them. |
| RecPanel.RecPanel | tpc/magma-2.6.2/src/cgetrf_panel_vbatched.cpp:17-97 | Always returns 0. The matrix keeps its shape, and only pivots [ai, ai+max_n) change; these are valid getf2 pivots of the max_m x max_n panel. The panel's columns are the original ones with rows from ai on interchanged by exactly those pivots, and the other columns are untouched. The calls equal the control-only reference Schedule. |
| RecPanel.RightHalf | tpc/magma-2.6.2/src/cgetrf_panel_vbatched.cpp:50-94 | Given the left half's result, swap-right, trsm, gemm, the second recursive call, swap-left and adjust-pivot give the same guarantees for the whole panel. |
| RecPanel.SwapRightState | tpc/magma-2.6.2/src/cgetrf_panel_vbatched.cpp:50-57 | The pivots, and every column outside the right half, stay as they were. Each of the n2 right-half columns has its rows from ai on interchanged forwards by the left half's n1 pivots. |
| RecPanel.SwapLeftState | tpc/magma-2.6.2/src/cgetrf_panel_vbatched.cpp:85-91 | The pivots, and every column outside the left half, stay as they were. Each of the n1 left-half columns has its rows from ai+n1 on interchanged forwards by the right half's n2 pivots. |
| RecPanel.AdjustPivots | tpc/magma-2.6.2/src/cgetrf_panel_vbatched.cpp:93-94 | The count pivots from position at are each raised by offset. Every other pivot is unchanged and the array keeps its length. |
| RecPanel.Finish | tpc/magma-2.6.2/src/cgetrf_panel_vbatched.cpp:85-94 | After the second half, swap-left and the pivot adjustment leave the panel's pivots valid for the whole panel and the rows of every panel column interchanged by them. The calls are left half, middle three, right half, closing two. |
| RecPanel.CombinedPivots | tpc/magma-2.6.2/src/cgetrf_panel_vbatched.cpp:94 | After adjust-pivot the panel's pivot slice is p1 ++ map(x => x + n1, p2), pivots outside the panel are unchanged, and the combined slice is valid for the max_m x max_n panel. |
| RecPanel.ComposeHalves | tpc/magma-2.6.2/src/cgetrf_panel_vbatched.cpp:42-91 | Panel 1, swap-right, panel 2 and swap-left together interchange every column of the panel by the combined pivots. |
| RecPanel.ScheduleStarts | tpc/magma-2.6.2/src/cgetrf_panel_vbatched.cpp:30-37 | A panel is a single getf2 exactly when max_n <= min_recpnb. Either way its first call is the getf2 of the leaf at its corner. |
| RecPanel.StepOrder | tpc/magma-2.6.2/src/cgetrf_panel_vbatched.cpp:42-94 | A split panel's calls are, in order: panel 1 at the corner, swap-right of the right columns with pivots [0, n1), trsm, gemm, panel 2 at (ai+n1, aj+n1) with height max_m-n1 and gbstep+n1, swap-left with pivots [0, n2), and adjust-pivot by n1. |
| RecPanel.ScheduleTiles | tpc/magma-2.6.2/src/cgetrf_panel_vbatched.cpp:43-83 | The getf2 leaves, left to right, tile [aj, aj+max_n). Each is at most min_recpnb wide, and its row, pivot and gbstep offsets advance with its column offset. |
| RecPanel.TilesPartition | tpc/magma-2.6.2/src/cgetrf_panel_vbatched.cpp:78-83 | A tiling is a partition: every column is in exactly one leaf, every leaf is inside the panel and at most min_recpnb wide, and its row, gbstep and height offsets equal its column offset. |
| Sytrd.ValidateArgs | tpc/magma-2.6.2/src/dsytrd_gpu.cpp:175-188 | -1 for a bad uplo; -2 for n < 0; -4 for ldda < max(1,n); -9 for lda < max(1,n); -11 for lwork < nb*n only when this is not a query; each only when the earlier tests pass; 0 exactly when all pass. |
| Sytrd.DsytrdGpu | tpc/magma-2.6.2/src/dsytrd_gpu.cpp:175-326 | A bad argument returns its code and leaves work[0] unwritten. A query returns 0 with work[0] = n*nb and nothing else. n = 0 gives work[0] = 1 and 0. A failed work2 gives MAGMA_ERR_HOST_ALLOC. A failed dwork frees work2 and gives MAGMA_ERR_DEVICE_ALLOC. A valid non-query with n > 0 whose allocations succeed returns 0 and runs exactly the reduction steps for uplo; kernels run in no other case. Every valid non-query with n > 0 leaves work[0] = n*nb, allocation failures included. Nothing stays allocated. |
| Sytrd.Reduce | tpc/magma-2.6.2/src/dsytrd_gpu.cpp:218-323 | Once work2 and dwork are allocated, the status stays 0 and the kernels are exactly the reduction steps, never none. work2, dwork and the queue are all freed. |
| Sytrd.Nx | tpc/magma-2.6.2/src/dsytrd_gpu.cpp:211-216 | nx is n below 3000 and 512 from n = 3000 on, and for every n >= 0 it lies in [0, n], the requirement nx <= n the code states. |
| Sytrd.ReduceSteps | tpc/magma-2.6.2/src/dsytrd_gpu.cpp:238-317 | dlaset comes first, then only blocked panels, and the unblocked dsytrd last. Its block has the same size kk = n - roundup(n-nx, nb) in both triangles: at (0, 0) for upper and at (n-kk, n-kk) for lower. SmallIsUnblocked, UpperTiles and LowerTiles describe the panels. |
| Sytrd.UpperPanels | tpc/magma-2.6.2/src/dsytrd_gpu.cpp:245 | Every panel start of the loop i = i0, i0-nb, ... >= kk lies in [kk, i0]. UpperPanelsTile and UpperTiles show that the panels tile [kk, n). |
| Sytrd.LowerPanels | tpc/magma-2.6.2/src/dsytrd_gpu.cpp:281 | Every panel start of the loop i = i0, i0+nb, ... < lim lies in [i0, lim). LowerPanelsTile and LowerTiles show the tiling. |
| Sytrd.LowerEnd | tpc/magma-2.6.2/src/dsytrd_gpu.cpp:281 | The loop exits at a value no smaller than its start or the limit, and below limit + nb when the loop runs at all. LowerPanelsTile shows it is start + c*nb for the least such c. |
| Sytrd.SmallIsUnblocked | tpc/magma-2.6.2/src/dsytrd_gpu.cpp:213-216 | For n < 3000, in either triangle, no blocked panel runs and the unblocked code gets the whole n x n matrix. |
| Sytrd.UpperPanelsTile | tpc/magma-2.6.2/src/dsytrd_gpu.cpp:245 | When the distance to kk is c whole panels, the loop from i down to kk issues c panels that tile [kk, i+nb). |
| Sytrd.UpperTiles | tpc/magma-2.6.2/src/dsytrd_gpu.cpp:243-245 | With kk = n - roundup(n-nx, nb), the panels i = n-nb, n-2nb, ... >= kk exactly tile [kk, n), and nx - nb < kk <= nx; with nb <= nx, kk >= 0. |
| Sytrd.LowerPanelsTile | tpc/magma-2.6.2/src/dsytrd_gpu.cpp:281 | The loop from i exits at the least i + c*nb that is at least the limit, having tiled [i, exit) with c panels. |
| Sytrd.LowerTiles | tpc/magma-2.6.2/src/dsytrd_gpu.cpp:281-313 | The lower loop exits at roundup(n-nx, nb), and its panels tile [0, exit). With 1 <= nb <= nx, every panel lies inside the matrix and the final block n - i is in [0, nx]. |
| Sytrd.UnblockedBlocksAgree | tpc/magma-2.6.2/src/dsytrd_gpu.cpp:243-313 | Both triangles leave a block of the same size to the unblocked code. |
| GesvRbt.ValidateArgs | tpc/magma-2.6.2/src/dgesv_rbt.cpp:90-107 | -1 exactly for a refine that is neither MagmaTrue nor MagmaFalse; -2 for n < 0; -3 for nrhs < 0; -5 for lda < max(1,n); -7 for ldb < max(1,n); each only when the earlier tests pass; 0 exactly when all pass. |
| GesvRbt.PaddedOrder | tpc/magma-2.6.2/src/dgesv_rbt.cpp:83 | nn = roundup(n, 4) is a multiple of 4 with n <= nn < n + 4. |
| GesvRbt.PaddedEntries | tpc/magma-2.6.2/src/dgesv_rbt.cpp:141-144 | The padded nn x nn matrix holds A in its top-left n x n block, and outside it 1 on the diagonal and 0 elsewhere. |
| GesvRbt.Solve | tpc/magma-2.6.2/src/dgesv_rbt.cpp:113-197 | The run after the checks. Its paths are stated by AllocationFailure, GerbtFailure, DvFailure and Success: status, calls and what stays held on each. AllocatedTouches bounds the buffers it touches. |
| GesvRbt.Drive | tpc/magma-2.6.2/src/dgesv_rbt.cpp:90-197 | The checks, the quick return and the run. EarlyReturns states that nothing is allocated or called before the run, and that a trace exists exactly when the run starts. |
| GesvRbt.DgesvRbtAsWritten | tpc/magma-2.6.2/src/dgesv_rbt.cpp:83-197 | The driver with the return of lines 149-152. GerbtFailureLeaks shows that buffers stay held on a failing transformation; AsWrittenOtherwiseSame, that every other path matches DgesvRbt. |
| GesvRbt.DgesvRbt | tpc/magma-2.6.2/src/dgesv_rbt.cpp:83-197 | The driver with that return going through the cleanup. FreesEverything shows that every path ends holding nothing. |
| GesvRbt.EarlyReturns | tpc/magma-2.6.2/src/dgesv_rbt.cpp:104-111 | A bad argument returns its code, and n = 0 or nrhs = 0 returns 0, before any allocation or call. A trace is non-empty exactly otherwise. |
| GesvRbt.AllocationFailure | tpc/magma-2.6.2/src/dgesv_rbt.cpp:113-135 | A failing allocation gives MAGMA_ERR_HOST_ALLOC for hu or hv and MAGMA_ERR_DEVICE_ALLOC for a device buffer. Nothing runs, everything is freed, and only the cleanup's buffers are touched. |
| GesvRbt.GerbtFailure | tpc/magma-2.6.2/src/dgesv_rbt.cpp:141-152 | A failing transformation returns its status after the identity, the copies of A and B and the transformation. Without the cleanup every allocated buffer and the queue are still held; with it nothing is. |
| GesvRbt.DvFailure | tpc/magma-2.6.2/src/dgesv_rbt.cpp:154-171 | A failing allocation of dv gives MAGMA_ERR_DEVICE_ALLOC after the solve (and refinement), then cleans up everything. |
| GesvRbt.Success | tpc/magma-2.6.2/src/dgesv_rbt.cpp:154-197 | Otherwise the status is the solve's. The calls are: setup; the solve; one butterfly application per right-hand-side column; the copy of the top n rows back into B. Nothing stays held. |
| GesvRbt.CleanupCoversAllocations | tpc/magma-2.6.2/src/dgesv_rbt.cpp:181-195 | The cleanup label frees every buffer the driver allocates, plus the queue and dv. |
| GesvRbt.AllocatedTouches | tpc/magma-2.6.2/src/dgesv_rbt.cpp:113-197 | Once the allocations succeed, a run touches only buffers the cleanup frees. |
| GesvRbt.GerbtFailureLeaks | tpc/magma-2.6.2/src/dgesv_rbt.cpp:149-152 | As written, a failing transformation returns with dA, dB, hu, hv and the queue still held. |
| GesvRbt.FreesEverything | tpc/magma-2.6.2/src/dgesv_rbt.cpp:113-197 | With the transformation failure routed through the cleanup, every path ends holding nothing. |
| GesvRbt.WithoutRefine | tpc/magma-2.6.2/src/dgesv_rbt.cpp:120-164 | Without refinement, dAo, dBo and dwork are never allocated or freed, and neither the saved copies nor the refinement run. |
| GesvRbt.WithRefine | tpc/magma-2.6.2/src/dgesv_rbt.cpp:154-164 | With refinement, a run past the transformation issues both saved copies and the refinement. |
| GesvRbt.RefineOnly | tpc/magma-2.6.2/src/dgesv_rbt.cpp:120-195 | The extra buffers, the copies and the refinement happen only when refine is MagmaTrue, and with it a run past the transformation issues all three. |
| Geqr2x.ValidateArgs | tpc/magma-2.6.2/src/zgeqr2x_gpu-v3.cpp:158-165 | -1 exactly for m < 0; -2 for n < 0; -4 for ldda < max(1,m); each only when the earlier tests pass; 0 exactly when all pass. |
| Geqr2x.Drive | tpc/magma-2.6.2/src/zgeqr2x_gpu-v3.cpp:158-212 | The status is the argument check's. A nonzero status returns with no trace. On valid arguments it returns 0 after the blocking loop, and the queue is released. |
| Geqr2x.Zgeqr2x3AsWritten | tpc/magma-2.6.2/src/zgeqr2x_gpu-v3.cpp:158-212 | The status is the argument check's and nothing stays held. On valid arguments every column 0..min(m,n)-1 gets its reflector once, left to right. AsWrittenSkipsWideColumns states which reflectors reach each column. |
| Geqr2x.Zgeqr2x3 | tpc/magma-2.6.2/src/zgeqr2x_gpu-v3.cpp:158-212 | The same, with the trailing update reaching column n. EveryColumnUpdated states that each column j < n gets H(0..min(j,m,n)-1), in order. |
| Geqr2x.Columns | tpc/magma-2.6.2/src/zgeqr2x_gpu-v3.cpp:181-200 | The inner loop issues three calls per column and only two for the block's first column, which has no earlier reflector to apply. ColumnsVisit and ColumnsApply give which columns it generates and which reflectors each gets. |
| Geqr2x.Larfb2 | tpc/magma-2.6.2/src/zgeqr2x_gpu-v3.cpp:30-31 | The block reflector does no work exactly when m <= 0 or n <= 0; otherwise it ends with the update of C. |
| Geqr2x.ColumnsVisit | tpc/magma-2.6.2/src/zgeqr2x_gpu-v3.cpp:181-199 | The inner loop generates reflectors for columns i, ..., e-1 in order. |
| Geqr2x.Block | tpc/magma-2.6.2/src/zgeqr2x_gpu-v3.cpp:180-207 | One pass of the outer loop. BlockVisits states that it generates the reflectors of columns b..end-1; BlockApplies, that column j in [b, last) gets H(b..min(j, end)-1). |
| Geqr2x.Blocks | tpc/magma-2.6.2/src/zgeqr2x_gpu-v3.cpp:180-208 | The outer loop from column b. Its partners are BlocksVisit, BlocksApply and BlocksShaped. |
| Geqr2x.Loop | tpc/magma-2.6.2/src/zgeqr2x_gpu-v3.cpp:177-208 | The whole loop, in either version of the trailing update. EachColumnOnce states that it generates one reflector per column, left to right. |
| Geqr2x.BlocksVisit | tpc/magma-2.6.2/src/zgeqr2x_gpu-v3.cpp:180-181 | The blocks from column b generate reflectors for columns b, ..., min_mn-1 in order. |
| Geqr2x.EachColumnOnce | tpc/magma-2.6.2/src/zgeqr2x_gpu-v3.cpp:177-181 | The blocks [b, min(min_mn, b+32)) cover [0, min(m,n)), and each column gets its reflector exactly once, left to right. |
| Geqr2x.AsWrittenShape | tpc/magma-2.6.2/src/zgeqr2x_gpu-v3.cpp:180-207 | Earlier reflectors reach column i only when i - b > 0, and then exactly those of its block left of it. Every trailing update that does work applies 32 reflectors to the columns from the block's end up to min(m,n), so the last block's update takes the early return. |
| Geqr2x.BlocksApply | tpc/magma-2.6.2/src/zgeqr2x_gpu-v3.cpp:180-208 | When b <= j < last, the blocks from column b apply to column j the reflectors H(b), ..., H(min(j, min_mn) - 1): in that order, each once, and no others. |
| Geqr2x.AsWrittenSkipsWideColumns | tpc/magma-2.6.2/src/zgeqr2x_gpu-v3.cpp:204-207 | As written, column j < min(m,n) gets H(0), ..., H(j-1) in order, each once. A column j >= min(m,n) gets no reflector at all. |
| Geqr2x.AsWrittenWideCounterexample | tpc/magma-2.6.2/src/zgeqr2x_gpu-v3.cpp:204-207 | For a 2 x 3 matrix, column 2 gets no reflector as written, and exactly H(0) then H(1) with the corrected update. |
| Geqr2x.EveryColumnUpdated | tpc/magma-2.6.2/src/zgeqr2x_gpu-v3.cpp:204-207 | With the trailing update reaching column n, every column j < n gets exactly H(0), ..., H(min(j, m, n) - 1), in that order and each once. |

## Left out

- The numerical content of every kernel is left out: trsm, trsv, gemm, syr2k, latrd, larfbx, larfgtx, nrm2, gerbt, gesv_nopiv, gerfs, dlascl_diag, getf2 and the LAPACK dsytrd. These are floating-point; each is an opaque step.
- Host and device transfers, queue creation and the device query are steps or brackets in the trace. Creating a queue is assumed to succeed.
- Batching over the per-matrix arrays m[], n[] and info_array is left out; RecPanel follows one matrix driven by the shared max_* values.
- The bodies of adjust_ipiv_vbatched and of the two laswp_rowserial kernels are not part of this model. Their meaning comes from their names, arguments and use: add max_n1 to the right half's pivots, and apply the pivots [0, n1) or [0, n2) to the named columns.
- The getf2 pivots come from the oracle `factor`, assumed to return LAPACK getf2 pivots (pivot k in [k+1, m]). Singular steps reported through info_array and gbstep are left out.
- RecPanel.RecPanel: requires min_recpnb >= 1, max_m >= max_n and a panel inside the matrix and pivot array. The code assumes m >= n (line 15), and with min_recpnb = 0 and max_n = 1 the split gives n1 = 0, so the recursion would not end.
- magma_get_dsytrd_nb is not part of this model: nb is a parameter, nb >= 1.
- Sytrd.LowerTiles: the in-bounds and final-block bounds hold only when nb <= nx. The code relies on this without checking it, so the model states them under that assumption.
- magma_roundup and magma_ceildiv are not part of this model; Common defines them as the least multiple of y at or above x and the least q with q*y >= x.
- MAGMA_ERR_HOST_ALLOC (-112) and MAGMA_ERR_DEVICE_ALLOC (-113) come from magma_types.h, which is not part of this model; the values follow MAGMA's published header.
- The status of magmablas_dlascl_diag, of magma_dgerbt_gpu and of the solve and refinement of dgesv_rbt are parameters; the model does not compute them.
- The rows of dB beyond n in dgesv_rbt are not modelled; the back transformation records that only the top n rows are copied back.
- The dwork and dT layouts of zgeqr2x3 and the commented-out norm adjust are left out.
- Sytrd.DsytrdGpu: work0 is the integer n*nb. The code stores in work[0] the double that magma_dmake_lwork(lwkopt) makes of it; that conversion is floating point and is left out.
- SytrsNopiv.Factorization: the routine's documentation (dsytrs_nopiv_gpu.cpp:17-19) states the upper factorization as A = U * D * U**H, but the calls of lines 104-115 invert A = U**H * D * U. The model follows the calls; DocumentedFactorization records the documented form, and DocumentedFormOnlyForLower shows where the two differ. Which of the two DSYTRF_NOPIV_GPU produces is not part of this model.
- Integer widths: magma_int_t arithmetic is unbounded in the model. This covers nb*n in the -11 check, lwkopt = n*nb, n*nrhs for the work buffer of cgetrs, nn*nn, 2*nn for hu, hv and dv, and magma_roundup; the code would overflow only for sizes far beyond any device memory.

## Findings

| source | as written | input that shows it | evidently intended | confidence | as-written member | corrected member |
|---|---|---|---|---|---|---|
| tpc/magma-2.6.2/src/dgesv_rbt.cpp:149-152 | A failing magma_dgerbt_gpu returns at once, skipping the cleanup label. | refine = MagmaFalse, n = nrhs = 1, all allocations succeed, dgerbt returns nonzero: dA, dB, hu, hv and the queue stay allocated. | Go to cleanup like every other failure after line 113. | not executed; medium | GesvRbt.GerbtFailureLeaks | GesvRbt.FreesEverything |
| tpc/magma-2.6.2/src/zgeqr2x_gpu-v3.cpp:204-207 | The trailing update after each block covers min_mn - i columns with BLOCK_SIZE reflectors. | m = 2, n = 3: column 2 never gets H(0) or H(1), so R(0:1, 2) is not computed. | Update the n - i columns right of the block with the block's i - b reflectors. | not executed; medium | Geqr2x.AsWrittenSkipsWideColumns | Geqr2x.EveryColumnUpdated |
