# Kokkos CUDA reduction engine and Thyra SPMD sub-view bookkeeping, in Dafny

This project models two pieces of Trilinos and proves properties of the models.

**The Kokkos CUDA parallel reduction** (`Kokkos_CudaDeviceReduce.hpp`):
- the sizing of a shared-memory reduction slot;
- the host-side work partitioner of `cuda_parallel_reduce`, for the single-block and multi-block paths;
- the strided assignment of work indices to threads;
- the halving tree reduction over a block's shared slots, one barrier-separated level at a time;
- the two-phase staging of block partials through the partial-result buffer;
- the serial and block finalizers.

Threads and blocks are loop indices, and each tree level is one sequential step over an array. `join` is integer addition (`Sum`, initial value 0) or maximum (`Max(init)`). The end-to-end theorem is `CudaParallelReduce.ParallelReduce`: for power-of-two device limits, the serial finalizer observes exactly one value. That value is the sequential fold of the functor over `[0, work_count)`, starting from the initial value. For `work_count = 0` this rests on the corrected single-block loop described under Findings; the loop as written never exits there.

**Thyra's `SpmdVectorBase`** (`Thyra_SpmdVectorBase_def.hpp`) is a class with the fields `globalDim_`, `localOffset_`, `localSubDim_` and `in_applyOpImpl_`. The model covers:
- the constructor and `updateSpmdSpace`;
- `validateRange`;
- the local-or-default decision of the acquire, release and commit detached-view methods, with their offset arithmetic;
- the local range, the replication test and the reentrancy flag of `applyOpImplWithComm`.

The acquire functions and the release/commit functions are modelled as functions of the object. This lets lemmas relate them. The main lemma is the round trip: a view that acquire's local branch hands out is always taken back by release's local branch.

`debug` parameters stand for the `TEUCHOS_DEBUG` checks.

The model follows the code as written, also where its own comments or names suggest otherwise:
- `work_count == max_thread_count` takes the multi-block path, because the test at line 282 is a strict `<` (`CudaWorkPartition.UsesSingleBlock`).
- The tree reduction is a full reduction only for power-of-two block sizes.
- The comment at line 63 of `Kokkos_CudaDeviceReduce.hpp` promises "an odd number of words". The padding at line 69 only avoids multiples of 32, so a two-word value stays at two words.
- `work_count == 0` does not give a degenerate launch: the host loop at line 289 never exits (see Findings).
- `in_applyOpImpl_` is set at line 161 of `Thyra_SpmdVectorBase_def.hpp` and cleared only at line 236, after the last call returns. A call that throws in between leaves the flag set (see Findings).

## Model

| member | source | states |
|---|---|---|
| CudaSharedMemory.WordCount | packages/kokkos/MDArray/src/Kokkos_CudaDeviceReduce.hpp:53-59 | the word count is the ceiling of the byte size over 4: `w*4 >= sizeof` and `(w-1)*4 < sizeof`, and at least 1 for a non-empty type |
| CudaSharedMemory.StorageLength | packages/kokkos/MDArray/src/Kokkos_CudaDeviceReduce.hpp:61-70 | the storage length is the word count or one more; it is never a multiple of the 32 banks; no padding is added when the word count is not a bank multiple |
| CudaSharedMemory.StorageLengthNotAlwaysOdd | packages/kokkos/MDArray/src/Kokkos_CudaDeviceReduce.hpp:63-69 | an 8-byte value gets storage length 2, so "odd number of words" does not hold |
| CudaReduceAlgebra.FoldSumOfIndices | packages/kokkos/MDArray/src/Kokkos_CudaDeviceReduce.hpp:166-173 | with additive join and the identity functor, the fold over `[0, n)` from 0 is `n(n-1)/2` |
| CudaReduceAlgebra.FoldMaxIsMaximum | packages/kokkos/MDArray/src/Kokkos_CudaDeviceReduce.hpp:166-173 | with max join, the fold is at least `init` and every contribution, and equals `init` or one of them |
| CudaReduceTree.JoinLevel | packages/kokkos/MDArray/src/Kokkos_CudaDeviceReduce.hpp:118-120 | at level `j`, slot `i < j` becomes `join(slot i, slot i+j)` from the level's old values; slots `>= j` are unchanged |
| CudaReduceTree.ReduceShared | packages/kokkos/MDArray/src/Kokkos_CudaDeviceReduce.hpp:98-122 | the in-place `j >>= 1` loop leaves exactly `Tree`, the level-by-level result in which each `Level` joins slot `i < j` with slot `i + j` (lines 108-121); for a power-of-two block, slot 0 holds the join of all original slots |
| CudaReduceTree.TreeReducesToSlotZero | packages/kokkos/MDArray/src/Kokkos_CudaDeviceReduce.hpp:108-121 | for `blockDim` a power of two, the levels leave in slot 0 the join of all `blockDim` original slots |
| CudaReduceTree.ThreeSlotsDropTheLast | packages/kokkos/MDArray/src/Kokkos_CudaDeviceReduce.hpp:108-121 | with 3 slots `[1,2,4]` under addition, slot 0 ends as 3, not 7: slot 2 is never joined |
| CudaWorkPartition.SingleBlockThreadCount | packages/kokkos/MDArray/src/Kokkos_CudaDeviceReduce.hpp:282-289 | for `1 <= work_count < max_thread_count`, the halving loop ends with `thread_count/2 < work_count <= thread_count <= max_thread_count`, where `thread_count` is `max_thread_count >> k` and stays a power of two |
| CudaWorkPartition.EmptyWorkHalvingNeverExits | packages/kokkos/MDArray/src/Kokkos_CudaDeviceReduce.hpp:289 | with `work_count == 0`, the loop guard `KeepsHalving` (`0 <= (t >> 1)`) holds at `max_thread_count >> k` for every `k`, and one more iteration moves to `max_thread_count >> (k+1)` |
| CudaWorkPartition.SingleBlockThreadCountGuarded | packages/kokkos/MDArray/src/Kokkos_CudaDeviceReduce.hpp:286-289 | the halving loop with an added `1 < thread_count` guard: it gives 1 thread for no work, and for positive work it stops at a shift of `max_thread_count` with `thread_count/2 < work_count <= thread_count` |
| CudaWorkPartition.HalvingCountsAgree | packages/kokkos/MDArray/src/Kokkos_CudaDeviceReduce.hpp:286-289 | only one shift `t = max_thread_count >> k` has `t/2 < work_count <= t` for positive work, so the loop as written and the guarded loop choose the same count |
| CudaWorkPartition.MultiBlockCount | packages/kokkos/MDArray/src/Kokkos_CudaDeviceReduce.hpp:301-311 | for `work_count >= max_thread_count >= 1`, the capped halving loop ends with `1 <= block_count <= min(block_count_max, max_thread_count)` and `work_count > max_thread_count * (block_count >> 1)`; `block_count` is a power of two when both limits are |
| CudaWorkPartition.AccumulateStrided | packages/kokkos/MDArray/src/Kokkos_CudaDeviceReduce.hpp:166-173 | a thread's slot ends as `init` followed by the functor at `t + B*b`, then every `B*G` indices after it, while below `work_count` |
| CudaWorkPartition.StridedFoldStep | packages/kokkos/MDArray/src/Kokkos_CudaDeviceReduce.hpp:168-173 | index `n` is folded into a thread's value exactly when it is in that thread's residue class and not below its start, and then by one functor call |
| CudaWorkPartition.OneOwnerPerIndex | packages/kokkos/MDArray/src/Kokkos_CudaDeviceReduce.hpp:168-171 | among global threads `g < B*G`, exactly one thread, `n mod B*G`, visits index `n` |
| CudaWorkPartition.PartialsJoinToFold | packages/kokkos/MDArray/src/Kokkos_CudaDeviceReduce.hpp:166-175 | joining the strided values of all `B*G` threads gives the sequential fold of the functor over `[0, work_count)` from `init` |
| CudaParallelReduce.SerialFinalize | packages/kokkos/MDArray/src/Kokkos_CudaDeviceReduce.hpp:197-211 | run on every thread, the serial finalizer fires only when `gridDim == 1 && threadIdx == 0` (the test of line 202, `SerialFinalizeFires`): slot 0 once for a one-block grid, never otherwise |
| CudaParallelReduce.StripedCopy | packages/kokkos/MDArray/src/Kokkos_CudaDeviceReduce.hpp:140-144 | the coalesced loop, where thread `t` copies `t, t+blockDim, ...`, copies every element below the count exactly once to the destination; nothing else changes |
| CudaParallelReduce.CopyResidue | packages/kokkos/MDArray/src/Kokkos_CudaDeviceReduce.hpp:140-144 | one thread's strided copy writes exactly the elements below the count in its residue class modulo `blockDim`; every other destination element is unchanged |
| CudaParallelReduce.StridedWritesResult | packages/kokkos/MDArray/src/Kokkos_CudaDeviceReduce.hpp:142-144 | once the stride `t, t+blockDim, ...` passes the count, the copies made are exactly the elements below the count in the residue class of `t`; every other element keeps its old value |
| CudaParallelReduce.FinalizeBlock | packages/kokkos/MDArray/src/Kokkos_CudaDeviceReduce.hpp:233-255 | exactly the `WordCount` words of slot 0 are written, into `block_value[blockIdx]`; other blocks' entries and the padding word are unchanged |
| CudaParallelReduce.RunReduceFunctorBlock | packages/kokkos/MDArray/src/Kokkos_CudaDeviceReduce.hpp:153-178 | for a power-of-two block, slot 0 holds the join of the block's slice of the grid's strided per-thread values |
| CudaParallelReduce.RunReduceOperator | packages/kokkos/MDArray/src/Kokkos_CudaDeviceReduce.hpp:127-149 | the second launch copies the partials in, tree-reduces them, and finalizes exactly once with their join |
| CudaParallelReduce.BlockPartialsAt | packages/kokkos/MDArray/src/Kokkos_CudaDeviceReduce.hpp:166-171 | thread `t` of block `b` holds the strided value of global thread `t + B*b` with stride `B*G` |
| CudaParallelReduce.StageBlock | packages/kokkos/MDArray/src/Kokkos_CudaDeviceReduce.hpp:314-319 | after block `b` runs its functor loop, tree reduction and block finalizer, `block_value[b]` is the join of that block's `B` strided thread values; other entries are unchanged |
| CudaParallelReduce.StageAll | packages/kokkos/MDArray/src/Kokkos_CudaDeviceReduce.hpp:314-319 | after all `G` blocks, each `block_value[b]` is its block's join, and the whole buffer joins like all `B*G` thread values |
| CudaParallelReduce.JoinAllBlocks | packages/kokkos/MDArray/src/Kokkos_CudaDeviceReduce.hpp:314-325 | per-block joins of consecutive `B`-thread slices join like the `B*G` thread values |
| CudaParallelReduce.JoinAllChunks | packages/kokkos/MDArray/src/Kokkos_CudaDeviceReduce.hpp:314-325 | the joins of `g` consecutive chunks of length `d` join like the whole sequence |
| CudaParallelReduce.SingleBlockReduce | packages/kokkos/MDArray/src/Kokkos_CudaDeviceReduce.hpp:282-294 | the single-block launch finalizes exactly once, with the fold over `[0, work_count)` |
| CudaParallelReduce.MultiBlockReduce | packages/kokkos/MDArray/src/Kokkos_CudaDeviceReduce.hpp:295-327 | the first launch fires no serial finalizer; the second finalizes exactly once, with the fold over `[0, work_count)` |
| CudaParallelReduce.ParallelReduce | packages/kokkos/MDArray/src/Kokkos_CudaDeviceReduce.hpp:265-327 | for power-of-two device limits and every `work_count`, the serial finalizer observes exactly one value: the fold of the functor over `[0, work_count)` from `init`; the path is chosen by `UsesSingleBlock` (line 282); positive work on the single-block path uses the halving loop as written, and `work_count = 0` uses the guarded loop of Findings |
| CudaReduceAlgebra.SumInitCountedPerSlot | packages/kokkos/MDArray/src/Kokkos_CudaDeviceReduce.hpp:166-173 | every slot is initialised, so a sum initial value `c` is counted once per slot: `n` slots with no work join to `n*c`, which differs from `c` for `c != 0` and `n >= 2` |
| ThyraSpmdVectorBase.LocalRange | packages/thyra/src/support/operator_vector/adapter_support/Thyra_SpmdVectorBase_def.hpp:179-184 | `local_rng` starts at `localOffset_+off` and has `overlap_local_sub_dim` elements when `off >= 0`; otherwise it is `Invalid` |
| ThyraSpmdVectorBase.ApplyTrace | packages/thyra/src/support/operator_vector/adapter_support/Thyra_SpmdVectorBase_def.hpp:165-233 | the operator is applied exactly once, with the flag set, and without a communicator exactly when locally replicated (`LocallyReplicated`, line 165); for a local overlap the events are the vectors' acquires of `local_rng` with `overlap_global_off`, then the target vectors' acquires, the apply, the vectors' releases and the target vectors' commits at `local_rng.lbound()` (`2a+1` events in all); a non-local overlap yields only the apply |
| ThyraSpmdVectorBase.SpmdVectorBase.constructor | packages/thyra/src/support/operator_vector/adapter_support/Thyra_SpmdVectorBase_def.hpp:56-62 | establishes `in_applyOpImpl_ = false`, `globalDim_ = 0`, `localOffset_ = -1` and `localSubDim_ = 0` |
| ThyraSpmdVectorBase.SpmdVectorBase.UpdateSpmdSpace | packages/thyra/src/support/operator_vector/adapter_support/Thyra_SpmdVectorBase_def.hpp:466-482 | only while `globalDim_ == 0`: copies the space's layout, or resets to `(0, -1, 0)` without a space; otherwise nothing changes |
| ThyraSpmdVectorBase.SpmdVectorBase.ValidateRange | packages/thyra/src/support/operator_vector/adapter_support/Thyra_SpmdVectorBase_def.hpp:488-501 | the result is the full-range expansion to `[0, globalDim_-1]`; with debug checks it is an `invalid_argument` exactly when not `0 <= lbound && ubound < globalDim_` |
| ThyraSpmdVectorBase.SpmdVectorBase.AcquireView | packages/thyra/src/support/operator_vector/adapter_support/Thyra_SpmdVectorBase_def.hpp:339-372 | an `Invalid` range gives a null view; a failed validation is `invalid_argument`; a validated range inside the local elements gives the view `(lbound, size, lbound - localOffset_)`, and only such a range does; a validated range outside them is delegated, and only such a range is; for a well-formed range the window has non-negative size and starts inside the local data |
| ThyraSpmdVectorBase.SpmdVectorBase.InvertedRangeServedLocally | packages/thyra/src/support/operator_vector/adapter_support/Thyra_SpmdVectorBase_def.hpp:352-371 | without debug checks, an inverted range `[5, 0]` on a vector with local elements `[0, 2]` is handed out as a local view of size -4 |
| ThyraSpmdVectorBase.SpmdVectorBase.ReleaseView | packages/thyra/src/support/operator_vector/adapter_support/Thyra_SpmdVectorBase_def.hpp:375-398 | with debug checks, a view outside `[0, globalDim_)` is a `logic_error`; the view is only uninitialized exactly when it lies in the local elements (exclusive end); otherwise it is delegated |
| ThyraSpmdVectorBase.SpmdVectorBase.AcquireReleaseRoundTrip | packages/thyra/src/support/operator_vector/adapter_support/Thyra_SpmdVectorBase_def.hpp:353-397 | a view from acquire's local branch is always handled by release's or commit's local branch, which only uninitializes it |
| ThyraSpmdVectorBase.SpmdVectorBase.LocalRangeStaysLocal | packages/thyra/src/support/operator_vector/adapter_support/Thyra_SpmdVectorBase_def.hpp:179-231 | for a consistently laid-out vector and an overlap inside its local data, `local_rng` is acquired locally with the overlap's window, and released locally again after its global offset is reset to `lbound` |
| ThyraSpmdVectorBase.SpmdVectorBase.ApplyOpImplWithComm | packages/thyra/src/support/operator_vector/adapter_support/Thyra_SpmdVectorBase_def.hpp:97-244 | with debug checks, a reentrant call is an `invalid_argument` and changes nothing; otherwise the calls made are `ApplyTrace` of the overlap used (`EffectiveOverlap`: zeros when `localSubDim_ == 0`, lines 169-178), up to and including the first one that throws; the flag is clear on return exactly when no call threw; the layout is unchanged |
| ThyraSpmdVectorBase.SpmdVectorBase.ApplyOpImplWithCommGuarded | packages/thyra/src/support/operator_vector/adapter_support/Thyra_SpmdVectorBase_def.hpp:161-236 | the same calls and outcome, with the flag cleared on every exit, including a throwing one |
| ThyraSpmdVectorBase.SpmdVectorBase.ApplyCalls | packages/thyra/src/support/operator_vector/adapter_support/Thyra_SpmdVectorBase_def.hpp:201-233 | the calls after the flag is set are the prefix of `ApplyTrace` up to the first that throws, or all of it |
| ThyraSpmdVectorBase.AcquireEach | packages/thyra/src/support/operator_vector/adapter_support/Thyra_SpmdVectorBase_def.hpp:201-210 | the acquire loop over one vector list makes that list's acquire calls in order, stopping after the one that throws |
| ThyraSpmdVectorBase.ReleaseEach | packages/thyra/src/support/operator_vector/adapter_support/Thyra_SpmdVectorBase_def.hpp:224-233 | the release or commit loop over one vector list makes that list's calls in order, stopping after the one that throws |
| ThyraSpmdVectorBase.ThrowThenRetry | packages/thyra/src/support/operator_vector/adapter_support/Thyra_SpmdVectorBase_def.hpp:161-236 | after a call whose first collaborator throws, the next call with debug checks is rejected as reentrant |
| ThyraSpmdVectorBase.ThrowThenRetryGuarded | packages/thyra/src/support/operator_vector/adapter_support/Thyra_SpmdVectorBase_def.hpp:161-236 | with the flag cleared on every exit, the call after one that threw completes |

The acquire and release methods come in const and non-const twins: `acquireNonconstDetachedVectorViewImpl` (lines 401-434) and `commitNonconstDetachedVectorViewImpl` (lines 437-460). Their branches and arithmetic are identical to the const methods. `AcquireView` and `ReleaseView` model both.

## Left out

- Kernel launch syntax, `__syncthreads` and the warp-size barrier skipping (lines 111-116 and 246-250): tree levels and threads run in sequence. Within a level, reads never touch slots written in that level, so the order does not matter.
- CudaReduceTree.ReduceShared: running the levels in sequence assumes a barrier before every level. The source skips `__syncthreads` when `j <= warpSize` (line 113). At `j == 32` with `blockDim == 64`, warp 0 reads slots 32..63 that warp 1 wrote in its strided loop, with no barrier in between. The model does not capture this possible race (not executed).
- The device queries `reduction_thread_max` and `block_count_max`: they are parameters, and the end-to-end theorem requires powers of two.
- `allocate_memory` and `deallocate_memory`: the buffer is a fresh array. Allocation failure is not modelled.
- `ValueView` and `deep_copy` (the `ParallelReduce::run` entry points): the result is the sequence of values the serial finalizer observes.
- The `extern __shared__` union reinterpretation: `FinalizeBlock` and `StripedCopy` are generic over the element type and copy words.
- CudaParallelReduce.ParallelReduce: proved for a value type of one 32-bit word (`WordCount = 1`, storage length 1). Multi-word values are covered only by the word-level copy contracts. The model's integers are unbounded, so 32-bit overflow of the sum is not modelled.
- `sizeof(reduce_type)` is taken to be the storage length in words: alignment padding of the union is not modelled.
- `size_t` wrap-around in `max_thread_count * (block_count >> 1)` is not modelled.
- Floating-point join types are not modelled: join is integer sum or max, so associativity and commutativity hold exactly.
- CudaReduceAlgebra.Accumulate: the functor `functor(iwork, value)` may update the value in any way. The model restricts it to `join(value, f(iwork))`, the shape under which the strided pieces recombine into the sequential fold.
- CudaReduceAlgebra.Init: the initial value of `Sum` is fixed to 0. The source joins `init` once per slot, `B*G` times in all, so an initial value that does not absorb itself is counted more than once (`SumInitCountedPerSlot`).
- `RTOp_parallel_calc_overlap`, `SPMD_apply_op`, the `Teuchos::Comm` communicator, `Workspace`, `persistingView` and the `VectorDefaultBase` implementations are external. Their results are parameters, and calls to them are trace events or outcomes.
- `apply_op_validate_input` (a debug-only input check) is not modelled.
- ThyraSpmdVectorBase.SpmdVectorBase.ApplyOpImplWithComm: an exception is modelled as the position of the first call that throws. What the caller does with it is not modelled, and neither is the release of views acquired before the throw.
- The `sub_vec == NULL` debug checks are not modelled: a view in the model is a value and cannot be null.
- The `THYRA_SPMD_VECTOR_BASE_DUMP` output, `description()`, `space()`, `getLocalSubVector` and `getNonconstLocalSubVector` are not modelled.
- The deprecated raw-pointer `getLocalData`, `commitLocalData` and `freeLocalData` are not modelled.
- `TachoExp_Gemm_External.hpp` is not part of this model: it only forwards dimensions to a BLAS GEMM.

## Findings

| source | as written | input that shows it | evidently intended | confidence | as-written member | corrected member |
|---|---|---|---|---|---|---|
| packages/kokkos/MDArray/src/Kokkos_CudaDeviceReduce.hpp:289 | `while ( work_count <= ( thread_count >> 1 ) ) thread_count >>= 1;` never exits when `work_count == 0`, because `0 <= t >> 1` holds for every `t`, including 0 | `work_count = 0` (any `max_thread_count >= 1`) | an empty reduction launches one thread, which initialises its slot and finalizes with the initial value | high (not executed) | CudaWorkPartition.EmptyWorkHalvingNeverExits | CudaWorkPartition.SingleBlockThreadCountGuarded |
| packages/thyra/src/support/operator_vector/adapter_support/Thyra_SpmdVectorBase_def.hpp:161-236 | `in_applyOpImpl_` is set before the acquire, apply, release and commit calls and cleared only after the last one returns; a throw from any of them leaves it set | `SPMD_apply_op` throws once on a vector with the flag clear; the next `applyOpImplWithComm` with `TEUCHOS_DEBUG` is rejected as reentrant | the flag is cleared on every exit, for instance by a scope guard | medium (not executed) | ThyraSpmdVectorBase.ThrowThenRetry | ThyraSpmdVectorBase.ThrowThenRetryGuarded |

The as-written loop is `CudaWorkPartition.SingleBlockThreadCount`. It requires `work_count >= 1`, the only inputs for which it terminates.

The corrected loop is also guarded by `1 < thread_count`. For positive work it chooses the same count (`CudaWorkPartition.HalvingCountsAgree`). With it, `CudaParallelReduce.ParallelReduce` proves that `work_count = 0` finalizes once, with the initial value.

The as-written flag handling is `ThyraSpmdVectorBase.SpmdVectorBase.ApplyOpImplWithComm`, and the corrected one is `ThyraSpmdVectorBase.SpmdVectorBase.ApplyOpImplWithCommGuarded`.
