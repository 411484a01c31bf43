// The kernels, finalizers and host driver of the Kokkos CUDA reduction:
// run_reduce_functor_on_cuda, run_reduce_operator_on_cuda, the serial and
// block finalizers, and cuda_parallel_reduce with its single-block and
// two-phase multi-block paths.  Threads and blocks become loop indices.
module CudaParallelReduce {
  import opened CudaReduceAlgebra
  import opened CudaReduceTree
  import opened CudaWorkPartition

  /** The condition under which CudaParallelReduceFinalizeFunctor calls the
      application's serial finalizer. */
  predicate SerialFinalizeFires(gridDim: nat, threadIdx: nat)
  {
    1 == gridDim && 0 == threadIdx
  }

  /** CudaParallelReduceFinalizeFunctor::operator() executed by every thread
      of a block of `shared.Length` threads; the result lists, in thread
      order, the values handed to the serial finalizer. */
  method SerialFinalize(shared: array<int>, gridDim: nat) returns (seen: seq<int>)
    requires shared.Length >= 1
    ensures seen == if gridDim == 1 then [shared[0]] else []
  {
    seen := [];
    for t := 0 to shared.Length
      invariant seen == if gridDim == 1 && t >= 1 then [shared[0]] else []
    {
      if SerialFinalizeFires(gridDim, t) {
        seen := seen + [shared[0]];
      }
    }
  }

  /** The coalesced copy pattern shared by both staging loops: thread t of
      `blockDim` copies elements t, t + blockDim, ... below `count` from
      `src` to `dst` at offset `dstOff`. */
  method StripedCopy<T>(src: array<T>, dst: array<T>, dstOff: nat, count: nat, blockDim: nat)
    requires blockDim >= 1
    requires count <= src.Length && dstOff + count <= dst.Length
    requires src != dst
    modifies dst
    ensures forall i :: 0 <= i < count ==> dst[dstOff + i] == src[i]
    ensures forall j :: 0 <= j < dst.Length && !(dstOff <= j < dstOff + count) ==> dst[j] == old(dst[j])
  {
    for t := 0 to blockDim
      invariant forall k :: 0 <= k < count && k % blockDim < t ==> dst[dstOff + k] == src[k]
      invariant forall j :: 0 <= j < dst.Length && !(dstOff <= j < dstOff + count) ==> dst[j] == old(dst[j])
    {
      CopyResidue(src, dst, dstOff, count, blockDim, t);
    }
  }

  /** The strided loop of one thread `t` of StripedCopy: it copies the
      elements below `count` whose index is `t` modulo `blockDim`, and
      only those. */
  method CopyResidue<T>(src: array<T>, dst: array<T>, dstOff: nat, count: nat, blockDim: nat, t: nat)
    requires t < blockDim
    requires count <= src.Length && dstOff + count <= dst.Length
    requires src != dst
    modifies dst
    ensures forall k :: 0 <= k < count && k % blockDim == t ==> dst[dstOff + k] == src[k]
    ensures forall k :: 0 <= k < count && k % blockDim != t ==> dst[dstOff + k] == old(dst[dstOff + k])
    ensures forall j :: 0 <= j < dst.Length && !(dstOff <= j < dstOff + count) ==> dst[j] == old(dst[j])
  {
    var i := t;
    ghost var m: nat := 0;
    while i < count
      invariant i == t + blockDim * m
      invariant m == 0 || t + blockDim * (m - 1) < count
      invariant dst[..] == StridedWrites(old(dst[..]), src[..], dstOff, t, blockDim, m)
      decreases count - i
    {
      dst[dstOff + i] := src[i];
      i, m := i + blockDim, m + 1;
    }
    StridedWritesResult(old(dst[..]), src[..], dstOff, count, t, blockDim, m);
  }

  /** The destination `a` after the first `m` copies `a[off + x] := s[x]`
      at `x = t, t + d, ...`; a copy outside either sequence is skipped. */
  ghost function StridedWrites<T>(a: seq<T>, s: seq<T>, off: nat, t: nat, d: nat, m: nat): (r: seq<T>)
    ensures |r| == |a|
  {
    if m == 0 then a
    else
      var w, x := StridedWrites(a, s, off, t, d, m - 1), t + d * (m - 1);
      if x < |s| && off + x < |a| then w[off + x := s[x]] else w
  }

  /** Element `j` after the first `m` strided copies: the source element if
      `j - off` is one of the copied indices, the old element otherwise. */
  lemma {:induction false} StridedWritesAt<T>(a: seq<T>, s: seq<T>, off: nat, t: nat, d: nat, m: nat, j: nat)
    requires d >= 1 && j < |a|
    ensures StridedWrites(a, s, off, t, d, m)[j]
            == if off <= j && j - off < |s| && InStride(j - off, t, d, m) then s[j - off] else a[j]
  {
    if m > 0 {
      StridedWritesAt(a, s, off, t, d, m - 1, j);
      if off <= j {
        InStrideStep(j - off, t, d, m - 1);
      }
    }
  }

  /** After the stride from `t` has passed `count`, exactly the elements
      below `count` in the residue class of `t` are copied. */
  lemma StridedWritesResult<T>(a: seq<T>, s: seq<T>, off: nat, count: nat, t: nat, d: nat, m: nat)
    requires t < d && count <= |s| && off + count <= |a|
    requires count <= t + d * m && (m == 0 || t + d * (m - 1) < count)
    ensures forall k :: 0 <= k < count && k % d == t ==> StridedWrites(a, s, off, t, d, m)[off + k] == s[k]
    ensures forall k :: 0 <= k < count && k % d != t ==> StridedWrites(a, s, off, t, d, m)[off + k] == a[off + k]
    ensures forall j :: 0 <= j < |a| && !(off <= j < off + count) ==> StridedWrites(a, s, off, t, d, m)[j] == a[j]
  {
    forall j | 0 <= j < |a|
      ensures StridedWrites(a, s, off, t, d, m)[j]
              == if off <= j && j - off < count && (j - off) % d == t then s[j - off] else a[j]
    {
      StridedWritesAt(a, s, off, t, d, m, j);
      if off <= j {
        StrideMembership(j - off, t, d, m, count);
      }
    }
  }

  /** CudaParallelReduceFinalizeBlock::operator(): the block's threads copy
      the `wordCount` words of slot 0 into entry `blockIdx` of the partial
      result buffer, whose entries are `storageLength` words apart.  The
      padding word and the other blocks' entries are left alone. */
  method FinalizeBlock<T>(shared: array<T>, blockValue: array<T>, blockIdx: nat,
                          blockDim: nat, wordCount: nat, storageLength: nat)
    requires blockDim >= 1
    requires wordCount <= storageLength && wordCount <= shared.Length
    requires blockIdx * storageLength + storageLength <= blockValue.Length
    requires shared != blockValue
    modifies blockValue
    ensures forall i :: 0 <= i < wordCount ==> blockValue[blockIdx * storageLength + i] == shared[i]
    ensures forall j :: 0 <= j < blockValue.Length
              && !(blockIdx * storageLength <= j < blockIdx * storageLength + wordCount)
              ==> blockValue[j] == old(blockValue[j])
  {
    StripedCopy(shared, blockValue, blockIdx * storageLength, wordCount, blockDim);
  }

  /** The per-thread values of block `blockIdx`: its slice of the grid's
      strided partials. */
  function BlockPartials(op: Reducer, f: nat -> int, workCount: nat,
                         blockIdx: nat, blockDim: nat, gridDim: nat): (r: seq<int>)
    requires blockDim >= 1 && blockIdx < gridDim
    ensures |r| == blockDim
    ensures blockDim * blockIdx + blockDim <= blockDim * gridDim
  {
    MulGap(blockDim, blockIdx, gridDim);
    Partials(op, f, blockDim * gridDim, workCount)[blockDim * blockIdx .. blockDim * blockIdx + blockDim]
  }

  /** Thread `t` of block `blockIdx` holds the strided fold from its global
      index `t + blockDim * blockIdx`. */
  lemma BlockPartialsAt(op: Reducer, f: nat -> int, workCount: nat,
                        blockIdx: nat, blockDim: nat, gridDim: nat, t: nat)
    requires blockDim >= 1 && blockIdx < gridDim && t < blockDim
    ensures BlockPartials(op, f, workCount, blockIdx, blockDim, gridDim)[t]
            == StridedFold(op, f, Init(op), t + blockDim * blockIdx, blockDim * gridDim, workCount)
  {
    MulGap(blockDim, blockIdx, gridDim);
  }

  /** run_reduce_functor_on_cuda for one block: each thread initialises its
      slot and runs its strided loop, then the block tree-reduces its slots.
      The caller applies the finalizer to the returned shared slots. */
  method RunReduceFunctorBlock(op: Reducer, f: nat -> int, workCount: nat,
                               blockIdx: nat, blockDim: nat, gridDim: nat)
    returns (shared: array<int>)
    requires blockDim >= 1 && blockIdx < gridDim
    ensures fresh(shared) && shared.Length == blockDim
    ensures IsPow2(blockDim) ==>
              shared[0] == JoinAll(op, BlockPartials(op, f, workCount, blockIdx, blockDim, gridDim))
  {
    shared := new int[blockDim];
    for t := 0 to blockDim
      invariant forall k :: 0 <= k < t ==>
                  shared[k] == BlockPartials(op, f, workCount, blockIdx, blockDim, gridDim)[k]
    {
      shared[t] := AccumulateStrided(op, f, workCount, t, blockDim, blockIdx, gridDim);
      BlockPartialsAt(op, f, workCount, blockIdx, blockDim, gridDim, t);
    }
    assert shared[..] == BlockPartials(op, f, workCount, blockIdx, blockDim, gridDim);
    ReduceShared(op, shared);
  }

  /** run_reduce_operator_on_cuda: one block of `blockDim` threads copies the
      partial results into its shared slots, tree-reduces them and hands
      slot 0 to the serial finalizer. */
  method RunReduceOperator(op: Reducer, blockResult: array<int>, blockDim: nat)
    returns (seen: seq<int>)
    requires 1 <= blockDim <= blockResult.Length
    ensures IsPow2(blockDim) ==> seen == [JoinAll(op, blockResult[..blockDim])]
  {
    var shared := new int[blockDim];
    StripedCopy(blockResult, shared, 0, blockDim, blockDim);
    assert shared[..] == blockResult[..blockDim];
    ReduceShared(op, shared);
    seen := SerialFinalize(shared, 1);
  }

  /** cuda_parallel_reduce with values of one storage word: the values the
      serial finalizer observes.  It observes exactly one value, the fold of
      the functor over [0, workCount) from the initial value.  The device
      limits are powers of two.  Positive work uses the single-block halving
      loop as written; an empty reduction uses the loop with the
      `1 < thread_count` guard, since the loop as written never exits for it
      (see README, Findings). */
  method ParallelReduce(op: Reducer, f: nat -> int, workCount: nat,
                        maxThreadCount: nat, blockCountMax: nat)
    returns (seen: seq<int>)
    requires IsPow2(maxThreadCount) && IsPow2(blockCountMax)
    ensures seen == [Fold(op, f, workCount)]
  {
    if UsesSingleBlock(workCount, maxThreadCount) {
      var threadCount: nat;
      ghost var k: nat;
      if workCount >= 1 {
        threadCount, k := SingleBlockThreadCount(workCount, maxThreadCount);
      } else {
        threadCount, k := SingleBlockThreadCountGuarded(workCount, maxThreadCount);
      }
      seen := SingleBlockReduce(op, f, workCount, threadCount);
    } else {
      var blockCount, _ := MultiBlockCount(workCount, maxThreadCount, blockCountMax);
      seen := MultiBlockReduce(op, f, workCount, maxThreadCount, blockCount);
    }
  }

  /** The single-block path: one launch of `threadCount` threads whose
      serial finalizer fires on thread 0. */
  method SingleBlockReduce(op: Reducer, f: nat -> int, workCount: nat, threadCount: nat)
    returns (seen: seq<int>)
    requires IsPow2(threadCount)
    ensures seen == [Fold(op, f, workCount)]
  {
    var shared := RunReduceFunctorBlock(op, f, workCount, 0, threadCount, 1);
    assert BlockPartials(op, f, workCount, 0, threadCount, 1) == Partials(op, f, threadCount, workCount);
    PartialsJoinToFold(op, f, threadCount, workCount);
    seen := SerialFinalize(shared, 1);
  }

  /** The two-phase path: `blockCount` blocks of `blockDim` threads stage
      their partials in a buffer of one entry per block (no serial finalizer
      fires in this launch), then a second launch of one block of
      `blockCount` threads reduces the buffer and finalizes. */
  method MultiBlockReduce(op: Reducer, f: nat -> int, workCount: nat, blockDim: nat, blockCount: nat)
    returns (seen: seq<int>)
    requires IsPow2(blockDim) && IsPow2(blockCount)
    ensures seen == [Fold(op, f, workCount)]
  {
    var blockValue := StageAll(op, f, workCount, blockDim, blockCount);
    PartialsJoinToFold(op, f, blockDim * blockCount, workCount);
    seen := RunReduceOperator(op, blockValue, blockCount);
    assert blockValue[..] == blockValue[..blockCount];
  }

  /** The first launch of the two-phase path: every block stages the join
      of its threads' values in its entry of the buffer, and together the
      staged entries join to the join of all `blockDim * blockCount` strided
      thread values. */
  method StageAll(op: Reducer, f: nat -> int, workCount: nat, blockDim: nat, blockCount: nat)
    returns (blockValue: array<int>)
    requires IsPow2(blockDim) && IsPow2(blockCount)
    ensures fresh(blockValue) && blockValue.Length == blockCount
    ensures forall b :: 0 <= b < blockCount ==>
              blockValue[b] == JoinAll(op, BlockPartials(op, f, workCount, b, blockDim, blockCount))
    ensures JoinAll(op, blockValue[..]) == JoinAll(op, Partials(op, f, blockDim * blockCount, workCount))
  {
    blockValue := new int[blockCount];
    for b := 0 to blockCount
      invariant forall j :: 0 <= j < b ==>
                  blockValue[j] == JoinAll(op, BlockPartials(op, f, workCount, j, blockDim, blockCount))
    {
      StageBlock(op, f, workCount, b, blockDim, blockCount, blockValue);
    }
    JoinAllBlocks(op, f, workCount, blockDim, blockCount, blockValue[..]);
  }

  /** Launch-one work of block `b`: reduce the block and stage its value in
      entry `b` of the partial result buffer. */
  method StageBlock(op: Reducer, f: nat -> int, workCount: nat, b: nat, blockDim: nat,
                    blockCount: nat, blockValue: array<int>)
    requires IsPow2(blockDim) && b < blockCount && blockValue.Length == blockCount
    modifies blockValue
    ensures blockValue[b] == JoinAll(op, BlockPartials(op, f, workCount, b, blockDim, blockCount))
    ensures forall j :: 0 <= j < blockCount && j != b ==> blockValue[j] == old(blockValue[j])
  {
    var shared := RunReduceFunctorBlock(op, f, workCount, b, blockDim, blockCount);
    FinalizeBlock(shared, blockValue, b, blockDim, 1, 1);
  }

  /** The staged block values join to the join of all thread values. */
  lemma JoinAllBlocks(op: Reducer, f: nat -> int, workCount: nat, blockDim: nat, blockCount: nat,
                      staged: seq<int>)
    requires blockDim >= 1 && blockCount >= 1 && |staged| == blockCount
    requires forall b :: 0 <= b < blockCount ==>
               staged[b] == JoinAll(op, BlockPartials(op, f, workCount, b, blockDim, blockCount))
    ensures JoinAll(op, staged) == JoinAll(op, Partials(op, f, blockDim * blockCount, workCount))
  {
    var all := Partials(op, f, blockDim * blockCount, workCount);
    forall b | 0 <= b < blockCount
      ensures blockDim * b + blockDim <= |all|
      ensures staged[b] == JoinAll(op, all[blockDim * b .. blockDim * b + blockDim])
    {
      MulGap(blockDim, b, blockCount);
    }
    JoinAllChunks(op, all, blockDim, blockCount, staged);
  }

  /** Joining the joins of `g` consecutive chunks of `d` values is joining
      all the values. */
  lemma {:induction false} JoinAllChunks(op: Reducer, all: seq<int>, d: nat, g: nat, v: seq<int>)
    requires d >= 1 && g >= 1 && |all| == d * g && |v| == g
    requires forall j :: 0 <= j < g ==> d * j + d <= |all| && v[j] == JoinAll(op, all[d * j .. d * j + d])
    ensures JoinAll(op, v) == JoinAll(op, all)
    decreases g
  {
    if g == 1 {
      assert all[d * 0 .. d * 0 + d] == all;
    } else {
      ChunksOfPrefix(op, all, d, g, v);
      JoinAllChunks(op, all[..d * (g - 1)], d, g - 1, v[..g - 1]);
      MulGap(d, 0, g - 1);
      JoinAllLastChunk(op, v, all, d * (g - 1), d);
    }
  }

  /** The chunk property of JoinAllChunks restricted to the first `g - 1`
      chunks. */
  lemma ChunksOfPrefix(op: Reducer, all: seq<int>, d: nat, g: nat, v: seq<int>)
    requires d >= 1 && g >= 2 && |all| == d * g && |v| == g
    requires forall j :: 0 <= j < g ==> d * j + d <= |all| && v[j] == JoinAll(op, all[d * j .. d * j + d])
    ensures d * (g - 1) + d == |all|
    ensures forall j :: 0 <= j < g - 1 ==>
              d * j + d <= |all[..d * (g - 1)]|
              && v[..g - 1][j] == JoinAll(op, all[..d * (g - 1)][d * j .. d * j + d])
  {
    assert d * g == d * (g - 1) + d;
    var prefix := all[..d * (g - 1)];
    forall j | 0 <= j < g - 1
      ensures d * j + d <= |prefix|
      ensures v[..g - 1][j] == JoinAll(op, prefix[d * j .. d * j + d])
    {
      MulGap(d, j, g - 1);
      assert prefix[d * j .. d * j + d] == all[d * j .. d * j + d];
    }
  }
}
