// The host-side work partitioner of cuda_parallel_reduce and the strided
// assignment of work indices to threads in run_reduce_functor_on_cuda.
module CudaWorkPartition {
  import opened CudaReduceAlgebra
  import opened CudaReduceTree

  /** `x >> k` on an unsigned size_t. */
  function Shr(x: nat, k: nat): nat
  {
    if k == 0 then x else Shr(x, k - 1) / 2
  }

  /** The single-block path is taken exactly when the work is strictly less
      than the thread limit; work equal to the limit goes multi-block. */
  predicate UsesSingleBlock(workCount: nat, maxThreadCount: nat)
  {
    workCount < maxThreadCount
  }

  /** The guard of the single-block halving loop: `work_count <=
      (thread_count >> 1)`. */
  predicate KeepsHalving(workCount: nat, threadCount: nat)
  {
    workCount <= threadCount / 2
  }

  /** The single-block halving loop as written: halve `thread_count` while
      `work_count <= thread_count >> 1`.  It terminates only for a positive
      work count (see EmptyWorkHalvingNeverExits). */
  method SingleBlockThreadCount(workCount: nat, maxThreadCount: nat)
    returns (threadCount: nat, ghost k: nat)
    requires 1 <= workCount < maxThreadCount
    ensures threadCount / 2 < workCount <= threadCount <= maxThreadCount
    ensures threadCount == Shr(maxThreadCount, k)
    ensures IsPow2(maxThreadCount) ==> IsPow2(threadCount)
  {
    threadCount, k := maxThreadCount, 0;
    while KeepsHalving(workCount, threadCount)
      invariant workCount <= threadCount <= maxThreadCount
      invariant threadCount == Shr(maxThreadCount, k)
      invariant IsPow2(maxThreadCount) ==> IsPow2(threadCount)
      decreases threadCount
    {
      threadCount, k := threadCount / 2, k + 1;
    }
  }

  /** With no work, the guard of the halving loop holds after every number
      of iterations: `0 <= t >> 1` for every `t`, so the loop never exits. */
  lemma EmptyWorkHalvingNeverExits(maxThreadCount: nat, k: nat)
    ensures KeepsHalving(0, Shr(maxThreadCount, k))
    ensures Shr(maxThreadCount, k + 1) == Shr(maxThreadCount, k) / 2
  {
  }

  /** The halving loop with the guard extended by `1 < thread_count`, so that
      an empty reduction launches a single thread.  For positive work it
      chooses the same count as the loop as written. */
  method SingleBlockThreadCountGuarded(workCount: nat, maxThreadCount: nat)
    returns (threadCount: nat, ghost k: nat)
    requires workCount < maxThreadCount
    ensures 1 <= threadCount <= maxThreadCount
    ensures workCount <= threadCount
    ensures threadCount == Shr(maxThreadCount, k)
    ensures workCount >= 1 ==> threadCount / 2 < workCount
    ensures workCount == 0 ==> threadCount == 1
    ensures IsPow2(maxThreadCount) ==> IsPow2(threadCount)
  {
    threadCount, k := maxThreadCount, 0;
    while 1 < threadCount && workCount <= threadCount / 2
      invariant 1 <= threadCount <= maxThreadCount
      invariant workCount <= threadCount
      invariant threadCount == Shr(maxThreadCount, k)
      invariant IsPow2(maxThreadCount) ==> IsPow2(threadCount)
      decreases threadCount
    {
      threadCount, k := threadCount / 2, k + 1;
    }
  }

  /** Each further shift can only shrink the value. */
  lemma {:induction false} ShrMono(x: nat, k1: nat, k2: nat)
    requires k1 <= k2
    ensures Shr(x, k2) <= Shr(x, k1)
    decreases k2 - k1
  {
    if k1 < k2 {
      ShrMono(x, k1, k2 - 1);
    }
  }

  /** The count both halving loops stop at is unique among the shifts of the
      thread limit: only one `t = max >> k` has `t / 2 < work <= t`.  Since
      SingleBlockThreadCount and SingleBlockThreadCountGuarded both return
      such a shift for positive work, they choose the same count. */
  lemma HalvingCountsAgree(maxThreadCount: nat, workCount: nat, k1: nat, k2: nat)
    requires 1 <= workCount
    requires Shr(maxThreadCount, k1) / 2 < workCount <= Shr(maxThreadCount, k1)
    requires Shr(maxThreadCount, k2) / 2 < workCount <= Shr(maxThreadCount, k2)
    ensures Shr(maxThreadCount, k1) == Shr(maxThreadCount, k2)
  {
    if k1 < k2 {
      ShrMono(maxThreadCount, k1 + 1, k2);
    } else if k2 < k1 {
      ShrMono(maxThreadCount, k2 + 1, k1);
    }
  }

  /** The multi-block block count: start from the device's block limit, cap
      it at the thread limit so the final pass has one thread per block, then
      halve it while the halved grid would still hold all the work. */
  method MultiBlockCount(workCount: nat, maxThreadCount: nat, blockCountMax: nat)
    returns (blockCount: nat, ghost k: nat)
    requires 1 <= maxThreadCount <= workCount
    requires blockCountMax >= 1
    ensures 1 <= blockCount <= blockCountMax && blockCount <= maxThreadCount
    ensures workCount > maxThreadCount * (blockCount / 2)
    ensures blockCount == Shr(if maxThreadCount < blockCountMax then maxThreadCount else blockCountMax, k)
    ensures IsPow2(maxThreadCount) && IsPow2(blockCountMax) ==> IsPow2(blockCount)
  {
    blockCount := blockCountMax;
    if maxThreadCount < blockCount {
      blockCount := maxThreadCount;
    }
    k := 0;
    while workCount <= maxThreadCount * (blockCount / 2)
      invariant 1 <= blockCount <= blockCountMax && blockCount <= maxThreadCount
      invariant blockCount == Shr(if maxThreadCount < blockCountMax then maxThreadCount else blockCountMax, k)
      invariant IsPow2(maxThreadCount) && IsPow2(blockCountMax) ==> IsPow2(blockCount)
      decreases blockCount
    {
      blockCount, k := blockCount / 2, k + 1;
    }
  }

  /** The value a thread ends its strided loop with: starting at `v` and at
      index `i`, the functor is applied to i, i + stride, ... while below `n`. */
  function StridedFold(op: Reducer, f: nat -> int, v: int, i: nat, stride: nat, n: nat): int
    requires stride >= 1
    decreases if i < n then n - i else 0
  {
    if i >= n then v else StridedFold(op, f, Accumulate(op, f, i, v), i + stride, stride, n)
  }

  /** The strided work loop of one thread (global index `threadIdx +
      blockDim * blockIdx`, stride `blockDim * gridDim`): `init` followed by
      the functor at every index it owns. */
  method AccumulateStrided(op: Reducer, f: nat -> int, workCount: nat,
                           threadIdx: nat, blockDim: nat, blockIdx: nat, gridDim: nat)
    returns (value: int)
    requires blockDim >= 1 && gridDim >= 1
    ensures value == StridedFold(op, f, Init(op), threadIdx + blockDim * blockIdx,
                                 blockDim * gridDim, workCount)
  {
    value := Init(op);
    var workStride := blockDim * gridDim;
    var iwork := threadIdx + blockDim * blockIdx;
    while iwork < workCount
      invariant StridedFold(op, f, value, iwork, workStride, workCount)
             == StridedFold(op, f, Init(op), threadIdx + blockDim * blockIdx, workStride, workCount)
      decreases workCount - iwork
    {
      value := Accumulate(op, f, iwork, value);
      iwork := iwork + workStride;
    }
  }

  /** Two indices in the same residue class lie a whole stride apart. */
  lemma ResidueGap(i: nat, n: nat, stride: nat)
    requires stride >= 1 && i < n && n % stride == i % stride
    ensures i + stride <= n
  {
    var q := n / stride - i / stride;
    assert n - i == stride * q;
  }

  /** Growing the work range by index `n` changes a thread's value exactly
      when `n` is one of its indices, and then by one functor call. */
  lemma {:induction false} StridedFoldStep(op: Reducer, f: nat -> int, v: int, i: nat, stride: nat, n: nat)
    requires stride >= 1
    ensures StridedFold(op, f, v, i, stride, n + 1)
         == if i <= n && n % stride == i % stride
            then Accumulate(op, f, n, StridedFold(op, f, v, i, stride, n))
            else StridedFold(op, f, v, i, stride, n)
    decreases if i < n then n - i else 0
  {
    var cond := i <= n && n % stride == i % stride;
    if i > n {
      assert StridedFold(op, f, v, i, stride, n + 1) == v;
      assert !cond;
    } else if i == n {
      assert StridedFold(op, f, v, i, stride, n) == v;
      assert StridedFold(op, f, v, i, stride, n + 1)
          == StridedFold(op, f, Accumulate(op, f, i, v), i + stride, stride, n + 1);
    } else {
      var w := Accumulate(op, f, i, v);
      assert StridedFold(op, f, v, i, stride, n + 1) == StridedFold(op, f, w, i + stride, stride, n + 1);
      assert StridedFold(op, f, v, i, stride, n) == StridedFold(op, f, w, i + stride, stride, n);
      StridedFoldStep(op, f, w, i + stride, stride, n);
      ShiftedResidue(i, stride);
      if n % stride == i % stride {
        ResidueGap(i, n, stride);
      }
    }
  }

  lemma ShiftedResidue(i: nat, stride: nat)
    requires stride >= 1
    ensures (i + stride) % stride == i % stride
  {
    var q, r := i / stride, i % stride;
    assert i + stride == stride * (q + 1) + r;
    DivModUnique(i + stride, stride, q + 1, r);
  }

  lemma DivModUnique(x: nat, d: nat, q: nat, r: nat)
    requires d >= 1 && x == d * q + r && r < d
    ensures x / d == q && x % d == r
  {
    var q', r' := x / d, x % d;
    assert x == d * q' + r';
    if q' < q {
      MulGap(d, q', q);
    } else if q' > q {
      MulGap(d, q, q');
    }
  }

  /** `x` is one of the first `m` indices `t, t + d, t + 2d, ...`. */
  predicate InStride(x: int, t: nat, d: nat, m: nat)
    requires d >= 1
  {
    t <= x && (x - t) % d == 0 && (x - t) / d < m
  }

  /** One more step of the stride adds exactly the index `t + d*m`. */
  lemma InStrideStep(x: int, t: nat, d: nat, m: nat)
    requires d >= 1
    ensures InStride(x, t, d, m + 1) <==> InStride(x, t, d, m) || x == t + d * m
  {
    if x == t + d * m {
      DivModUnique(x - t, d, m, 0);
    } else if t <= x && (x - t) % d == 0 {
      assert x - t == d * ((x - t) / d);
    }
  }

  /** When the stride from `t < d` stops after `m` steps because it reached
      `count`, its indices are exactly those below `count` in the residue
      class of `t`. */
  lemma StrideMembership(x: nat, t: nat, d: nat, m: nat, count: nat)
    requires d >= 1 && t < d && count <= t + d * m
    requires m == 0 || t + d * (m - 1) < count
    ensures x < count ==> (InStride(x, t, d, m) <==> x % d == t)
    ensures InStride(x, t, d, m) ==> x < count
  {
    if InStride(x, t, d, m) {
      StrideIndexBelowCount(x, t, d, m - 1, count);
    }
    if x < count && x % d == t {
      ResidueIndexInStride(x, t, d, m, count);
    }
  }

  /** An index of the first `p + 1` steps lies in the residue class of `t`
      and is at most the last one, `t + d*p`. */
  lemma StrideIndexBelowCount(x: nat, t: nat, d: nat, p: nat, count: nat)
    requires d >= 1 && t < d && t + d * p < count
    requires InStride(x, t, d, p + 1)
    ensures x < count && x % d == t
  {
    var q := (x - t) / d;
    assert x - t == d * q + (x - t) % d;
    assert x == d * q + t;
    DivModUnique(x, d, q, t);
    if q < p {
      MulGap(d, q, p);
    }
  }

  /** An index below `count <= t + d*m` in the residue class of `t` is one
      of the first `m` steps. */
  lemma ResidueIndexInStride(x: nat, t: nat, d: nat, m: nat, count: nat)
    requires d >= 1 && t < d && x < count <= t + d * m && x % d == t
    ensures InStride(x, t, d, m)
  {
    var q := x / d;
    assert x == d * q + t;
    DivModUnique(x - t, d, q, 0);
    if q > m {
      MulGap(d, m, q);
    }
  }

  /** d * a + d <= d * b whenever a < b. */
  lemma MulGap(d: nat, a: nat, b: nat)
    requires a < b
    ensures d * a + d <= d * b
  {
    var c := b - a - 1;
    assert d * b == d * (a + 1 + c) == d * a + d + d * c;
  }

  /** Every index has exactly one owning thread among the first `stride`
      global threads: the one equal to the index modulo the stride. */
  lemma OneOwnerPerIndex(stride: nat, n: nat, g: nat)
    requires stride >= 1 && g < stride
    ensures (g <= n && n % stride == g % stride) <==> g == n % stride
  {
  }

  /** The per-thread values of all `stride` global threads over work [0, n). */
  function Partials(op: Reducer, f: nat -> int, stride: nat, n: nat): (r: seq<int>)
    requires stride >= 1
    ensures |r| == stride
  {
    seq(stride, g requires 0 <= g < stride => StridedFold(op, f, Init(op), g, stride, n))
  }

  /** The strided partition is a full reduction: joining every thread's
      value gives the sequential fold over [0, n) from the initial value. */
  lemma {:induction false} PartialsJoinToFold(op: Reducer, f: nat -> int, stride: nat, n: nat)
    requires stride >= 1
    ensures JoinAll(op, Partials(op, f, stride, n)) == Fold(op, f, n)
  {
    if n == 0 {
      JoinAllInit(op, Partials(op, f, stride, 0));
    } else {
      var m := n - 1;
      var p := Partials(op, f, stride, m);
      var k := m % stride;
      forall g | 0 <= g < stride
        ensures Partials(op, f, stride, n)[g] == p[k := Join(op, p[k], f(m))][g]
      {
        StridedFoldStep(op, f, Init(op), g, stride, m);
        OneOwnerPerIndex(stride, m, g);
      }
      assert Partials(op, f, stride, n) == p[k := Join(op, p[k], f(m))];
      JoinAllUpdate(op, p, k, f(m));
      PartialsJoinToFold(op, f, stride, m);
    }
  }
}
