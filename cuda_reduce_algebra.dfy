// The value algebra of the reduction: the join operator the user supplies,
// the functor's per-index fold step, the sequential reference result, and
// the join of a sequence of slot values.  The source requires `join` to be
// associative and commutative; the model fixes it to integer addition or
// integer maximum, where both hold exactly.
module CudaReduceAlgebra {

  /** The reduction operators of the model.  `Sum` folds with integer
      addition and initialises a slot to 0; `Max(init)` folds with the
      maximum and initialises a slot to `init` (a lower sentinel). */
  datatype Reducer = Sum | Max(init: int)

  /** FunctorType::init: the value every thread puts in its slot first. */
  function Init(op: Reducer): int
  {
    match op
    case Sum => 0
    case Max(v) => v
  }

  /** FunctorType::join(update, input). */
  function Join(op: Reducer, a: int, b: int): int
  {
    match op
    case Sum => a + b
    case Max(_) => if a >= b then a else b
  }

  /** The functor call `functor(iwork, value)`: folds the contribution of
      index `i` into the running value. */
  function Accumulate(op: Reducer, f: nat -> int, i: nat, v: int): int
  {
    Join(op, v, f(i))
  }

  /** Associativity, commutativity, and idempotence of the initial value:
      every thread initialises its own slot, so the initial value is joined
      once per thread and must absorb itself. */
  lemma JoinLaws(op: Reducer, a: int, b: int, c: int)
    ensures Join(op, Join(op, a, b), c) == Join(op, a, Join(op, b, c))
    ensures Join(op, a, b) == Join(op, b, a)
    ensures Join(op, Init(op), Init(op)) == Init(op)
  {
  }

  /** The sequential reference: the functor folded over [0, n) in index
      order, starting from the initial value. */
  function Fold(op: Reducer, f: nat -> int, n: nat): int
  {
    if n == 0 then Init(op) else Accumulate(op, f, n - 1, Fold(op, f, n - 1))
  }

  /** The join of a nonempty sequence of slot values, left to right. */
  function JoinAll(op: Reducer, s: seq<int>): int
    requires |s| >= 1
  {
    if |s| == 1 then s[0] else Join(op, JoinAll(op, s[..|s| - 1]), s[|s| - 1])
  }

  /** Element-wise join of two equally long sequences. */
  function Pairwise(op: Reducer, x: seq<int>, y: seq<int>): (r: seq<int>)
    requires |x| == |y|
    ensures |r| == |x|
  {
    seq(|x|, i requires 0 <= i < |x| => Join(op, x[i], y[i]))
  }

  /** Splitting a sequence anywhere splits its join. */
  lemma {:induction false} JoinAllAppend(op: Reducer, x: seq<int>, y: seq<int>)
    requires |x| >= 1 && |y| >= 1
    ensures JoinAll(op, x + y) == Join(op, JoinAll(op, x), JoinAll(op, y))
    decreases |y|
  {
    var xy := x + y;
    if |y| == 1 {
      assert xy[..|xy| - 1] == x;
    } else {
      var y' := y[..|y| - 1];
      assert xy[..|xy| - 1] == x + y';
      JoinAllAppend(op, x, y');
      JoinLaws(op, JoinAll(op, x), JoinAll(op, y'), y[|y| - 1]);
    }
  }

  /** Joining `x` into one entry joins it into the whole. */
  lemma {:induction false} JoinAllUpdate(op: Reducer, s: seq<int>, k: nat, x: int)
    requires k < |s|
    ensures JoinAll(op, s[k := Join(op, s[k], x)]) == Join(op, JoinAll(op, s), x)
    decreases |s|
  {
    var s' := s[k := Join(op, s[k], x)];
    var n := |s|;
    if n == 1 {
    } else if k == n - 1 {
      assert s'[..n - 1] == s[..n - 1];
      JoinLaws(op, JoinAll(op, s[..n - 1]), s[n - 1], x);
    } else {
      var p := s[..n - 1];
      assert s'[..n - 1] == p[k := Join(op, p[k], x)];
      JoinAllUpdate(op, p, k, x);
      JoinLaws(op, JoinAll(op, p), x, s[n - 1]);
      JoinLaws(op, JoinAll(op, p), s[n - 1], x);
    }
  }

  /** The join of element-wise joins is the join of the two joins. */
  lemma {:induction false} JoinAllPairwise(op: Reducer, x: seq<int>, y: seq<int>)
    requires |x| == |y| >= 1
    ensures JoinAll(op, Pairwise(op, x, y)) == Join(op, JoinAll(op, x), JoinAll(op, y))
    decreases |x|
  {
    var n := |x|;
    if n > 1 {
      var x', y' := x[..n - 1], y[..n - 1];
      assert Pairwise(op, x, y)[..n - 1] == Pairwise(op, x', y');
      JoinAllPairwise(op, x', y');
      var a, b := JoinAll(op, x'), JoinAll(op, y');
      JoinLaws(op, a, b, Join(op, x[n - 1], y[n - 1]));
      JoinLaws(op, b, x[n - 1], y[n - 1]);
      JoinLaws(op, x[n - 1], b, y[n - 1]);
      JoinLaws(op, a, x[n - 1], Join(op, b, y[n - 1]));
    }
  }

  /** Slots that all hold the initial value join to the initial value. */
  lemma {:induction false} JoinAllInit(op: Reducer, s: seq<int>)
    requires |s| >= 1
    requires forall i :: 0 <= i < |s| ==> s[i] == Init(op)
    ensures JoinAll(op, s) == Init(op)
    decreases |s|
  {
    if |s| > 1 {
      JoinAllInit(op, s[..|s| - 1]);
      JoinLaws(op, Init(op), Init(op), Init(op));
    }
  }

  /** With addition and the identity functor the reduction is the
      triangular number n(n-1)/2 (for n = 1000: 499500). */
  lemma {:induction false} FoldSumOfIndices(n: nat)
    ensures Fold(Sum, (i: nat) => i as int, n) == n * (n - 1) / 2
  {
    if n > 0 {
      FoldSumOfIndices(n - 1);
    }
  }

  /** With the maximum the reduction is the largest of the initial value and
      the contributions: an upper bound of all of them that is one of them. */
  lemma {:induction false} FoldMaxIsMaximum(v: int, f: nat -> int, n: nat)
    ensures Fold(Max(v), f, n) >= v
    ensures forall i: nat :: i < n ==> Fold(Max(v), f, n) >= f(i)
    ensures Fold(Max(v), f, n) == v || exists i: nat :: i < n && Fold(Max(v), f, n) == f(i)
  {
    if n > 0 {
      FoldMaxIsMaximum(v, f, n - 1);
    }
  }

  /** A prefix followed by the next slice is the longer prefix. */
  lemma PrefixExtend(s: seq<int>, lo: nat, hi: nat)
    requires lo <= hi <= |s|
    ensures s[..lo] + s[lo..hi] == s[..hi]
  {
  }

  /** Joining one more value: if `staged` without its last entry joins like
      `x`, and its last entry is the join of `block`, then `staged` joins
      like `x + block` (an empty `x` goes with a one-entry `staged`). */
  lemma JoinAllSnoc(op: Reducer, staged: seq<int>, x: seq<int>, block: seq<int>, whole: seq<int>)
    requires |staged| >= 1 && |block| >= 1 && x + block == whole
    requires |staged| == 1 <==> |x| == 0
    requires staged[|staged| - 1] == JoinAll(op, block)
    requires |staged| >= 2 ==> JoinAll(op, staged[..|staged| - 1]) == JoinAll(op, x)
    ensures JoinAll(op, staged) == JoinAll(op, whole)
  {
    if |x| == 0 {
      assert whole == block;
    } else {
      JoinAllAppend(op, x, block);
    }
  }

  /** The last step of joining chunk by chunk: the joins `v` of the chunks
      before `lo` join like `all[..lo]`, the last one is the join of the
      final chunk, so all of `v` joins like all of `all`. */
  lemma JoinAllLastChunk(op: Reducer, v: seq<int>, all: seq<int>, lo: nat, d: nat)
    requires |v| >= 2 && 1 <= lo && 1 <= d && lo + d == |all|
    requires v[|v| - 1] == JoinAll(op, all[lo .. lo + d])
    requires JoinAll(op, v[..|v| - 1]) == JoinAll(op, all[..lo])
    ensures JoinAll(op, v) == JoinAll(op, all)
  {
    PrefixExtend(all, lo, lo + d);
    assert all[..lo + d] == all;
    JoinAllSnoc(op, v, all[..lo], all[lo .. lo + d], all);
  }
  /** Why the model fixes the initial value of `Sum` to 0: every one of the
      `n` slots is initialised, so an initial value `c` that does not absorb
      itself is counted once per slot.  With no work the slots join to
      `n * c`, not the `c` a sequential fold would return. */
  lemma {:induction false} SumInitCountedPerSlot(n: nat, c: int)
    requires n >= 1
    ensures JoinAll(Sum, seq(n, _ => c)) == n * c
    ensures n >= 2 && c != 0 ==> JoinAll(Sum, seq(n, _ => c)) != c
    decreases n
  {
    if n > 1 {
      assert seq(n, _ => c)[..n - 1] == seq(n - 1, _ => c);
      SumInitCountedPerSlot(n - 1, c);
    }
    if n >= 2 && c != 0 {
      assert n * c - c == (n - 1) * c;
      assert (n - 1) * c != 0;
    }
  }
}
