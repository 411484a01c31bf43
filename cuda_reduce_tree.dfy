// The halving tree reduction of reduce_shared_on_cuda over the shared slot
// array of one thread block.  Each pass of the `j >>= 1` loop is one
// barrier-separated level in which every thread below `j` joins the slot
// `j` places above it into its own; the levels run here in sequence.
module CudaReduceTree {
  import opened CudaReduceAlgebra

  /** A positive power of two. */
  predicate IsPow2(n: nat)
  {
    n == 1 || (n >= 2 && n % 2 == 0 && IsPow2(n / 2))
  }

  /** One level at distance `h`: slot i < h becomes join(slot i, slot i+h),
      every other slot keeps its value.  Slots read (i + h >= h) are never
      slots written in the same level, so the threads' simultaneous updates
      and this sequential description agree. */
  function Level(op: Reducer, s: seq<int>, h: nat): (r: seq<int>)
    requires h + h <= |s|
    ensures |r| == |s|
  {
    seq(|s|, i requires 0 <= i < |s| => if i < h then Join(op, s[i], s[i + h]) else s[i])
  }

  /** The levels the loop performs starting from `j`: halve `j`, apply the
      level at the new `j`, stop once `j` is zero. */
  function Tree(op: Reducer, s: seq<int>, j: nat): (r: seq<int>)
    requires j <= |s|
    ensures |r| == |s|
    decreases j
  {
    if j == 0 then s else Tree(op, Level(op, s, j / 2), j / 2)
  }

  /** For a power-of-two block, slot 0 ends up holding the join of all the
      block's original slots. */
  lemma {:induction false} TreeReducesToSlotZero(op: Reducer, s: seq<int>, j: nat)
    requires IsPow2(j) && j <= |s|
    ensures Tree(op, s, j)[0] == JoinAll(op, s[..j])
    decreases j
  {
    var h := j / 2;
    if j == 1 {
      assert Level(op, s, 0) == s;
      assert Tree(op, s, 1) == s;
      assert s[..1] == [s[0]];
    } else {
      var t := Level(op, s, h);
      assert Tree(op, s, j) == Tree(op, t, h);
      TreeReducesToSlotZero(op, t, h);
      LevelPreservesJoin(op, s, h);
    }
  }

  /** The first half of a level at distance h, over 2h slots, joins to the
      join of those 2h slots. */
  lemma LevelPreservesJoin(op: Reducer, s: seq<int>, h: nat)
    requires 1 <= h && h + h <= |s|
    ensures JoinAll(op, Level(op, s, h)[..h]) == JoinAll(op, s[..h + h])
  {
    var x, y := s[..h], s[h..h + h];
    assert Level(op, s, h)[..h] == Pairwise(op, x, y);
    JoinAllPairwise(op, x, y);
    assert x + y == s[..h + h];
    JoinAllAppend(op, x, y);
  }

  /** A sequence that agrees slot by slot with a level is that level. */
  lemma LevelIsPointwise(op: Reducer, before: seq<int>, after: seq<int>, h: nat)
    requires h + h <= |before| && |after| == |before|
    requires forall i :: 0 <= i < h ==> after[i] == Join(op, before[i], before[i + h])
    requires forall i :: h <= i < |before| ==> after[i] == before[i]
    ensures after == Level(op, before, h)
  {
  }

  /** Without a power of two the tree loses slots: with three slots the
      level at distance 1 is the last one and slot 2 is never joined. */
  lemma ThreeSlotsDropTheLast()
    ensures Tree(Sum, [1, 2, 4], 3)[0] == 3
    ensures JoinAll(Sum, [1, 2, 4]) == 7
  {
    assert Level(Sum, [1, 2, 4], 1) == [3, 2, 4];
    assert Level(Sum, [3, 2, 4], 0) == [3, 2, 4];
    assert Tree(Sum, [3, 2, 4], 1) == [3, 2, 4];
    assert [1, 2, 4][..2] == [1, 2];
  }

  /** One level of the loop body over the shared array: the threads below
      `h` join slot i + h into slot i. */
  method JoinLevel(op: Reducer, a: array<int>, h: nat)
    requires h + h <= a.Length
    modifies a
    ensures forall i :: 0 <= i < h ==> a[i] == Join(op, old(a[i]), old(a[i + h]))
    ensures forall i :: h <= i < a.Length ==> a[i] == old(a[i])
  {
    for i := 0 to h
      invariant forall k :: 0 <= k < i ==> a[k] == Join(op, old(a[k]), old(a[k + h]))
      invariant forall k :: i <= k < a.Length ==> a[k] == old(a[k])
    {
      a[i] := Join(op, a[i], a[i + h]);
    }
  }

  /** reduce_shared_on_cuda for a block of `a.Length` threads, one slot per
      thread. */
  method ReduceShared(op: Reducer, a: array<int>)
    modifies a
    ensures a[..] == Tree(op, old(a[..]), a.Length)
    ensures IsPow2(a.Length) ==> a[0] == JoinAll(op, old(a[..]))
  {
    var j: nat := a.Length;
    while j != 0
      invariant j <= a.Length
      invariant Tree(op, a[..], j) == Tree(op, old(a[..]), a.Length)
      decreases j
    {
      ghost var before := a[..];
      j := j / 2;
      JoinLevel(op, a, j);
      LevelIsPointwise(op, before, a[..], j);
    }
    if IsPow2(a.Length) {
      TreeReducesToSlotZero(op, old(a[..]), a.Length);
      assert old(a[..])[..a.Length] == old(a[..]);
    }
  }
}
