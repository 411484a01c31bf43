// The local sub-view bookkeeping of Thyra's SpmdVectorBase: the layout
// fields copied from the vector space, range validation, the decision
// whether a detached view can be served from local data, and the range and
// reentrancy flag logic of applyOpImplWithComm.  The default VectorBase
// implementations, the communicator and the RTOp machinery are external:
// a call into them is an outcome or an event of the model.
module ThyraSpmdVectorBase {

  /** Teuchos::Range1D: a full-range marker, the `Invalid` range, or an
      inclusive index range [lbound, ubound]. */
  datatype Range1D = Full | Invalid | Range(lbound: int, ubound: int)
  {
    /** Range1D::size() of an explicit range. */
    function Size(): int
      requires Range?
    {
      ubound - lbound + 1
    }

    /** The class invariant Teuchos checks when debugging is enabled: an
        explicit range is not inverted (it may be empty). */
    predicate WellFormed()
    {
      Range? ==> lbound <= ubound + 1
    }
  }

  /** Teuchos::full_range: a full range becomes [lbound, ubound], any other
      range is returned as it is. */
  function FullRange(rng: Range1D, lbound: int, ubound: int): Range1D
  {
    if rng.Full? then Range(lbound, ubound) else rng
  }

  /** The exceptions thrown by the modelled code. */
  datatype Error = InvalidArgument | LogicError

  datatype Option<T> = None | Some(value: T)

  datatype Result<T> = Ok(value: T) | Err(error: Error)

  /** RTOpPack::(Const)SubVectorView: global offset, length, and the local
      data it points into, as a start index (None for a null pointer). */
  datatype SubVectorView = SubVectorView(globalOffset: int, subDim: int, values: Option<int>)

  /** The default-constructed (and the uninitialized) view. */
  const NullView: SubVectorView := SubVectorView(0, 0, None)

  /** What an SpmdVectorSpaceBase reports: dim(), localOffset(),
      localSubDim(). */
  datatype SpmdSpace = SpmdSpace(dim: int, localOffset: int, localSubDim: int)

  /** How an acquire*DetachedVectorViewImpl call ends: a view filled in by
      this class, a call of the default implementation with the caller's
      range, or an exception. */
  datatype AcquireOutcome = Acquired(view: SubVectorView) | AcquireDelegated(rng: Range1D) | AcquireFailed(error: Error)

  /** How a release/commit call ends: the view uninitialized by this class,
      a call of the default implementation, or an exception. */
  datatype ReleaseOutcome = Released(view: SubVectorView) | ReleaseDelegated | ReleaseFailed(error: Error)

  /** The outputs of RTOp_parallel_calc_overlap, which is not part of this
      model. */
  datatype Overlap = Overlap(firstLocalEleOff: int, localSubDim: int, globalOff: int)

  /** The externally visible steps of applyOpImplWithComm.  `targ` marks a
      target vector (acquired non-const, committed instead of released). */
  datatype ApplyEvent =
    | AcquireVec(targ: bool, k: nat, rng: Range1D, globalOffset: int)
    | ApplyOp(withComm: bool, flagSet: bool)
    | ReleaseVec(targ: bool, k: nat, globalOffset: int)

  /** The overlap applyOpImplWithComm works with: calc_overlap's result when
      the process owns local elements, all zeros otherwise. */
  function EffectiveOverlap(localSubDim: int, computed: Overlap): Overlap
  {
    if localSubDim != 0 then computed else Overlap(0, 0, 0)
  }

  /** The local range handed to every vector's acquire. */
  function LocalRange(localOffset: int, ov: Overlap): (r: Range1D)
    ensures ov.firstLocalEleOff >= 0 ==>
              r.Range? && r.lbound == localOffset + ov.firstLocalEleOff && r.Size() == ov.localSubDim
    ensures ov.firstLocalEleOff < 0 ==> r.Invalid?
  {
    if ov.firstLocalEleOff >= 0
    then Range(localOffset + ov.firstLocalEleOff,
               localOffset + ov.firstLocalEleOff + ov.localSubDim - 1)
    else Invalid
  }

  /** The locallyReplicated decision: no communicator passed in and the
      process holds the whole vector. */
  predicate LocallyReplicated(commInIsNull: bool, localSubDim: int, globalDim: int)
  {
    commInIsNull && localSubDim == globalDim
  }

  /** The acquire calls on one vector list, in vector order. */
  function AcquireEvents(targ: bool, count: nat, rng: Range1D, globalOff: int): (r: seq<ApplyEvent>)
    ensures |r| == count
  {
    seq(count, k requires 0 <= k < count => AcquireVec(targ, k, rng, globalOff))
  }

  /** The release (or commit) calls on one vector list, in vector order. */
  function ReleaseEvents(targ: bool, count: nat, globalOffset: int): (r: seq<ApplyEvent>)
    ensures |r| == count
  {
    seq(count, k requires 0 <= k < count => ReleaseVec(targ, k, globalOffset))
  }

  /** The calls of one applyOpImplWithComm call that is not rejected and in
      which no call throws: when the overlap is local, acquire every vector
      and then every target vector on the local range, and move their views
      to the overlap's global offset; apply the operator once, with the flag
      set, and without communicator when locally replicated; then move the
      views back to the range's lower bound and release every vector and
      commit every target vector. */
  function ApplyTrace(commInIsNull: bool, ov: Overlap, numVecs: nat, numTargVecs: nat,
                      globalDim: int, localOffset: int, localSubDim: int): (r: seq<ApplyEvent>)
    ensures var a := if ov.firstLocalEleOff >= 0 then numVecs + numTargVecs else 0;
            |r| == 2 * a + 1 && r[a] == ApplyOp(!LocallyReplicated(commInIsNull, localSubDim, globalDim), true)
    ensures forall i :: 0 <= i < |r| ==> (r[i].ApplyOp? <==> i == |r| / 2)
    ensures ov.firstLocalEleOff < 0 ==> r == [ApplyOp(!LocallyReplicated(commInIsNull, localSubDim, globalDim), true)]
    ensures ov.firstLocalEleOff >= 0 ==>
              var rng, a := LocalRange(localOffset, ov), numVecs + numTargVecs;
              r[..numVecs] == AcquireEvents(false, numVecs, rng, ov.globalOff)
              && r[numVecs..a] == AcquireEvents(true, numTargVecs, rng, ov.globalOff)
              && r[a + 1..a + 1 + numVecs] == ReleaseEvents(false, numVecs, localOffset + ov.firstLocalEleOff)
              && r[a + 1 + numVecs..] == ReleaseEvents(true, numTargVecs, localOffset + ov.firstLocalEleOff)
  {
    var rng := LocalRange(localOffset, ov);
    var op := ApplyOp(!LocallyReplicated(commInIsNull, localSubDim, globalDim), true);
    if ov.firstLocalEleOff >= 0 then
      var acq, acqTarg := AcquireEvents(false, numVecs, rng, ov.globalOff), AcquireEvents(true, numTargVecs, rng, ov.globalOff);
      var rel, com := ReleaseEvents(false, numVecs, rng.lbound), ReleaseEvents(true, numTargVecs, rng.lbound);
      var r := acq + acqTarg + [op] + rel + com;
      assert r[..numVecs] == acq;
      assert r[numVecs..numVecs + numTargVecs] == acqTarg;
      assert r[numVecs + numTargVecs + 1..numVecs + numTargVecs + 1 + numVecs] == rel;
      assert r[numVecs + numTargVecs + 1 + numVecs..] == com;
      r
    else
      [op]
  }

  /** How an applyOpImplWithComm call ends: it returns normally after the
      given calls, it is rejected before any call, or the last of the given
      calls throws and the exception propagates. */
  datatype ApplyOutcome = Completed(events: seq<ApplyEvent>) | Rejected(error: Error) | Aborted(events: seq<ApplyEvent>)

  /** The outcome of the calls of one applyOpImplWithComm when the call at
      position `throwsAt`, if any, throws. */
  function ApplyCallsOutcome(trace: seq<ApplyEvent>, throwsAt: Option<nat>): ApplyOutcome
  {
    if throwsAt.Some? && throwsAt.value < |trace| then Aborted(trace[..throwsAt.value + 1]) else Completed(trace)
  }

  class SpmdVectorBase {
    var inApplyOpImpl: bool
    var globalDim: int
    var localOffset: int
    var localSubDim: int

    /** The default constructor: not in applyOp, no layout yet. */
    constructor ()
      ensures !inApplyOpImpl && globalDim == 0 && localOffset == -1 && localSubDim == 0
    {
      inApplyOpImpl := false;
      globalDim := 0;
      localOffset := -1;
      localSubDim := 0;
    }

    /** updateSpmdSpace: the layout is taken from the space (or reset when
        there is none) only while `globalDim` is still zero. */
    method UpdateSpmdSpace(space: Option<SpmdSpace>)
      modifies this
      ensures old(globalDim) == 0 && space.Some? ==>
                globalDim == space.value.dim && localOffset == space.value.localOffset
                && localSubDim == space.value.localSubDim
      ensures old(globalDim) == 0 && space.None? ==>
                globalDim == 0 && localOffset == -1 && localSubDim == 0
      ensures old(globalDim) != 0 ==>
                globalDim == old(globalDim) && localOffset == old(localOffset)
                && localSubDim == old(localSubDim)
      ensures inApplyOpImpl == old(inApplyOpImpl)
    {
      if globalDim == 0 {
        if space.Some? {
          globalDim := space.value.dim;
          localOffset := space.value.localOffset;
          localSubDim := space.value.localSubDim;
        } else {
          globalDim := 0;
          localOffset := -1;
          localSubDim := 0;
        }
      }
    }

    /** validateRange: a full range means [0, globalDim - 1]; with debug
        checks on, a range outside [0, globalDim) is an invalid_argument.
        Both callers have ruled out the Invalid range before calling. */
    function ValidateRange(rngIn: Range1D, debug: bool): (r: Result<Range1D>)
      reads this
      requires !rngIn.Invalid?
      ensures r.Ok? ==> r.value == FullRange(rngIn, 0, globalDim - 1) && r.value.Range?
      ensures debug && r.Ok? ==> 0 <= r.value.lbound && r.value.ubound < globalDim
      ensures r.Err? ==> debug && r.error == InvalidArgument
      ensures (!debug || (var v := FullRange(rngIn, 0, globalDim - 1);
                          0 <= v.lbound && v.ubound < globalDim)) ==> r.Ok?
    {
      var rng := FullRange(rngIn, 0, globalDim - 1);
      if debug && !(0 <= rng.lbound && rng.ubound < globalDim) then Err(InvalidArgument) else Ok(rng)
    }

    /** acquireDetachedVectorViewImpl, and acquireNonconstDetachedVectorViewImpl,
        which takes the same branches: an Invalid range gives a null view; a
        validated range inside the local elements [localOffset,
        localOffset + localSubDim - 1] gives a view of that window of the
        local data; any other range goes to the default implementation. */
    function AcquireView(rngIn: Range1D, debug: bool): (r: AcquireOutcome)
      reads this
      ensures rngIn.Invalid? ==> r == Acquired(NullView)
      ensures r.Acquired? && r.view.values.Some? ==>
                var v := r.view;
                0 <= v.values.value && v.values.value + v.subDim <= localSubDim
                && v.globalOffset == localOffset + v.values.value
      ensures r.AcquireDelegated? ==> r.rng == rngIn
      ensures r.AcquireFailed? ==> debug && r.error == InvalidArgument
      ensures !rngIn.Invalid? && ValidateRange(rngIn, debug).Ok? ==>
                var rng := ValidateRange(rngIn, debug).value;
                (localOffset <= rng.lbound && rng.ubound <= localOffset + localSubDim - 1
                 <==> r == Acquired(SubVectorView(rng.lbound, rng.Size(), Some(rng.lbound - localOffset))))
      ensures !rngIn.Invalid? && ValidateRange(rngIn, debug).Ok? ==>
                var rng := ValidateRange(rngIn, debug).value;
                (rng.lbound < localOffset || localOffset + localSubDim - 1 < rng.ubound
                 <==> r == AcquireDelegated(rngIn))
      ensures !rngIn.Invalid? && ValidateRange(rngIn, debug).Err? ==> r == AcquireFailed(InvalidArgument)
      ensures rngIn.WellFormed() && 0 <= globalDim && r.Acquired? && r.view.values.Some? ==>
                0 <= r.view.subDim && r.view.values.value <= localSubDim
    {
      if rngIn.Invalid? then Acquired(NullView)
      else
        match ValidateRange(rngIn, debug)
        case Err(e) => AcquireFailed(e)
        case Ok(rng) =>
          if rng.lbound < localOffset || localOffset + localSubDim - 1 < rng.ubound
          then AcquireDelegated(rngIn)
          else Acquired(SubVectorView(rng.lbound, rng.Size(), Some(rng.lbound - localOffset)))
    }

    /** releaseDetachedVectorViewImpl, and commitNonconstDetachedVectorViewImpl,
        which takes the same branches: with debug checks on, a view not
        inside [0, globalDim) is a logic_error; a view inside the local
        elements (tested with the exclusive end) is only uninitialized; any
        other view goes to the default implementation. */
    function ReleaseView(view: SubVectorView, debug: bool): (r: ReleaseOutcome)
      reads this
      ensures r.Released? ==> r.view == NullView
      ensures r.Released? <==>
                !(debug && (view.globalOffset < 0 || view.globalOffset + view.subDim > globalDim))
                && localOffset <= view.globalOffset
                && view.globalOffset + view.subDim <= localOffset + localSubDim
      ensures r.ReleaseFailed? <==>
                debug && (view.globalOffset < 0 || view.globalOffset + view.subDim > globalDim)
      ensures r.ReleaseFailed? ==> r.error == LogicError
    {
      if debug && (view.globalOffset < 0 || view.globalOffset + view.subDim > globalDim) then
        ReleaseFailed(LogicError)
      else if view.globalOffset < localOffset || localOffset + localSubDim < view.globalOffset + view.subDim then
        ReleaseDelegated
      else
        Released(NullView)
    }

    /** A view handed out by acquire's local branch is always taken back by
        release's (commit's) local branch: acquire tests the inclusive upper
        bound, release the exclusive end, and the two tests agree. */
    lemma AcquireReleaseRoundTrip(rngIn: Range1D, debug: bool)
      requires AcquireView(rngIn, debug).Acquired?
      requires AcquireView(rngIn, debug).view.values.Some?
      ensures ReleaseView(AcquireView(rngIn, debug).view, debug) == Released(NullView)
    {
      var rng := ValidateRange(rngIn, debug).value;
      assert AcquireView(rngIn, debug).view.globalOffset + AcquireView(rngIn, debug).view.subDim
          == rng.ubound + 1;
    }

    /** When the overlap lies within the local elements of a consistently
        laid out vector, the local range of applyOpImplWithComm is served by
        this vector's own local branch, with the overlap's window of local
        data, and (the global offset reset to the range's lower bound, as
        applyOpImplWithComm does) released locally again. */
    lemma LocalRangeStaysLocal(ov: Overlap, debug: bool)
      requires 0 <= localOffset && localOffset + localSubDim <= globalDim
      requires 0 <= ov.firstLocalEleOff && 0 <= ov.localSubDim
      requires ov.firstLocalEleOff + ov.localSubDim <= localSubDim
      ensures AcquireView(LocalRange(localOffset, ov), debug)
              == Acquired(SubVectorView(localOffset + ov.firstLocalEleOff, ov.localSubDim,
                                        Some(ov.firstLocalEleOff)))
      ensures ReleaseView(SubVectorView(LocalRange(localOffset, ov).lbound, ov.localSubDim,
                                        Some(ov.firstLocalEleOff)), debug) == Released(NullView)
    {
    }

    /** An inverted range passes validateRange and acquire's local test: with
        local elements [0, 2] of 10, Range(5, 0) gets a view starting at local
        element 5, past the local data, with a negative length. */
    lemma InvertedRangeServedLocally()
      requires globalDim == 10 && localOffset == 0 && localSubDim == 3
      ensures !Range(5, 0).WellFormed()
      ensures AcquireView(Range(5, 0), false) == Acquired(SubVectorView(5, -4, Some(5)))
    {
    }

    /** applyOpImplWithComm.  `commInIsNull` says whether a communicator was
        passed in; `computed` is what RTOp_parallel_calc_overlap would
        return; `throwsAt`, when present, is the position among the calls
        to other objects (acquire, SPMD_apply_op, release, commit) of the
        first one that throws.  With debug checks on, a reentrant call is
        rejected with invalid_argument and changes nothing.  Otherwise the
        flag is set before the calls and cleared only after the last one
        returns: a call that throws leaves the flag set.  The layout never
        changes. */
    method ApplyOpImplWithComm(commInIsNull: bool, computed: Overlap, numVecs: nat,
                               numTargVecs: nat, debug: bool, throwsAt: Option<nat>)
      returns (r: ApplyOutcome)
      modifies this
      ensures globalDim == old(globalDim) && localOffset == old(localOffset)
              && localSubDim == old(localSubDim)
      ensures debug && old(inApplyOpImpl) ==> r == Rejected(InvalidArgument) && inApplyOpImpl
      ensures !(debug && old(inApplyOpImpl)) ==>
                r == ApplyCallsOutcome(ApplyTrace(commInIsNull, EffectiveOverlap(localSubDim, computed),
                                                  numVecs, numTargVecs, globalDim, localOffset, localSubDim),
                                       throwsAt)
                && (inApplyOpImpl <==> r.Aborted?)
    {
      if debug && inApplyOpImpl {
        return Rejected(InvalidArgument);
      }
      inApplyOpImpl := true;
      r := ApplyCalls(commInIsNull, computed, numVecs, numTargVecs, throwsAt);
      if r.Completed? {
        inApplyOpImpl := false;
      }
    }

    /** applyOpImplWithComm with the flag cleared on every exit, normal or
        by exception, as a scope guard would: after a call that is not
        rejected the flag is always clear. */
    method ApplyOpImplWithCommGuarded(commInIsNull: bool, computed: Overlap, numVecs: nat,
                                      numTargVecs: nat, debug: bool, throwsAt: Option<nat>)
      returns (r: ApplyOutcome)
      modifies this
      ensures globalDim == old(globalDim) && localOffset == old(localOffset)
              && localSubDim == old(localSubDim)
      ensures debug && old(inApplyOpImpl) ==> r == Rejected(InvalidArgument) && inApplyOpImpl
      ensures !(debug && old(inApplyOpImpl)) ==>
                r == ApplyCallsOutcome(ApplyTrace(commInIsNull, EffectiveOverlap(localSubDim, computed),
                                                  numVecs, numTargVecs, globalDim, localOffset, localSubDim),
                                       throwsAt)
                && !inApplyOpImpl
    {
      if debug && inApplyOpImpl {
        return Rejected(InvalidArgument);
      }
      inApplyOpImpl := true;
      r := ApplyCalls(commInIsNull, computed, numVecs, numTargVecs, throwsAt);
      inApplyOpImpl := false;
    }

    /** The calls applyOpImplWithComm makes once the flag is set, up to the
        first one that throws. */
    method ApplyCalls(commInIsNull: bool, computed: Overlap, numVecs: nat, numTargVecs: nat,
                      throwsAt: Option<nat>)
      returns (r: ApplyOutcome)
      requires inApplyOpImpl
      ensures r == ApplyCallsOutcome(ApplyTrace(commInIsNull, EffectiveOverlap(localSubDim, computed),
                                                numVecs, numTargVecs, globalDim, localOffset, localSubDim),
                                     throwsAt)
    {
      var locallyReplicated := LocallyReplicated(commInIsNull, localSubDim, globalDim);
      var ov := EffectiveOverlap(localSubDim, computed);
      var localRng := LocalRange(localOffset, ov);
      ghost var full := ApplyTrace(commInIsNull, ov, numVecs, numTargVecs, globalDim, localOffset, localSubDim);
      var trace: seq<ApplyEvent> := [];
      var thrown := false;
      var a := numVecs + numTargVecs;
      if ov.firstLocalEleOff >= 0 {
        trace, thrown := AcquireAll(numVecs, numTargVecs, localRng, ov.globalOff, throwsAt, full);
        if thrown {
          return Aborted(trace);
        }
      }
      trace, thrown := Call(trace, ApplyOp(!locallyReplicated, inApplyOpImpl), throwsAt, full);
      if thrown {
        return Aborted(trace);
      }
      if ov.firstLocalEleOff >= 0 {
        trace, thrown := ReleaseAll(trace, numVecs, numTargVecs, localRng.lbound, throwsAt, full);
        if thrown {
          return Aborted(trace);
        }
      }
      assert trace == full;
      r := Completed(trace);
    }
  }

  /** The two acquire loops of applyOpImplWithComm: the vectors, then the
      target vectors. */
  method AcquireAll(numVecs: nat, numTargVecs: nat, rng: Range1D, globalOff: int,
                    throwsAt: Option<nat>, ghost full: seq<ApplyEvent>)
    returns (next: seq<ApplyEvent>, thrown: bool)
    requires numVecs + numTargVecs <= |full|
    requires full[..numVecs] == AcquireEvents(false, numVecs, rng, globalOff)
    requires full[numVecs..numVecs + numTargVecs] == AcquireEvents(true, numTargVecs, rng, globalOff)
    ensures thrown ==> throwsAt.Some? && throwsAt.value < numVecs + numTargVecs && next == full[..throwsAt.value + 1]
    ensures !thrown ==> next == full[..numVecs + numTargVecs] && (throwsAt.None? || throwsAt.value >= |next|)
  {
    assert full[0..numVecs] == full[..numVecs];
    next, thrown := AcquireEach([], 0, false, numVecs, rng, globalOff, throwsAt, full);
    if !thrown {
      next, thrown := AcquireEach(next, numVecs, true, numTargVecs, rng, globalOff, throwsAt, full);
    }
  }

  /** The release loop and then the commit loop of applyOpImplWithComm,
      after the `numVecs + numTargVecs` acquires and the apply. */
  method ReleaseAll(trace: seq<ApplyEvent>, numVecs: nat, numTargVecs: nat, globalOffset: int,
                    throwsAt: Option<nat>, ghost full: seq<ApplyEvent>)
    returns (next: seq<ApplyEvent>, thrown: bool)
    requires |trace| == numVecs + numTargVecs + 1 && |full| == |trace| + numVecs + numTargVecs
    requires trace == full[..|trace|]
    requires full[|trace|..|trace| + numVecs] == ReleaseEvents(false, numVecs, globalOffset)
    requires full[|trace| + numVecs..] == ReleaseEvents(true, numTargVecs, globalOffset)
    requires throwsAt.None? || throwsAt.value >= |trace|
    ensures thrown ==> throwsAt.Some? && throwsAt.value < |full| && next == full[..throwsAt.value + 1]
    ensures !thrown ==> next == full && (throwsAt.None? || throwsAt.value >= |full|)
  {
    var start := |trace|;
    next, thrown := ReleaseEach(trace, start, false, numVecs, globalOffset, throwsAt, full);
    if !thrown {
      assert full[start + numVecs..start + numVecs + numTargVecs] == full[start + numVecs..];
      next, thrown := ReleaseEach(next, start + numVecs, true, numTargVecs, globalOffset, throwsAt, full);
      assert full[..|full|] == full;
    }
  }

  /** The acquire loop over `count` vectors (`targ` for the target
      vectors), stopping at the call that throws. */
  method AcquireEach(trace: seq<ApplyEvent>, start: nat, targ: bool, count: nat, rng: Range1D, globalOff: int,
                     throwsAt: Option<nat>, ghost full: seq<ApplyEvent>)
    returns (next: seq<ApplyEvent>, thrown: bool)
    requires |trace| == start && start + count <= |full| && trace == full[..start]
    requires full[start..start + count] == AcquireEvents(targ, count, rng, globalOff)
    requires throwsAt.None? || throwsAt.value >= |trace|
    ensures thrown ==> throwsAt.Some? && throwsAt.value < |trace| + count && next == full[..throwsAt.value + 1]
    ensures !thrown ==> next == full[..|trace| + count] && (throwsAt.None? || throwsAt.value >= |next|)
  {
    next, thrown := trace, false;
    for k := 0 to count
      invariant |next| == |trace| + k && next == full[..|next|]
      invariant throwsAt.None? || throwsAt.value >= |next|
    {
      assert full[start..start + count][k] == full[|next|];
      next, thrown := Call(next, AcquireVec(targ, k, rng, globalOff), throwsAt, full);
      if thrown {
        return;
      }
    }
  }

  /** The release (commit, for `targ`) loop over `count` vectors, stopping
      at the call that throws. */
  method ReleaseEach(trace: seq<ApplyEvent>, start: nat, targ: bool, count: nat, globalOffset: int,
                     throwsAt: Option<nat>, ghost full: seq<ApplyEvent>)
    returns (next: seq<ApplyEvent>, thrown: bool)
    requires |trace| == start && start + count <= |full| && trace == full[..start]
    requires full[start..start + count] == ReleaseEvents(targ, count, globalOffset)
    requires throwsAt.None? || throwsAt.value >= |trace|
    ensures thrown ==> throwsAt.Some? && throwsAt.value < |trace| + count && next == full[..throwsAt.value + 1]
    ensures !thrown ==> next == full[..|trace| + count] && (throwsAt.None? || throwsAt.value >= |next|)
  {
    next, thrown := trace, false;
    for k := 0 to count
      invariant |next| == |trace| + k && next == full[..|next|]
      invariant throwsAt.None? || throwsAt.value >= |next|
    {
      assert full[start..start + count][k] == full[|next|];
      next, thrown := Call(next, ReleaseVec(targ, k, globalOffset), throwsAt, full);
      if thrown {
        return;
      }
    }
  }

  /** One call to another object, the next of the calls `full`: it is
      recorded, and it throws when it is the call at position `throwsAt`. */
  method Call(trace: seq<ApplyEvent>, e: ApplyEvent, throwsAt: Option<nat>, ghost full: seq<ApplyEvent>)
    returns (next: seq<ApplyEvent>, thrown: bool)
    requires |trace| < |full| && trace == full[..|trace|] && full[|trace|] == e
    ensures next == full[..|trace| + 1]
    ensures thrown <==> throwsAt == Some(|trace|)
  {
    next := trace + [e];
    thrown := throwsAt == Some(|trace|);
  }

  /** With the flag as written, a call in which a collaborator throws leaves
      the flag set, and the next call with debug checks is rejected as
      reentrant although nothing is being entered recursively. */
  method ThrowThenRetry(v: SpmdVectorBase) returns (first: ApplyOutcome, second: ApplyOutcome)
    requires !v.inApplyOpImpl
    modifies v
    ensures first.Aborted?
    ensures second == Rejected(InvalidArgument)
  {
    first := v.ApplyOpImplWithComm(false, Overlap(-1, 0, 0), 0, 0, true, Some(0));
    second := v.ApplyOpImplWithComm(false, Overlap(-1, 0, 0), 0, 0, true, None);
  }

  /** With the flag cleared on every exit, the call after one that threw
      runs normally. */
  method ThrowThenRetryGuarded(v: SpmdVectorBase) returns (first: ApplyOutcome, second: ApplyOutcome)
    requires !v.inApplyOpImpl
    modifies v
    ensures first.Aborted?
    ensures second.Completed?
  {
    first := v.ApplyOpImplWithCommGuarded(false, Overlap(-1, 0, 0), 0, 0, true, Some(0));
    second := v.ApplyOpImplWithCommGuarded(false, Overlap(-1, 0, 0), 0, 0, true, None);
  }
}
