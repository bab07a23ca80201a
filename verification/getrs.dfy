/** magma_cgetrs_gpu: solve A * X = B, A**T * X = B or A**H * X = B with the
    LU factors and pivots of CGETRF. The numerical solves are opaque; the
    model records which solves run, in which order and with which
    descriptors, and what the row interchanges do to the rows of B. */
module Getrs {
  import opened Common
  import opened Validation
  import opened Resources
  import opened Laswp

  /** A triangular solve, by its descriptors. magma_ctrsv always solves
      from the left. */
  datatype Solve = Solve(side: Side, uplo: Uplo, trans: Trans, diag: Diag)

  /** The calls the driver issues, in the driver's terms. */
  datatype Step =
    | GetMatrix                                          // copy B to the host workspace
    | Interchanges(inc: int)                             // claswp on the host copy, k1 = 1, k2 = n
    | SetMatrix                                          // copy the host workspace back to B
    | Trsv(uplo: Uplo, trans: Trans, diag: Diag)         // used when nrhs == 1
    | Trsm(side: Side, uplo: Uplo, trans: Trans, diag: Diag)

  /** The argument chain of lines 85-98: trans, n, nrhs, ldda, lddb. */
  function Checks(trans: Arg<Trans>, n: int, nrhs: int, ldda: int, lddb: int): seq<Check>
  {
    [ Check(trans.Named?, -1),
      Check(n >= 0, -2),
      Check(nrhs >= 0, -3),
      Check(ldda >= Max(1, n), -5),
      Check(lddb >= Max(1, n), -8) ]
  }

  /** The status of the argument checks: the code of the first bad
      argument, or 0. */
  function ValidateArgs(trans: Arg<Trans>, n: int, nrhs: int, ldda: int, lddb: int): (info: int)
    ensures info == 0 <==> trans.Named? && n >= 0 && nrhs >= 0 && ldda >= Max(1, n) && lddb >= Max(1, n)
    ensures info == -1 <==> !trans.Named?
    ensures info == -2 <==> trans.Named? && n < 0
    ensures info == -3 <==> trans.Named? && n >= 0 && nrhs < 0
    ensures info == -5 <==> trans.Named? && n >= 0 && nrhs >= 0 && ldda < Max(1, n)
    ensures info == -8 <==> trans.Named? && n >= 0 && nrhs >= 0 && ldda >= Max(1, n) && lddb < Max(1, n)
  {
    var checks := Checks(trans, n, nrhs, ldda, lddb);
    FirstFailureDecodes(checks, 0);
    FirstFailureDecodes(checks, 1);
    FirstFailureDecodes(checks, 2);
    FirstFailureDecodes(checks, 3);
    FirstFailureDecodes(checks, 4);
    FirstFailure(checks)
  }

  /** One triangular solve: trsv for a single right-hand side, trsm from
      the left otherwise. */
  function Triangular(uplo: Uplo, trans: Trans, diag: Diag, nrhs: int): Step
  {
    if nrhs == 1 then Trsv(uplo, trans, diag) else Trsm(Left, uplo, trans, diag)
  }

  /** The calls of a valid, non-empty solve (lines 120-152). */
  function SolveSteps(trans: Trans, nrhs: int): seq<Step>
  {
    if trans == NoTrans then
      [GetMatrix, Interchanges(1), SetMatrix,
       Triangular(Lower, NoTrans, Unit, nrhs),
       Triangular(Upper, NoTrans, NonUnit, nrhs)]
    else
      [Triangular(Upper, trans, NonUnit, nrhs),
       Triangular(Lower, trans, Unit, nrhs),
       GetMatrix, Interchanges(-1), SetMatrix]
  }

  /** magma_cgetrs_gpu. `hostAllocFails` stands for magma_cmalloc_cpu
      returning NULL. */
  function CgetrsGpu(trans: Arg<Trans>, n: int, nrhs: int, ldda: int, lddb: int,
                     hostAllocFails: bool): (o: Outcome<Step>)
    ensures ValidateArgs(trans, n, nrhs, ldda, lddb) != 0
            ==> o.info == ValidateArgs(trans, n, nrhs, ldda, lddb) && o.trace == []
    ensures ValidateArgs(trans, n, nrhs, ldda, lddb) == 0 && (n == 0 || nrhs == 0)
            ==> o.info == 0 && o.trace == []
    ensures ValidateArgs(trans, n, nrhs, ldda, lddb) == 0 && n > 0 && nrhs > 0 && hostAllocFails
            ==> o.info == ErrHostAlloc && Kernels(o.trace) == []
    ensures ValidateArgs(trans, n, nrhs, ldda, lddb) == 0 && n > 0 && nrhs > 0 && !hostAllocFails
            ==> o.info == 0 && Kernels(o.trace) == SolveSteps(trans.value, nrhs)
    ensures Kernels(o.trace) != [] <==> o.info == 0 && n > 0 && nrhs > 0
    ensures o.info == 0 && n > 0 && nrhs > 0
            ==> trans.Named? && Kernels(o.trace) == SolveSteps(trans.value, nrhs)
    ensures Held(o.trace) == {}
  {
    var info := ValidateArgs(trans, n, nrhs, ldda, lddb);
    if info != 0 then Outcome(info, [])
    else if n == 0 || nrhs == 0 then Outcome(0, [])
    else if hostAllocFails then
      var t: seq<Event<Step>> := [AcquireFailed(Work)];
      assert Held(t) == {} && Kernels(t) == [];
      Outcome(ErrHostAlloc, t)
    else
      var pre: seq<Event<Step>> := [Acquire(Work), Acquire(Queue)];
      var post: seq<Event<Step>> := [Release(Queue), Release(Work)];
      var ks := SolveSteps(trans.value, nrhs);
      Bracket(pre, ks, post);
      assert Held(pre) == {Work, Queue} && Kernels(pre) == [];
      assert HeldAfter({Work, Queue}, post) == {} && Kernels(post) == [];
      Outcome(0, pre + Runs(ks) + post)
  }

  // What the calls do to B.

  /** The descriptor of a solve step; trsv solves from the left. */
  function SolveOf(s: Step): (d: Solve)
    requires s.Trsv? || s.Trsm?
  {
    if s.Trsv? then Solve(Left, s.uplo, s.trans, s.diag)
    else Solve(s.side, s.uplo, s.trans, s.diag)
  }

  /** The solve descriptor of one call, if it is a solve. */
  function DescriptorOf(s: Step): seq<Solve>
  {
    if s.Trsv? || s.Trsm? then [SolveOf(s)] else []
  }

  /** The solve descriptors of a sequence of calls, in issue order. */
  function Descriptors(ks: seq<Step>): (ds: seq<Solve>)
    ensures |ds| <= |ks|
  {
    if |ks| == 0 then [] else DescriptorOf(ks[0]) + Descriptors(ks[1..])
  }

  lemma {:induction false} DescriptorsOfFive(ks: seq<Step>)
    requires |ks| == 5
    ensures Descriptors(ks) == DescriptorOf(ks[0]) + DescriptorOf(ks[1]) + DescriptorOf(ks[2])
                               + DescriptorOf(ks[3]) + DescriptorOf(ks[4])
  {
    assert Descriptors(ks[5..]) == [];
    assert Descriptors(ks[4..]) == DescriptorOf(ks[4]);
    assert Descriptors(ks[3..]) == DescriptorOf(ks[3]) + DescriptorOf(ks[4]);
    assert Descriptors(ks[2..]) == DescriptorOf(ks[2]) + (DescriptorOf(ks[3]) + DescriptorOf(ks[4]));
  }

  /** The solves only need to keep the number of rows. */
  ghost predicate KeepsRows<R(!new)>(solve: (Solve, seq<R>) -> seq<R>)
  {
    forall d, x :: |solve(d, x)| == |x|
  }

  /** The effect of the calls ks on the n rows of B, with pivots ipiv and
      the (unknown) triangular solves `solve`. The copies between device and
      host leave the rows as they are; claswp applies the interchanges
      forwards for a positive increment, backwards for a negative one, and
      not at all for a zero one. */
  function Effect<R(!new)>(ks: seq<Step>, b: seq<R>, ipiv: seq<int>, solve: (Solve, seq<R>) -> seq<R>): (r: seq<R>)
    requires |ipiv| == |b| && ValidPivots(ipiv, |b|)
    requires KeepsRows(solve)
    ensures |r| == |b|
    decreases |ks|
  {
    if |ks| == 0 then b
    else
      var next :=
        match ks[0]
        case Interchanges(inc) =>
          if inc > 0 then Forward(b, ipiv, |ipiv|)
          else if inc < 0 then Backward(b, ipiv, |ipiv|)
          else b
        case Trsv(_, _, _) => solve(SolveOf(ks[0]), b)
        case Trsm(_, _, _, _) => solve(SolveOf(ks[0]), b)
        case _ => b;
      Effect(ks[1..], next, ipiv, solve)
  }

  /** Solving A * X = B: X = U^-1 * L^-1 * P * B, the interchanges applied
      first and in increasing order, then the unit lower solve, then the
      non-unit upper solve. */
  lemma {:induction false} NoTransSolve<R(!new)>(nrhs: int, b: seq<R>, ipiv: seq<int>, solve: (Solve, seq<R>) -> seq<R>)
    requires |ipiv| == |b| && ValidPivots(ipiv, |b|)
    requires KeepsRows(solve)
    ensures Effect(SolveSteps(NoTrans, nrhs), b, ipiv, solve)
            == solve(Solve(Left, Upper, NoTrans, NonUnit),
                     solve(Solve(Left, Lower, NoTrans, Unit), Forward(b, ipiv, |ipiv|)))
  {
    var ks := SolveSteps(NoTrans, nrhs);
    var p := Forward(b, ipiv, |ipiv|);
    var l := solve(Solve(Left, Lower, NoTrans, Unit), p);
    var u := solve(Solve(Left, Upper, NoTrans, NonUnit), l);
    assert Effect(ks[4..], l, ipiv, solve) == u;
    assert Effect(ks[3..], p, ipiv, solve) == u;
    assert Effect(ks[2..], p, ipiv, solve) == u;
    assert Effect(ks[1..], b, ipiv, solve) == u;
  }

  /** Solving A**T * X = B or A**H * X = B: the non-unit upper solve, then
      the unit lower solve, then the interchanges undone in decreasing
      order. */
  lemma {:induction false} TransSolve<R(!new)>(trans: Trans, nrhs: int, b: seq<R>, ipiv: seq<int>, solve: (Solve, seq<R>) -> seq<R>)
    requires trans != NoTrans
    requires |ipiv| == |b| && ValidPivots(ipiv, |b|)
    requires KeepsRows(solve)
    ensures Effect(SolveSteps(trans, nrhs), b, ipiv, solve)
            == Backward(solve(Solve(Left, Lower, trans, Unit),
                              solve(Solve(Left, Upper, trans, NonUnit), b)), ipiv, |ipiv|)
  {
    var ks := SolveSteps(trans, nrhs);
    var u := solve(Solve(Left, Upper, trans, NonUnit), b);
    var l := solve(Solve(Left, Lower, trans, Unit), u);
    var p := Backward(l, ipiv, |ipiv|);
    assert Effect(ks[4..], p, ipiv, solve) == p;
    assert Effect(ks[3..], l, ipiv, solve) == p;
    assert Effect(ks[2..], l, ipiv, solve) == p;
    assert Effect(ks[1..], u, ipiv, solve) == p;
  }

  /** The single right-hand-side path (trsv) issues the same descriptors as
      the trsm path, and so has the same effect on B. */
  lemma {:induction false} TrsvPathMatchesTrsmPath<R(!new)>(trans: Trans, nrhs: int, b: seq<R>, ipiv: seq<int>,
                                   solve: (Solve, seq<R>) -> seq<R>)
    requires |ipiv| == |b| && ValidPivots(ipiv, |b|)
    requires KeepsRows(solve)
    ensures Descriptors(SolveSteps(trans, 1)) == Descriptors(SolveSteps(trans, nrhs))
    ensures Effect(SolveSteps(trans, 1), b, ipiv, solve) == Effect(SolveSteps(trans, nrhs), b, ipiv, solve)
  {
    SolvesFromTheLeft(trans, 1);
    SolvesFromTheLeft(trans, nrhs);
    if trans == NoTrans {
      NoTransSolve(1, b, ipiv, solve);
      NoTransSolve(nrhs, b, ipiv, solve);
    } else {
      TransSolve(trans, 1, b, ipiv, solve);
      TransSolve(trans, nrhs, b, ipiv, solve);
    }
  }

  /** Every solve of a valid call is from the left. */
  lemma {:induction false} SolvesFromTheLeft(trans: Trans, nrhs: int)
    ensures |SolveSteps(trans, nrhs)| == 5
    ensures forall s :: s in SolveSteps(trans, nrhs) && s.Trsm? ==> s.side == Left
    ensures Descriptors(SolveSteps(trans, nrhs))
            == (if trans == NoTrans then [Solve(Left, Lower, NoTrans, Unit), Solve(Left, Upper, NoTrans, NonUnit)]
                else [Solve(Left, Upper, trans, NonUnit), Solve(Left, Lower, trans, Unit)])
  {
    DescriptorsOfFive(SolveSteps(trans, nrhs));
  }

  /** With the solves left out (identity), the transposed solve undoes the
      row interchanges of the plain solve: B comes back unchanged. That each
      column stays a permutation of its entries in between is
      Laswp.ColumnsStayPermutations. */
  lemma {:induction false} InterchangesRoundTrip<R(!new)>(b: seq<R>, ipiv: seq<int>, trans: Trans, nrhs: int)
    requires trans != NoTrans
    requires |ipiv| == |b| && ValidPivots(ipiv, |b|)
    ensures Effect(SolveSteps(trans, nrhs),
                   Effect(SolveSteps(NoTrans, nrhs), b, ipiv, (d, x) => x), ipiv, (d, x) => x) == b
  {
    var id: (Solve, seq<R>) -> seq<R> := (d, x) => x;
    NoTransSolve(nrhs, b, ipiv, id);
    var f := Forward(b, ipiv, |ipiv|);
    TransSolve(trans, nrhs, f, ipiv, id);
    BackwardUndoesForward(b, ipiv, |ipiv|);
  }

  /** A call that fails its argument checks, returns early, or cannot
      allocate its workspace leaves B as it was. */
  lemma {:induction false} FailureLeavesBUntouched<R(!new)>(trans: Arg<Trans>, n: int, nrhs: int, ldda: int, lddb: int,
                                   hostAllocFails: bool, b: seq<R>, ipiv: seq<int>,
                                   solve: (Solve, seq<R>) -> seq<R>)
    requires |ipiv| == |b| && ValidPivots(ipiv, |b|)
    requires KeepsRows(solve)
    requires CgetrsGpu(trans, n, nrhs, ldda, lddb, hostAllocFails).info != 0
             || n == 0 || nrhs == 0
    ensures Effect(Kernels(CgetrsGpu(trans, n, nrhs, ldda, lddb, hostAllocFails).trace), b, ipiv, solve) == b
  {
  }
}
