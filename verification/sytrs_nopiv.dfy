/** magma_dsytrs_nopiv_gpu: solve A * X = B with the pivot-free symmetric
    factorization of DSYTRF_NOPIV_GPU. The model records the three calls
    the solve issues and their descriptors. */
module SytrsNopiv {
  import opened Common
  import opened Validation
  import opened Resources

  /** The calls of the solve. */
  datatype Step =
    | Trsm(side: Side, uplo: Uplo, trans: Trans, diag: Diag)
    | LasclDiag(uplo: Uplo)   // magmablas_dlascl_diag: scale B by the inverse of D

  /** A factor of A: a unit triangle (as stored, or its adjoint) or the
      diagonal D. */
  datatype Factor = Triangle(uplo: Uplo, trans: Trans) | Diagonal

  /** The factorization the calls of lines 103-127 invert, factors from
      left to right: A = U**H * D * U from the upper triangle and
      A = L * D * L**H from the lower one (U = L**H, so each is the adjoint
      of the other). For the upper triangle this is not the form
      U * D * U**H of the routine's documentation; see
      DocumentedFactorization. */
  function Factorization(uplo: Uplo): (fs: seq<Factor>)
    ensures |fs| == 3 && fs[1] == Diagonal
    ensures fs[0].Triangle? && fs[2].Triangle?
    ensures fs[0].uplo == uplo && fs[2].uplo == uplo
  {
    match uplo
    case Upper => [Triangle(Upper, ConjTrans), Diagonal, Triangle(Upper, NoTrans)]
    case Lower => [Triangle(Lower, NoTrans), Diagonal, Triangle(Lower, ConjTrans)]
  }

  /** The factorization as the routine's documentation states it (lines
      17-19 of dsytrs_nopiv_gpu.cpp): A = U * D * U**H or A = L * D * L**H. */
  function DocumentedFactorization(uplo: Uplo): (fs: seq<Factor>)
    ensures |fs| == 3 && fs[1] == Diagonal
  {
    match uplo
    case Upper => [Triangle(Upper, NoTrans), Diagonal, Triangle(Upper, ConjTrans)]
    case Lower => [Triangle(Lower, NoTrans), Diagonal, Triangle(Lower, ConjTrans)]
  }

  /** The call that removes one factor from the left of the system. The
      scaling by D is always issued with MagmaUpper. */
  function SolveWith(f: Factor): Step
  {
    match f
    case Triangle(uplo, trans) => Trsm(Left, uplo, trans, Unit)
    case Diagonal => LasclDiag(Upper)
  }

  /** The argument chain of lines 76-91: uplo, n, nrhs, ldda, lddb. */
  function Checks(uplo: Arg<Uplo>, n: int, nrhs: int, ldda: int, lddb: int): seq<Check>
  {
    [ Check(uplo.Named?, -1),
      Check(n >= 0, -2),
      Check(nrhs >= 0, -3),
      Check(ldda >= Max(1, n), -5),
      Check(lddb >= Max(1, n), -7) ]
  }

  function ValidateArgs(uplo: Arg<Uplo>, n: int, nrhs: int, ldda: int, lddb: int): (info: int)
    ensures info == 0 <==> uplo.Named? && n >= 0 && nrhs >= 0 && ldda >= Max(1, n) && lddb >= Max(1, n)
    ensures info == -1 <==> !uplo.Named?
    ensures info == -2 <==> uplo.Named? && n < 0
    ensures info == -3 <==> uplo.Named? && n >= 0 && nrhs < 0
    ensures info == -5 <==> uplo.Named? && n >= 0 && nrhs >= 0 && ldda < Max(1, n)
    ensures info == -7 <==> uplo.Named? && n >= 0 && nrhs >= 0 && ldda >= Max(1, n) && lddb < Max(1, n)
  {
    var checks := Checks(uplo, n, nrhs, ldda, lddb);
    FirstFailureDecodes(checks, 0);
    FirstFailureDecodes(checks, 1);
    FirstFailureDecodes(checks, 2);
    FirstFailureDecodes(checks, 3);
    FirstFailureDecodes(checks, 4);
    FirstFailure(checks)
  }

  /** The three calls of a non-empty solve (lines 103-127): a unit
      triangular solve from the left, the diagonal scaling (with MagmaUpper
      in both branches), and the adjoint unit triangular solve. */
  function SolveSteps(uplo: Uplo): (ks: seq<Step>)
    ensures |ks| == 3
    ensures ks[1] == LasclDiag(Upper)
    ensures ks[0].Trsm? && ks[2].Trsm?
    ensures ks[0].side == Left && ks[2].side == Left
    ensures ks[0].uplo == uplo && ks[2].uplo == uplo
    ensures ks[0].diag == Unit && ks[2].diag == Unit
    ensures {ks[0].trans, ks[2].trans} == {NoTrans, ConjTrans}
    ensures forall i :: 0 <= i < 3 ==> ks[i] == SolveWith(Factorization(uplo)[i])
  {
    match uplo
    case Upper =>
      [Trsm(Left, Upper, ConjTrans, Unit), LasclDiag(Upper), Trsm(Left, Upper, NoTrans, Unit)]
    case Lower =>
      [Trsm(Left, Lower, NoTrans, Unit), LasclDiag(Upper), Trsm(Left, Lower, ConjTrans, Unit)]
  }

  /** The calls invert the documented form for the lower triangle, but
      not for the upper one: there the first call is the adjoint solve with
      U, which removes U**H, while the documented form starts with U. */
  lemma {:induction false} DocumentedFormOnlyForLower(uplo: Uplo)
    ensures uplo == Lower <==> forall i :: 0 <= i < 3 ==> SolveSteps(uplo)[i] == SolveWith(DocumentedFactorization(uplo)[i])
  {
    if uplo == Upper {
      assert SolveSteps(uplo)[0] != SolveWith(DocumentedFactorization(uplo)[0]);
    }
  }

  /** magma_dsytrs_nopiv_gpu. `scaleInfo` is the status magmablas_dlascl_diag
      writes to info, which the driver then returns. */
  function DsytrsNopivGpu(uplo: Arg<Uplo>, n: int, nrhs: int, ldda: int, lddb: int,
                          scaleInfo: int): (o: Outcome<Step>)
    ensures ValidateArgs(uplo, n, nrhs, ldda, lddb) != 0
            ==> o.info == ValidateArgs(uplo, n, nrhs, ldda, lddb) && o.trace == []
    ensures ValidateArgs(uplo, n, nrhs, ldda, lddb) == 0 && (n == 0 || nrhs == 0)
            ==> o.info == 0 && o.trace == []
    ensures ValidateArgs(uplo, n, nrhs, ldda, lddb) == 0 && n > 0 && nrhs > 0
            ==> o.info == scaleInfo && uplo.Named? && Kernels(o.trace) == SolveSteps(uplo.value)
    ensures Held(o.trace) == {}
  {
    var info := ValidateArgs(uplo, n, nrhs, ldda, lddb);
    if info != 0 then Outcome(info, [])
    else if n == 0 || nrhs == 0 then Outcome(0, [])
    else
      var pre: seq<Event<Step>> := [Acquire(Queue)];
      var post: seq<Event<Step>> := [Release(Queue)];
      var ks := SolveSteps(uplo.value);
      Bracket(pre, ks, post);
      assert Held(pre) == {Queue} && Kernels(pre) == [];
      assert HeldAfter({Queue}, post) == {} && Kernels(post) == [];
      Outcome(scaleInfo, pre + Runs(ks) + post)
  }
}
