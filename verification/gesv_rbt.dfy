/** magma_dgesv_rbt: solve A * X = B by a random butterfly transformation
    of A and B, LU factorization without pivoting and, on request,
    iterative refinement. The numerical kernels are opaque; the model
    covers the argument checks, the padding of the system to a multiple of
    4, the buffers and their cleanup, and which calls run in which
    order. */
module GesvRbt {
  import opened Common
  import opened Validation
  import opened Resources

  /** The calls of the driver, by their sizes. */
  datatype Step =
    | Laset(nn: int)                      // dA := the nn x nn identity
    | SetA(n: int)                        // A into the top-left n x n block of dA
    | SetB(n: int, nrhs: int)             // B into the top n rows of dB
    | Gerbt(nn: int, nrhs: int)           // magma_dgerbt_gpu: transform dA and dB
    | CopyA(nn: int)                      // dAo := dA (refinement only)
    | CopyB(nn: int, nrhs: int)           // dBo := dB (refinement only)
    | GesvNopiv(nn: int, nrhs: int)       // solve the transformed system
    | Gerfs(nn: int, nrhs: int)           // iterative refinement (refinement only)
    | SetV(len: int)                      // the butterfly V to the device
    | Prbt(nn: int, col: int)             // apply V to column col of dB
    | GetB(n: int, nrhs: int)             // the top n rows of dB back into B

  /** The argument chain of lines 90-103: refine, n, nrhs, lda, ldb. A
      magma_bool_t that is neither MagmaTrue nor MagmaFalse is `Other`. */
  function Checks(refine: Arg<bool>, n: int, nrhs: int, lda: int, ldb: int): seq<Check>
  {
    [ Check(refine.Named?, -1),
      Check(n >= 0, -2),
      Check(nrhs >= 0, -3),
      Check(lda >= Max(1, n), -5),
      Check(ldb >= Max(1, n), -7) ]
  }

  function ValidateArgs(refine: Arg<bool>, n: int, nrhs: int, lda: int, ldb: int): (info: int)
    ensures info == 0 <==> refine.Named? && n >= 0 && nrhs >= 0 && lda >= Max(1, n) && ldb >= Max(1, n)
    ensures info == -1 <==> !refine.Named?
    ensures info == -2 <==> refine.Named? && n < 0
    ensures info == -3 <==> refine.Named? && n >= 0 && nrhs < 0
    ensures info == -5 <==> refine.Named? && n >= 0 && nrhs >= 0 && lda < Max(1, n)
    ensures info == -7 <==> refine.Named? && n >= 0 && nrhs >= 0 && lda >= Max(1, n) && ldb < Max(1, n)
  {
    var checks := Checks(refine, n, nrhs, lda, ldb);
    FirstFailureDecodes(checks, 0);
    FirstFailureDecodes(checks, 1);
    FirstFailureDecodes(checks, 2);
    FirstFailureDecodes(checks, 3);
    FirstFailureDecodes(checks, 4);
    FirstFailure(checks)
  }

  /** The padded order of line 83: the least multiple of 4 that is at
      least n. */
  function PaddedOrder(n: nat): (nn: nat)
    ensures nn % 4 == 0 && n <= nn < n + 4
  {
    RoundUpMultiple(n, 4);
    RoundUp(n, 4)
  }

  // The padded matrix (lines 141-144). m[i][j] is the entry in row i,
  // column j.

  /** magmablas_dlaset(MagmaFull, nn, nn, zero, one): the nn x nn identity. */
  function Identity<T>(nn: nat, zero: T, one: T): (m: seq<seq<T>>)
    ensures |m| == nn && forall i :: 0 <= i < nn ==> |m[i]| == nn
  {
    seq(nn, i requires 0 <= i < nn => seq(nn, j requires 0 <= j < nn => if i == j then one else zero))
  }

  /** magma_dsetmatrix(n, n, A, ...): overwrite the top-left n x n block of
      m with that of a. */
  function SetBlock<T>(m: seq<seq<T>>, a: seq<seq<T>>, n: nat): (r: seq<seq<T>>)
    requires n <= |m| && n <= |a|
    requires forall i :: 0 <= i < |m| ==> n <= |m[i]|
    requires forall i :: 0 <= i < n ==> n <= |a[i]|
    ensures |r| == |m| && forall i :: 0 <= i < |m| ==> |r[i]| == |m[i]|
  {
    seq(|m|, i requires 0 <= i < |m| =>
      seq(|m[i]|, j requires 0 <= j < |m[i]| => if i < n && j < n then a[i][j] else m[i][j]))
  }

  /** The system the transformation works on: A bordered by the identity.
      Inside the top-left n x n block it is A; outside, 1 on the diagonal
      and 0 elsewhere. */
  lemma {:induction false} PaddedEntries<T>(a: seq<seq<T>>, n: nat, nn: nat, zero: T, one: T)
    requires n <= nn && n <= |a|
    requires forall i :: 0 <= i < n ==> n <= |a[i]|
    ensures var p := SetBlock(Identity(nn, zero, one), a, n);
            && |p| == nn
            && forall i, j :: 0 <= i < nn && 0 <= j < nn ==>
                 |p[i]| == nn && p[i][j] == if i < n && j < n then a[i][j] else if i == j then one else zero
  {
  }

  // The buffers.

  /** The device buffers of lines 113-114, then, with refinement, those of
      lines 121-123, then the host butterflies of lines 130-131, in the
      order they are allocated. */
  function Allocations(refine: bool): seq<Resource>
  {
    [DA, DB] + (if refine then [DAo, DWork, DBo] else []) + [HU, HV]
  }

  /** What the cleanup label frees (lines 182-195), in order. */
  function CleanupOrder(refine: bool): seq<Resource>
  {
    [Queue, HU, HV, DA, DV, DB] + (if refine then [DAo, DBo, DWork] else [])
  }

  /** The first allocation of rs that fails. */
  function FirstFailed(rs: seq<Resource>, fails: set<Resource>): (r: Resource)
    requires !Succeeds(rs, fails)
    ensures r in rs && r in fails
  {
    if rs[0] in fails then rs[0] else FirstFailed(rs[1..], fails)
  }

  /** The calls before the solve: the identity, the copies of A and B, and
      the transformation. */
  function Setup(n: int, nn: int, nrhs: int): seq<Step>
  {
    [Laset(nn), SetA(n), SetB(n, nrhs), Gerbt(nn, nrhs)]
  }

  /** The solve (lines 154-164): the saved copies and the refinement only
      with refine. */
  function SolveSteps(refine: bool, nn: int, nrhs: int): seq<Step>
  {
    (if refine then [CopyA(nn), CopyB(nn, nrhs)] else []) + [GesvNopiv(nn, nrhs)]
      + (if refine then [Gerfs(nn, nrhs)] else [])
  }

  /** The back transformation (lines 173-179): V to the device, V applied
      to each of the nrhs columns of dB in turn, and the top n rows copied
      back into B. */
  function BackSteps(n: int, nn: int, nrhs: nat): (ks: seq<Step>)
    ensures |ks| == nrhs + 2 && ks[0] == SetV(2 * nn) && ks[nrhs + 1] == GetB(n, nrhs)
    ensures forall k :: 1 <= k <= nrhs ==> ks[k] == Prbt(nn, k - 1)
    ensures forall s :: s in ks ==> s.SetV? || s.Prbt? || s.GetB?
  {
    [SetV(2 * nn)] + seq(nrhs, c requires 0 <= c < nrhs => Prbt(nn, c)) + [GetB(n, nrhs)]
  }

  /** The allocations of lines 113-135 and the queue, when all succeed. */
  function Acquired(rf: bool, fails: set<Resource>): seq<Event<Step>>
  {
    TryAll(Allocations(rf), fails) + [Acquire(Queue)]
  }

  /** Lines 113-197, once the arguments are valid and the system is not
      empty; `rf` is refine == MagmaTrue. `cleanupOnGerbtFailure` false is
      the code of lines 149-152 (return at once), true is a jump to the
      cleanup label. `fails` are the allocations that fail; `gerbtInfo` is
      what magma_dgerbt_gpu returns; `solveInfo` is the status the solve
      and the refinement leave in info. */
  function Solve(rf: bool, n: nat, nrhs: nat, fails: set<Resource>,
                 gerbtInfo: int, solveInfo: int, cleanupOnGerbtFailure: bool): (o: Outcome<Step>)
  {
    var nn := PaddedOrder(n);
    var rs := Allocations(rf);
    var cleanup := Releases(CleanupOrder(rf));
    if !Succeeds(rs, fails) then
      var code := if FirstFailed(rs, fails) in {HU, HV} then ErrHostAlloc else ErrDeviceAlloc;
      Outcome(code, TryAll(rs, fails) + cleanup)
    else if gerbtInfo != 0 then
      Outcome(gerbtInfo, Acquired(rf, fails) + Runs(Setup(n, nn, nrhs)) + if cleanupOnGerbtFailure then cleanup else [])
    else
      var ks := Setup(n, nn, nrhs) + SolveSteps(rf, nn, nrhs);
      if DV in fails then
        Outcome(ErrDeviceAlloc, Acquired(rf, fails) + Runs(ks) + [AcquireFailed(DV)] + cleanup)
      else
        Outcome(solveInfo, Acquired(rf, fails) + Runs(ks) + [Acquire(DV)] + Runs(BackSteps(n, nn, nrhs)) + cleanup)
  }

  /** magma_dgesv_rbt with the given handling of a failure of
      magma_dgerbt_gpu: the argument checks, the quick return, the rest. */
  function Drive(refine: Arg<bool>, n: int, nrhs: int, lda: int, ldb: int, fails: set<Resource>,
                 gerbtInfo: int, solveInfo: int, cleanupOnGerbtFailure: bool): (o: Outcome<Step>)
  {
    var info := ValidateArgs(refine, n, nrhs, lda, ldb);
    if info != 0 then Outcome(info, [])
    else if nrhs == 0 || n == 0 then Outcome(0, [])
    else Solve(refine.value, n, nrhs, fails, gerbtInfo, solveInfo, cleanupOnGerbtFailure)
  }

  /** The driver as written. */
  function DgesvRbtAsWritten(refine: Arg<bool>, n: int, nrhs: int, lda: int, ldb: int, fails: set<Resource>,
                             gerbtInfo: int, solveInfo: int): Outcome<Step>
  {
    Drive(refine, n, nrhs, lda, ldb, fails, gerbtInfo, solveInfo, false)
  }

  /** The driver with a failure of magma_dgerbt_gpu routed through the
      cleanup label like every other failure. */
  function DgesvRbt(refine: Arg<bool>, n: int, nrhs: int, lda: int, ldb: int, fails: set<Resource>,
                    gerbtInfo: int, solveInfo: int): Outcome<Step>
  {
    Drive(refine, n, nrhs, lda, ldb, fails, gerbtInfo, solveInfo, true)
  }

  // What each path of the driver does.

  /** The cleanup label frees every buffer the driver allocates, the
      queue and dv included. */
  lemma {:induction false} CleanupCoversAllocations(rf: bool)
    ensures (set r | r in Allocations(rf)) + {Queue, DV} <= (set r | r in CleanupOrder(rf))
  {
    var c := CleanupOrder(rf);
    assert Queue == c[0] && HU == c[1] && HV == c[2] && DA == c[3] && DV == c[4] && DB == c[5];
    if rf {
      assert DAo == c[6] && DBo == c[7] && DWork == c[8];
    }
  }

  lemma {:induction false} AcquiredHolds(rf: bool, fails: set<Resource>)
    requires Succeeds(Allocations(rf), fails)
    ensures Held(Acquired(rf, fails)) == (set r | r in Allocations(rf)) + {Queue}
    ensures Kernels(Acquired(rf, fails)) == []
    ensures Touched(Acquired(rf, fails)) <= (set r | r in Allocations(rf)) + {Queue}
  {
    var tried := TryAll<Step>(Allocations(rf), fails);
    TryAllHolds<Step>({}, Allocations(rf), fails);
    TouchedBy<Step>(Allocations(rf), fails, []);
    HeldAfterAppend({}, tried, [Acquire(Queue)]);
    KernelsAppend(tried, [Acquire(Queue)]);
    TouchedAppend(tried, [Acquire(Queue)]);
  }

  /** A nonzero status from the argument checks is returned before
      anything is allocated or run; so is 0 when n or nrhs is 0. */
  lemma {:induction false} EarlyReturns(refine: Arg<bool>, n: int, nrhs: int, lda: int, ldb: int, fails: set<Resource>,
                     gerbtInfo: int, solveInfo: int, cleanupOnGerbtFailure: bool, o: Outcome<Step>)
    requires o == Drive(refine, n, nrhs, lda, ldb, fails, gerbtInfo, solveInfo, cleanupOnGerbtFailure)
    ensures ValidateArgs(refine, n, nrhs, lda, ldb) != 0 ==> o == Outcome(ValidateArgs(refine, n, nrhs, lda, ldb), [])
    ensures ValidateArgs(refine, n, nrhs, lda, ldb) == 0 && (n == 0 || nrhs == 0) ==> o == Outcome(0, [])
    ensures o.trace != [] <==> ValidateArgs(refine, n, nrhs, lda, ldb) == 0 && n > 0 && nrhs > 0
  {
    if ValidateArgs(refine, n, nrhs, lda, ldb) == 0 && n > 0 && nrhs > 0 {
      var rs := Allocations(refine.value);
      assert |TryAll<Step>(rs, fails)| > 0 by {
        assert rs[0] == DA;
      }
    }
  }

  /** A failing allocation among lines 113-135 jumps to the cleanup with
      MAGMA_ERR_HOST_ALLOC for hu or hv and MAGMA_ERR_DEVICE_ALLOC for a
      device buffer; nothing runs and nothing stays allocated. */
  lemma {:induction false} AllocationFailure(rf: bool, n: nat, nrhs: nat, fails: set<Resource>,
                          gerbtInfo: int, solveInfo: int, cleanupOnGerbtFailure: bool, o: Outcome<Step>)
    requires !Succeeds(Allocations(rf), fails)
    requires o == Solve(rf, n, nrhs, fails, gerbtInfo, solveInfo, cleanupOnGerbtFailure)
    ensures o.info == if FirstFailed(Allocations(rf), fails) in {HU, HV} then ErrHostAlloc else ErrDeviceAlloc
    ensures Kernels(o.trace) == []
    ensures Held(o.trace) == {}
    ensures Touched(o.trace) == (set r | r in CleanupOrder(rf))
  {
    var rs := Allocations(rf);
    var tried := TryAll<Step>(rs, fails);
    TryAllHolds<Step>({}, rs, fails);
    TouchedBy<Step>(rs, fails, []);
    TouchedBy<Step>(CleanupOrder(rf), fails, []);
    TouchedAppend(tried, Releases<Step>(CleanupOrder(rf)));
    CleanupCoversAllocations(rf);
    CleanedUp(tried, CleanupOrder(rf));
  }

  /** A failing magma_dgerbt_gpu returns its status after the identity,
      the copies of A and B and the transformation; with the jump to the
      cleanup nothing stays allocated, without it every buffer does. */
  lemma {:induction false} GerbtFailure(rf: bool, n: nat, nrhs: nat, fails: set<Resource>,
                     gerbtInfo: int, solveInfo: int, cleanupOnGerbtFailure: bool, o: Outcome<Step>)
    requires Succeeds(Allocations(rf), fails) && gerbtInfo != 0
    requires o == Solve(rf, n, nrhs, fails, gerbtInfo, solveInfo, cleanupOnGerbtFailure)
    ensures o.info == gerbtInfo
    ensures Kernels(o.trace) == Setup(n, PaddedOrder(n), nrhs)
    ensures cleanupOnGerbtFailure ==> Held(o.trace) == {}
    ensures !cleanupOnGerbtFailure ==> Held(o.trace) == (set r | r in Allocations(rf)) + {Queue}
  {
    var acquired := Acquired(rf, fails);
    var cl := CleanupOrder(rf);
    var post: seq<Event<Step>> := if cleanupOnGerbtFailure then Releases(cl) else [];
    AcquiredHolds(rf, fails);
    Bracket(acquired, Setup(n, PaddedOrder(n), nrhs), post);
    CleanupCoversAllocations(rf);
    ReleasesAll<Step>(Held(acquired), cl);
  }

  /** A failing allocation of dv (line 168) jumps to the cleanup with
      MAGMA_ERR_DEVICE_ALLOC after the solve and, with refine, the
      refinement. */
  lemma {:induction false} DvFailure(rf: bool, n: nat, nrhs: nat, fails: set<Resource>,
                  gerbtInfo: int, solveInfo: int, cleanupOnGerbtFailure: bool, o: Outcome<Step>)
    requires Succeeds(Allocations(rf), fails) && gerbtInfo == 0 && DV in fails
    requires o == Solve(rf, n, nrhs, fails, gerbtInfo, solveInfo, cleanupOnGerbtFailure)
    ensures o.info == ErrDeviceAlloc
    ensures Kernels(o.trace) == Setup(n, PaddedOrder(n), nrhs) + SolveSteps(rf, PaddedOrder(n), nrhs)
    ensures Held(o.trace) == {}
  {
    var nn := PaddedOrder(n);
    DvTrace(rf, fails, Setup(n, nn, nrhs) + SolveSteps(rf, nn, nrhs), o.trace);
  }

  /** The trace of a run whose allocation of dv fails. */
  lemma {:induction false} DvTrace(rf: bool, fails: set<Resource>, ks: seq<Step>, t: seq<Event<Step>>)
    requires Succeeds(Allocations(rf), fails)
    requires t == Acquired(rf, fails) + Runs(ks) + [AcquireFailed(DV)] + Releases(CleanupOrder(rf))
    ensures Kernels(t) == ks
    ensures Held(t) == {}
  {
    var acquired := Acquired(rf, fails);
    var x := acquired + Runs(ks) + [AcquireFailed(DV)];
    AcquiredHolds(rf, fails);
    Bracket(acquired, ks, [AcquireFailed(DV)]);
    assert Kernels(x) == ks;
    CleanupCoversAllocations(rf);
    CleanedUp(x, CleanupOrder(rf));
  }

  /** The trace of a run that gets past every allocation. */
  lemma {:induction false} CompleteTrace(rf: bool, fails: set<Resource>, ks: seq<Step>, back: seq<Step>, t: seq<Event<Step>>)
    requires Succeeds(Allocations(rf), fails)
    requires t == Acquired(rf, fails) + Runs(ks) + [Acquire(DV)] + Runs(back) + Releases(CleanupOrder(rf))
    ensures Kernels(t) == ks + back
    ensures Held(t) == {}
  {
    var acquired := Acquired(rf, fails);
    var cl := CleanupOrder(rf);
    var x := acquired + Runs(ks) + [Acquire(DV)];
    AcquiredHolds(rf, fails);
    Bracket(acquired, ks, [Acquire(DV)]);
    assert Kernels(x) == ks;
    Bracket(x, back, Releases(cl));
    CleanupCoversAllocations(rf);
    ReleasesAll<Step>(Held(x), cl);
  }

  /** Otherwise the driver returns the solve's status after the back
      transformation, and frees everything. */
  lemma {:induction false} Success(rf: bool, n: nat, nrhs: nat, fails: set<Resource>,
                gerbtInfo: int, solveInfo: int, cleanupOnGerbtFailure: bool, o: Outcome<Step>)
    requires Succeeds(Allocations(rf), fails) && gerbtInfo == 0 && DV !in fails
    requires o == Solve(rf, n, nrhs, fails, gerbtInfo, solveInfo, cleanupOnGerbtFailure)
    ensures o.info == solveInfo
    ensures Kernels(o.trace) == Setup(n, PaddedOrder(n), nrhs) + SolveSteps(rf, PaddedOrder(n), nrhs)
                                + BackSteps(n, PaddedOrder(n), nrhs)
    ensures Held(o.trace) == {}
  {
    var nn := PaddedOrder(n);
    CompleteTrace(rf, fails, Setup(n, nn, nrhs) + SolveSteps(rf, nn, nrhs), BackSteps(n, nn, nrhs), o.trace);
  }

  /** After the allocations succeed, a run touches only the allocated
      buffers, the queue and dv. */
  lemma {:induction false} AllocatedTouches(rf: bool, n: nat, nrhs: nat, fails: set<Resource>,
                         gerbtInfo: int, solveInfo: int, cleanupOnGerbtFailure: bool, o: Outcome<Step>)
    requires Succeeds(Allocations(rf), fails)
    requires o == Solve(rf, n, nrhs, fails, gerbtInfo, solveInfo, cleanupOnGerbtFailure)
    ensures Touched(o.trace) <= (set r | r in CleanupOrder(rf))
  {
    var nn := PaddedOrder(n);
    var acquired := Acquired(rf, fails);
    var cl := CleanupOrder(rf);
    var cleanup := Releases<Step>(cl);
    var setup := Setup(n, nn, nrhs);
    var ks := setup + SolveSteps(rf, nn, nrhs);
    var back := BackSteps(n, nn, nrhs);
    var S := set r | r in cl;
    AcquiredHolds(rf, fails);
    CleanupCoversAllocations(rf);
    TouchedBy<Step>(cl, fails, ks);
    TouchedBy<Step>([], fails, back);
    TouchedBy<Step>([], fails, setup);
    if gerbtInfo != 0 {
      var post: seq<Event<Step>> := if cleanupOnGerbtFailure then cleanup else [];
      TouchedJoin(acquired, Runs(setup), S);
      TouchedJoin(acquired + Runs(setup), post, S);
    } else if DV in fails {
      var dv: seq<Event<Step>> := [AcquireFailed(DV)];
      TouchedOne(dv[0]);
      TouchedJoin(acquired, Runs(ks), S);
      TouchedJoin(acquired + Runs(ks), dv, S);
      TouchedJoin(acquired + Runs(ks) + dv, cleanup, S);
    } else {
      var dv: seq<Event<Step>> := [Acquire(DV)];
      TouchedOne(dv[0]);
      var x := acquired + Runs(ks) + dv;
      TouchedJoin(acquired, Runs(ks), S);
      TouchedJoin(acquired + Runs(ks), dv, S);
      TouchedJoin(x, Runs(back), S);
      TouchedJoin(x + Runs(back), cleanup, S);
    }
  }

  /** With the cleanup on a transformation failure, every path ends
      holding nothing: each buffer allocated is freed. */
  lemma {:induction false} FreesEverything(refine: Arg<bool>, n: int, nrhs: int, lda: int, ldb: int, fails: set<Resource>,
                        gerbtInfo: int, solveInfo: int, o: Outcome<Step>)
    requires o == DgesvRbt(refine, n, nrhs, lda, ldb, fails, gerbtInfo, solveInfo)
    ensures Held(o.trace) == {}
  {
    if ValidateArgs(refine, n, nrhs, lda, ldb) == 0 && n > 0 && nrhs > 0 {
      var rf := refine.value;
      if !Succeeds(Allocations(rf), fails) {
        AllocationFailure(rf, n, nrhs, fails, gerbtInfo, solveInfo, true, o);
      } else if gerbtInfo != 0 {
        GerbtFailure(rf, n, nrhs, fails, gerbtInfo, solveInfo, true, o);
      } else if DV in fails {
        DvFailure(rf, n, nrhs, fails, gerbtInfo, solveInfo, true, o);
      } else {
        Success(rf, n, nrhs, fails, gerbtInfo, solveInfo, true, o);
      }
    }
  }

  /** As written, a failing transformation returns with dA, dB, hu, hv
      and the queue (and, with refinement, dAo, dwork and dBo) still
      held. */
  lemma {:induction false} GerbtFailureLeaks(refine: Arg<bool>, n: int, nrhs: int, lda: int, ldb: int, fails: set<Resource>,
                          gerbtInfo: int, solveInfo: int, o: Outcome<Step>)
    requires ValidateArgs(refine, n, nrhs, lda, ldb) == 0 && n > 0 && nrhs > 0
    requires Succeeds(Allocations(refine.value), fails) && gerbtInfo != 0
    requires o == DgesvRbtAsWritten(refine, n, nrhs, lda, ldb, fails, gerbtInfo, solveInfo)
    ensures o.info == gerbtInfo
    ensures DA in Held(o.trace) && DB in Held(o.trace) && HU in Held(o.trace) && HV in Held(o.trace)
    ensures Queue in Held(o.trace)
  {
    GerbtFailure(refine.value, n, nrhs, fails, gerbtInfo, solveInfo, false, o);
    var rs := Allocations(refine.value);
    assert rs[0] == DA && rs[1] == DB && rs[|rs| - 2] == HU && rs[|rs| - 1] == HV;
  }

  /** The two versions differ only on that path. */
  lemma {:induction false} AsWrittenOtherwiseSame(refine: Arg<bool>, n: int, nrhs: int, lda: int, ldb: int, fails: set<Resource>,
                               gerbtInfo: int, solveInfo: int)
    requires gerbtInfo == 0 || !(refine.Named? && Succeeds(Allocations(refine.value), fails))
    ensures DgesvRbtAsWritten(refine, n, nrhs, lda, ldb, fails, gerbtInfo, solveInfo)
            == DgesvRbt(refine, n, nrhs, lda, ldb, fails, gerbtInfo, solveInfo)
  {
  }

  /** Without refinement, dAo, dBo and dwork are neither allocated nor
      freed, and neither the saved copies nor the refinement run. */
  lemma {:induction false} WithoutRefine(n: nat, nrhs: nat, fails: set<Resource>,
                      gerbtInfo: int, solveInfo: int, cleanupOnGerbtFailure: bool, o: Outcome<Step>)
    requires o == Solve(false, n, nrhs, fails, gerbtInfo, solveInfo, cleanupOnGerbtFailure)
    ensures Touched(o.trace) * {DAo, DBo, DWork} == {}
    ensures Unrefined(Kernels(o.trace))
  {
    var nn := PaddedOrder(n);
    var setup := Setup(n, nn, nrhs);
    var solve := SolveSteps(false, nn, nrhs);
    var back := BackSteps(n, nn, nrhs);
    UnrefinedSteps(n, nn, nrhs);
    if !Succeeds(Allocations(false), fails) {
      AllocationFailure(false, n, nrhs, fails, gerbtInfo, solveInfo, cleanupOnGerbtFailure, o);
    } else {
      AllocatedTouches(false, n, nrhs, fails, gerbtInfo, solveInfo, cleanupOnGerbtFailure, o);
      UnrefinedAppend(setup, solve);
      if gerbtInfo != 0 {
        GerbtFailure(false, n, nrhs, fails, gerbtInfo, solveInfo, cleanupOnGerbtFailure, o);
      } else if DV in fails {
        DvFailure(false, n, nrhs, fails, gerbtInfo, solveInfo, cleanupOnGerbtFailure, o);
      } else {
        Success(false, n, nrhs, fails, gerbtInfo, solveInfo, cleanupOnGerbtFailure, o);
        UnrefinedAppend(setup + solve, back);
      }
    }
  }

  /** No saved copy and no refinement among the calls ks. */
  predicate Unrefined(ks: seq<Step>)
  {
    forall k :: k in ks ==> !k.CopyA? && !k.CopyB? && !k.Gerfs?
  }

  lemma {:induction false} UnrefinedAppend(a: seq<Step>, b: seq<Step>)
    requires Unrefined(a) && Unrefined(b)
    ensures Unrefined(a + b)
  {
  }

  /** Without refinement, the calls before the solve, the solve and the
      back transformation are neither saved copies nor the refinement. */
  lemma {:induction false} UnrefinedSteps(n: int, nn: int, nrhs: nat)
    ensures Unrefined(Setup(n, nn, nrhs)) && Unrefined(SolveSteps(false, nn, nrhs))
    ensures Unrefined(BackSteps(n, nn, nrhs))
  {
    assert SolveSteps(false, nn, nrhs) == [GesvNopiv(nn, nrhs)];
  }

  /** With refinement, a run that gets past the transformation saves dA
      and dB and refines the solution. */
  lemma {:induction false} WithRefine(n: nat, nrhs: nat, fails: set<Resource>,
                   solveInfo: int, cleanupOnGerbtFailure: bool, o: Outcome<Step>)
    requires Succeeds(Allocations(true), fails)
    requires o == Solve(true, n, nrhs, fails, 0, solveInfo, cleanupOnGerbtFailure)
    ensures var nn := PaddedOrder(n);
            CopyA(nn) in Kernels(o.trace) && CopyB(nn, nrhs) in Kernels(o.trace) && Gerfs(nn, nrhs) in Kernels(o.trace)
  {
    var nn := PaddedOrder(n);
    var ks := Setup(n, nn, nrhs) + SolveSteps(true, nn, nrhs);
    assert ks[4] == CopyA(nn) && ks[5] == CopyB(nn, nrhs) && ks[7] == Gerfs(nn, nrhs);
    if DV in fails {
      DvFailure(true, n, nrhs, fails, 0, solveInfo, cleanupOnGerbtFailure, o);
    } else {
      Success(true, n, nrhs, fails, 0, solveInfo, cleanupOnGerbtFailure, o);
      assert Kernels(o.trace)[..|ks|] == ks;
    }
  }

  /** dAo, dBo and dwork are allocated and freed, and the saved copies and
      the refinement run, only with refinement; with it, a run that gets
      past the transformation issues all three. */
  lemma {:induction false} RefineOnly(refine: Arg<bool>, n: int, nrhs: int, lda: int, ldb: int, fails: set<Resource>,
                   gerbtInfo: int, solveInfo: int, o: Outcome<Step>)
    requires o == DgesvRbt(refine, n, nrhs, lda, ldb, fails, gerbtInfo, solveInfo)
    ensures refine == Named(false) ==> Touched(o.trace) * {DAo, DBo, DWork} == {}
    ensures refine == Named(false) ==> Unrefined(Kernels(o.trace))
    ensures && refine == Named(true) && ValidateArgs(refine, n, nrhs, lda, ldb) == 0 && n > 0 && nrhs > 0
            && Succeeds(Allocations(true), fails) && gerbtInfo == 0
            ==> var nn := PaddedOrder(n);
                CopyA(nn) in Kernels(o.trace) && CopyB(nn, nrhs) in Kernels(o.trace) && Gerfs(nn, nrhs) in Kernels(o.trace)
  {
    if ValidateArgs(refine, n, nrhs, lda, ldb) == 0 && n > 0 && nrhs > 0 {
      if refine.value {
        if Succeeds(Allocations(true), fails) && gerbtInfo == 0 {
          WithRefine(n, nrhs, fails, solveInfo, true, o);
        }
      } else {
        WithoutRefine(n, nrhs, fails, gerbtInfo, solveInfo, true, o);
      }
    }
  }
}
