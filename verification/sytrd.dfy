/** magma_dsytrd_gpu: reduce a symmetric matrix to tridiagonal form. The
    numerical kernels are opaque; the model covers the argument checks, the
    workspace query, the choice of the crossover point nx, the blocked
    panel loops of both triangles, the final unblocked block and the
    workspace buffers. */
module Sytrd {
  import opened Common
  import opened Validation
  import opened Resources

  /** The calls of a reduction, in the driver's terms. */
  datatype Step =
    | Laset                                          // clear dwork (line 238)
    | Panel(i: int, rows: int, update: int)          // columns [i, i + nb): get panel, dlatrd on `rows` rows,
                                                     // set W, dsyr2k on the `update` x `update` trailing block
    | Unblocked(at: int, size: int)                  // lapackf77_dsytrd on the size x size block at (at, at)

  /** The argument chain of lines 175-188: uplo, n, ldda, lda, lwork; the
      workspace is not checked on a query (lwork == -1). */
  function Checks(uplo: Arg<Uplo>, n: int, ldda: int, lda: int, lwork: int, nb: int): seq<Check>
  {
    [ Check(uplo.Named?, -1),
      Check(n >= 0, -2),
      Check(ldda >= Max(1, n), -4),
      Check(lda >= Max(1, n), -9),
      Check(lwork >= nb * n || lwork == -1, -11) ]
  }

  function ValidateArgs(uplo: Arg<Uplo>, n: int, ldda: int, lda: int, lwork: int, nb: int): (info: int)
    ensures info == 0 <==> uplo.Named? && n >= 0 && ldda >= Max(1, n) && lda >= Max(1, n)
                           && (lwork >= nb * n || lwork == -1)
    ensures info == -1 <==> !uplo.Named?
    ensures info == -2 <==> uplo.Named? && n < 0
    ensures info == -4 <==> uplo.Named? && n >= 0 && ldda < Max(1, n)
    ensures info == -9 <==> uplo.Named? && n >= 0 && ldda >= Max(1, n) && lda < Max(1, n)
    ensures info == -11 <==> uplo.Named? && n >= 0 && ldda >= Max(1, n) && lda >= Max(1, n)
                             && lwork < nb * n && lwork != -1
  {
    var checks := Checks(uplo, n, ldda, lda, lwork, nb);
    FirstFailureDecodes(checks, 0);
    FirstFailureDecodes(checks, 1);
    FirstFailureDecodes(checks, 2);
    FirstFailureDecodes(checks, 3);
    FirstFailureDecodes(checks, 4);
    FirstFailure(checks)
  }

  /** The crossover point of lines 213-216: the unblocked code takes the
      whole matrix below 3000, otherwise the last 512 columns; either way
      no more than the matrix has (the requirement nx <= n of line 211). */
  function Nx(n: int): (nx: int)
    ensures n < 3000 ==> nx == n
    ensures 0 <= n ==> 0 <= nx <= n
    ensures n >= 3000 ==> nx == 512
  {
    if n < 3000 then n else 512
  }

  // The upper triangle: panels from the right, i = n - nb, n - 2nb, ... >= kk.

  /** The first column of the unblocked block (line 243). */
  function UpperStart(n: nat, nx: nat, nb: int): int
    requires nb >= 1 && nx <= n
  {
    n - RoundUp(n - nx, nb)
  }

  /** The loop of line 245 from column i down to kk. */
  function UpperPanels(i: int, kk: int, nb: int): (ps: seq<int>)
    requires nb >= 1
    ensures forall k :: 0 <= k < |ps| ==> kk <= ps[k] <= i
    decreases i - kk + 1
  {
    if i < kk then [] else [i] + UpperPanels(i - nb, kk, nb)
  }

  /** Panels of width nb starting at ps, descending, tile [lo, hi): the
      first ends at hi, each next one ends where the previous starts, and
      the last starts at lo. */
  predicate TilesDown(ps: seq<int>, lo: int, hi: int, nb: int)
  {
    && (|ps| == 0 <==> lo == hi)
    && (|ps| > 0 ==> ps[0] + nb == hi && ps[|ps| - 1] == lo)
    && (forall k :: 0 <= k < |ps| - 1 ==> ps[k + 1] + nb == ps[k])
  }

  /** When hi - lo is c whole panels, the loop down from hi - nb tiles
      [lo, hi) with c panels. */
  lemma {:induction false} UpperPanelsTile(i: int, kk: int, nb: int, c: nat)
    requires nb >= 1
    requires i + nb - kk == c * nb
    ensures TilesDown(UpperPanels(i, kk, nb), kk, i + nb, nb)
    ensures |UpperPanels(i, kk, nb)| == c
    decreases c
  {
    var ps := UpperPanels(i, kk, nb);
    if c == 0 {
      assert i < kk;
    } else {
      MulSucc(c - 1, nb);
      UpperPanelsTile(i - nb, kk, nb, c - 1);
      var rest := UpperPanels(i - nb, kk, nb);
      assert ps == [i] + rest;
      if |rest| > 0 {
        assert ps[|ps| - 1] == rest[|rest| - 1];
      }
      forall k | 0 <= k < |ps| - 1
        ensures ps[k + 1] + nb == ps[k]
      {
        if k > 0 {
          assert ps[k] == rest[k - 1] && ps[k + 1] == rest[k];
        }
      }
    }
  }

  /** Lines 243-245: the upper panels exactly tile [kk, n), and the block
      kk x kk left to the unblocked code is at most nx wide and more than
      nx - nb wide; with nb <= nx, kk >= 0, so every panel lies inside the
      matrix. */
  lemma {:induction false} UpperTiles(n: nat, nx: nat, nb: int)
    requires nb >= 1 && nx <= n
    ensures TilesDown(UpperPanels(n - nb, UpperStart(n, nx, nb), nb), UpperStart(n, nx, nb), n, nb)
    ensures nx - nb < UpperStart(n, nx, nb) <= nx
    ensures nb <= nx ==> 0 <= UpperStart(n, nx, nb)
  {
    var q := CeilDiv(n - nx, nb);
    UpperPanelsTile(n - nb, UpperStart(n, nx, nb), nb, q);
  }

  // The lower triangle: panels from the left, i = 0, nb, ... < n - nx.

  /** The loop of line 281 from column i while i < lim. */
  function LowerPanels(i: int, lim: int, nb: int): (ps: seq<int>)
    requires nb >= 1
    ensures forall k :: 0 <= k < |ps| ==> i <= ps[k] < lim
    decreases lim - i
  {
    if i < lim then [i] + LowerPanels(i + nb, lim, nb) else []
  }

  /** The value of i when that loop exits: the first i + c * nb that is
      not below lim. */
  function LowerEnd(i: int, lim: int, nb: int): (e: int)
    requires nb >= 1
    ensures i <= e && lim <= e
    ensures i < lim ==> e < lim + nb
    decreases lim - i
  {
    if i < lim then LowerEnd(i + nb, lim, nb) else i
  }

  /** Panels of width nb starting at ps, ascending, tile [lo, hi). */
  predicate TilesUp(ps: seq<int>, lo: int, hi: int, nb: int)
  {
    && (|ps| == 0 <==> lo == hi)
    && (|ps| > 0 ==> ps[0] == lo && ps[|ps| - 1] + nb == hi)
    && (forall k :: 0 <= k < |ps| - 1 ==> ps[k] + nb == ps[k + 1])
  }

  /** Every panel [ps[k], ps[k] + nb) ends inside the n columns. */
  predicate Inside(ps: seq<int>, nb: int, n: int)
  {
    forall k :: 0 <= k < |ps| ==> ps[k] + nb <= n
  }

  /** The loop from i exits at i + c * nb for the least c with
      i + c * nb >= lim, having tiled [i, exit) with c panels. */
  lemma {:induction false} LowerPanelsTile(i: int, lim: int, nb: int, ps: seq<int>, e: int)
    requires nb >= 1
    requires ps == LowerPanels(i, lim, nb) && e == LowerEnd(i, lim, nb)
    ensures TilesUp(ps, i, e, nb)
    ensures e == i + |ps| * nb
    ensures e >= lim
    ensures |ps| > 0 ==> e - nb < lim
    decreases lim - i
  {
    if i < lim {
      var rest := LowerPanels(i + nb, lim, nb);
      LowerPanelsTile(i + nb, lim, nb, rest, e);
      assert ps == [i] + rest;
      MulSucc(|rest|, nb);
      if |rest| > 0 {
        assert ps[|ps| - 1] == rest[|rest| - 1];
      }
      forall k | 0 <= k < |ps| - 1
        ensures ps[k] + nb == ps[k + 1]
      {
        if k > 0 {
          assert ps[k] == rest[k - 1] && ps[k + 1] == rest[k];
        }
      }
    }
  }

  lemma {:induction false} MulSucc(c: int, nb: int)
    ensures (c + 1) * nb == c * nb + nb
  {
  }

  /** Lines 281 and 310-313: the lower loop exits at the first multiple of
      nb at or above n - nx, which is RoundUp(n - nx, nb); its panels tile
      [0, i). With nb <= nx every panel lies inside the matrix and the
      final block n - i is between 0 and nx. */
  lemma {:induction false} LowerTiles(n: nat, nx: nat, nb: int)
    requires nb >= 1 && nx <= n
    ensures TilesUp(LowerPanels(0, n - nx, nb), 0, LowerEnd(0, n - nx, nb), nb)
    ensures LowerEnd(0, n - nx, nb) == RoundUp(n - nx, nb)
    ensures nb <= nx ==> 0 <= n - LowerEnd(0, n - nx, nb) <= nx
    ensures nb <= nx ==> Inside(LowerPanels(0, n - nx, nb), nb, n)
  {
    var lim := n - nx;
    var e, ps := LowerEnd(0, lim, nb), LowerPanels(0, lim, nb);
    LowerPanelsTile(0, lim, nb, ps, e);
    var c := |ps|;
    var q := CeilDiv(lim, nb);
    RoundUpIsLeast(lim, nb, c);
    if c > 0 {
      if q <= c - 1 {
        MulMonotone(q, c - 1, nb);
        assert false;
      }
      MulMonotone(c, q, nb);
    } else {
      assert lim <= 0;
    }
  }

  /** Both triangles leave the same block to the unblocked code: the lower
      loop exits at n - kk, where kk is the size of the upper one's block. */
  lemma {:induction false} UnblockedBlocksAgree(n: nat, nx: nat, nb: int)
    requires nb >= 1 && nx <= n
    ensures n - LowerEnd(0, n - nx, nb) == UpperStart(n, nx, nb)
  {
    LowerTiles(n, nx, nb);
  }

  /** The calls of the reduction of a valid, non-empty matrix, after the
      workspace is allocated (lines 238-317): dwork is cleared first, the
      blocked panels follow, and the unblocked code finishes; it gets a
      block of the same size in both triangles, in the top left corner for
      the upper and in the bottom right corner for the lower. */
  function ReduceSteps(uplo: Uplo, n: nat, nb: int): (ks: seq<Step>)
    requires nb >= 1
    ensures |ks| >= 2 && ks[0] == Laset
    ensures forall k :: 0 < k < |ks| - 1 ==> ks[k].Panel?
    ensures var kk := UpperStart(n, Nx(n), nb);
            ks[|ks| - 1] == if uplo == Upper then Unblocked(0, kk) else Unblocked(n - kk, kk)
  {
    var nx := Nx(n);
    UnblockedBlocksAgree(n, nx, nb);
    if uplo == Upper then
      var kk := UpperStart(n, nx, nb);
      var ps := UpperPanels(n - nb, kk, nb);
      [Laset] + seq(|ps|, k requires 0 <= k < |ps| => Panel(ps[k], ps[k] + nb, ps[k])) + [Unblocked(0, kk)]
    else
      var ps := LowerPanels(0, n - nx, nb);
      var i := LowerEnd(0, n - nx, nb);
      [Laset] + seq(|ps|, k requires 0 <= k < |ps| => Panel(ps[k], n - ps[k], n - ps[k] - nb)) + [Unblocked(i, n - i)]
  }

  /** Below 3000 no blocked panel runs in either triangle and the unblocked
      code reduces the whole n x n matrix. */
  lemma {:induction false} SmallIsUnblocked(uplo: Uplo, n: nat, nb: int)
    requires nb >= 1 && n < 3000
    ensures ReduceSteps(uplo, n, nb) == [Laset, Unblocked(0, n)]
  {
    assert Nx(n) == n;
    assert RoundUp(0, nb) == 0;
    assert UpperPanels(n - nb, n, nb) == [];
    assert LowerPanels(0, 0, nb) == [];
  }

  /** What the driver returns: the status, what it did, and what it left in
      work[0] (None when it did not write it). */
  datatype Result = Result(o: Outcome<Step>, work0: Option<int>)

  /** magma_dsytrd_gpu. `nb` is what magma_get_dsytrd_nb(n) returns;
      `hostAllocFails` and `deviceAllocFails` stand for the allocations of
      work2 and dwork failing. */
  function DsytrdGpu(uplo: Arg<Uplo>, n: int, ldda: int, lda: int, lwork: int, nb: int,
                     hostAllocFails: bool, deviceAllocFails: bool): (r: Result)
    requires nb >= 1
    ensures ValidateArgs(uplo, n, ldda, lda, lwork, nb) != 0
            ==> r.o.info == ValidateArgs(uplo, n, ldda, lda, lwork, nb) && r.o.trace == [] && r.work0 == None
    ensures ValidateArgs(uplo, n, ldda, lda, lwork, nb) == 0 && lwork == -1
            ==> r.o.info == 0 && r.o.trace == [] && r.work0 == Some(n * nb)
    ensures ValidateArgs(uplo, n, ldda, lda, lwork, nb) == 0 && lwork != -1 && n == 0
            ==> r.o.info == 0 && r.o.trace == [] && r.work0 == Some(1)
    ensures ValidateArgs(uplo, n, ldda, lda, lwork, nb) == 0 && lwork != -1 && n > 0 && hostAllocFails
            ==> r.o.info == ErrHostAlloc && r.o.trace == [AcquireFailed(Work2)]
    ensures ValidateArgs(uplo, n, ldda, lda, lwork, nb) == 0 && lwork != -1 && n > 0 && !hostAllocFails
            && deviceAllocFails
            ==> r.o.info == ErrDeviceAlloc && r.o.trace == [Acquire(Work2), AcquireFailed(DWork), Release(Work2)]
    ensures ValidateArgs(uplo, n, ldda, lda, lwork, nb) == 0 && lwork != -1 && n > 0 && !hostAllocFails
            && !deviceAllocFails
            ==> r.o.info == 0 && Kernels(r.o.trace) == ReduceSteps(uplo.value, n, nb)
    ensures Kernels(r.o.trace) != [] <==> r.o.info == 0 && lwork != -1 && n > 0
    ensures Kernels(r.o.trace) != [] ==> uplo.Named? && Kernels(r.o.trace) == ReduceSteps(uplo.value, n, nb)
    ensures ValidateArgs(uplo, n, ldda, lda, lwork, nb) == 0 && lwork != -1 && n > 0 ==> r.work0 == Some(n * nb)
    ensures Held(r.o.trace) == {}
  {
    var info := ValidateArgs(uplo, n, ldda, lda, lwork, nb);
    var lwkopt := n * nb;
    if info != 0 then Result(Outcome(info, []), None)
    else if lwork == -1 then Result(Outcome(0, []), Some(lwkopt))
    else if n == 0 then Result(Outcome(0, []), Some(1))
    else if hostAllocFails then
      var t: seq<Event<Step>> := [AcquireFailed(Work2)];
      assert Held(t) == {} && Kernels(t) == [];
      Result(Outcome(ErrHostAlloc, t), Some(lwkopt))
    else if deviceAllocFails then
      var t: seq<Event<Step>> := [Acquire(Work2), AcquireFailed(DWork), Release(Work2)];
      assert Held(t) == {} && Kernels(t) == [];
      Result(Outcome(ErrDeviceAlloc, t), Some(lwkopt))
    else Result(Reduce(uplo.value, n, nb), Some(lwkopt))
  }

  /** Lines 218-321 once both allocations succeed: work2, dwork and the
      queue are held around the reduction, and freed after it; the status
      stays 0. */
  function Reduce(uplo: Uplo, n: nat, nb: int): (o: Outcome<Step>)
    requires nb >= 1
    ensures o.info == 0
    ensures Kernels(o.trace) == ReduceSteps(uplo, n, nb) && Kernels(o.trace) != []
    ensures Held(o.trace) == {}
  {
    var pre: seq<Event<Step>> := [Acquire(Work2), Acquire(DWork), Acquire(Queue)];
    var post: seq<Event<Step>> := [Release(DWork), Release(Work2), Release(Queue)];
    var ks := ReduceSteps(uplo, n, nb);
    Bracket(pre, ks, post);
    assert Held(pre) == {Work2, DWork, Queue} && Kernels(pre) == [];
    assert HeldAfter({Work2, DWork, Queue}, post) == {} && Kernels(post) == [];
    Outcome(0, pre + Runs(ks) + post)
  }
}
