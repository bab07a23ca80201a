/** magma_cgetrf_recpanel_vbatched: recursive LU factorization of one
    max_m x max_n panel (max_m >= max_n), split in two column halves until
    a half is at most min_recpnb wide, where the unblocked getf2 takes
    over.

    The model follows one matrix of the batch, driven by the shared max_*
    control values. Numerical values are not modelled: each entry of the
    matrix is a row label (the original row it came from), so the state
    records exactly where the row interchanges have moved each row, column
    by column. The pivots the unblocked factorization chooses are an
    oracle, `factor`, of the leaf's position and size. */
module RecPanel {
  import opened Common
  import opened Laswp

  /** One call of the unblocked factorization magma_cgetf2_vbatched: the
      m x n block at row ai, column aj, reporting singular steps from
      gbstep on. */
  datatype Leaf = Leaf(ai: int, aj: int, m: int, n: int, gbstep: int)

  /** The calls of the recursion, in issue order. */
  datatype Op =
    | Getf2(leaf: Leaf)
    | SwapRight(ncols: int, ai: int, aj: int, pivAt: int, k1: int, k2: int)
    | Trsm(side: Side, uplo: Uplo, trans: Trans, diag: Diag, m: int, n: int, ai: int, aj: int, bi: int, bj: int)
    | Gemm(m: int, n: int, k: int, ai: int, aj: int, bi: int, bj: int, ci: int, cj: int)
    | SwapLeft(ncols: int, ai: int, aj: int, pivAt: int, k1: int, k2: int)
    | Adjust(at: int, count: int, offset: int)

  /** The matrix, column by column (each column lists the row labels
      from top to bottom), and the pivot array. */
  datatype State = State(cols: seq<seq<int>>, ipiv: seq<int>)

  /** What a call returns (always 0), the state after it, and its calls. */
  datatype Run = Run(info: int, state: State, trace: seq<Op>)

  /** LAPACK getf2 pivots of an m-row, n-column block: the k-th (0-based)
      pivot is a 1-based row at or below row k + 1, inside the block. */
  predicate LuPivots(p: seq<int>, n: int, m: int)
  {
    |p| == n && forall k :: 0 <= k < n ==> k + 1 <= p[k] <= m
  }

  /** The oracle returns LAPACK getf2 pivots for every block it is asked
      about. */
  ghost predicate GoodFactor(factor: (int, int, int, int) -> seq<int>)
  {
    forall ai, aj, m, n :: 0 <= n <= m ==> LuPivots(factor(ai, aj, m, n), n, m)
  }

  /** The block at (ai, aj) of size m x n lies inside the matrix, its
      pivots inside the pivot array, and m >= n. */
  predicate Fits(s: State, ai: int, aj: int, m: int, n: int)
  {
    && 0 <= ai && 0 <= aj && 0 <= n <= m
    && aj + n <= |s.cols|
    && ai + n <= |s.ipiv|
    && forall c :: 0 <= c < |s.cols| ==> ai + m <= |s.cols[c]|
  }

  /** The column split of lines 39-40. */
  function Split(maxN: int, minRecpnb: int): (n1: int)
    requires 1 <= minRecpnb < maxN
    ensures 1 <= n1 < maxN && 1 <= maxN - n1 < maxN
    ensures minRecpnb <= n1 && maxN - n1 <= n1 + 1
  {
    Max(minRecpnb, maxN / 2)
  }

  lemma {:induction false} LuApplicable(b: seq<int>, p: seq<int>, k: int, m: int)
    requires LuPivots(p, k, m) && m <= |b|
    ensures Applicable(b, p, k)
  {
    if k > 0 {
      assert k <= p[k - 1] <= m;
    }
  }

  /** Apply all the pivots p to the rows from r0 on of the n columns from
      c0 on (a claswp on that block); p are getf2 pivots of a block of m
      rows. */
  function PermuteRows(cols: seq<seq<int>>, c0: int, n: int, r0: int, p: seq<int>, m: int): (r: seq<seq<int>>)
    requires 0 <= c0 && 0 <= n && c0 + n <= |cols| && 0 <= r0 && 0 <= m
    requires LuPivots(p, |p|, m)
    requires forall c :: 0 <= c < |cols| ==> r0 + m <= |cols[c]|
    ensures |r| == |cols|
    ensures forall c :: 0 <= c < |cols| ==> |r[c]| == |cols[c]|
    ensures forall c :: 0 <= c < |cols| && !(c0 <= c < c0 + n) ==> r[c] == cols[c]
    ensures forall c :: c0 <= c < c0 + n ==> Applicable(cols[c][r0..], p, |p|) && r[c] == ForwardFrom(cols[c], r0, p, |p|)
  {
    seq(|cols|, c requires 0 <= c < |cols| =>
      if c0 <= c < c0 + n then
        LuApplicable(cols[c][r0..], p, |p|, m);
        ForwardFrom(cols[c], r0, p, |p|)
      else cols[c])
  }

  /** The n pivots stored from position `at` on. */
  function Pivots(ipiv: seq<int>, at: int, n: int): (p: seq<int>)
    requires 0 <= at && 0 <= n && at + n <= |ipiv|
    ensures |p| == n && forall k :: 0 <= k < n ==> p[k] == ipiv[at + k]
  {
    ipiv[at..at + n]
  }

  /** Store the pivots p at position `at` of the pivot array. */
  function Store(ipiv: seq<int>, at: int, p: seq<int>): (r: seq<int>)
    requires 0 <= at && at + |p| <= |ipiv|
    ensures |r| == |ipiv|
    ensures Pivots(r, at, |p|) == p
    ensures forall i :: 0 <= i < |ipiv| && !(at <= i < at + |p|) ==> r[i] == ipiv[i]
  {
    var r := ipiv[..at] + p + ipiv[at + |p|..];
    assert Pivots(r, at, |p|) == p;
    r
  }

  /** adjust_ipiv_vbatched: add `offset` to the `count` pivots at `at`. */
  function AdjustPivots(ipiv: seq<int>, at: int, count: int, offset: int): (r: seq<int>)
    requires 0 <= at && 0 <= count && at + count <= |ipiv|
    ensures |r| == |ipiv|
    ensures Pivots(r, at, count) == Shift(Pivots(ipiv, at, count), offset)
    ensures forall i :: 0 <= i < |ipiv| && !(at <= i < at + count) ==> r[i] == ipiv[i]
  {
    var r := seq(|ipiv|, i requires 0 <= i < |ipiv| => if at <= i < at + count then ipiv[i] + offset else ipiv[i]);
    assert Pivots(r, at, count) == Shift(Pivots(ipiv, at, count), offset);
    r
  }

  /** The base case (lines 30-37): getf2 chooses pivots for the whole
      panel, stores them from row ai on, and interchanges the rows of the
      panel's columns accordingly. */
  function LeafRun(s: State, ai: int, aj: int, maxM: int, maxN: int, gbstep: int,
                   factor: (int, int, int, int) -> seq<int>): (r: Run)
    requires Fits(s, ai, aj, maxM, maxN)
    requires GoodFactor(factor)
    ensures r.info == 0
    ensures PivotsWritten(s, r.state, ai, maxM, maxN)
    ensures RowsPermuted(s.cols, r.state.cols, aj, maxN, ai, Pivots(r.state.ipiv, ai, maxN))
    ensures r.trace == [Getf2(Leaf(ai, aj, maxM, maxN, gbstep))]
  {
    var p := factor(ai, aj, maxM, maxN);
    var cols := PermuteRows(s.cols, aj, maxN, ai, p, maxM);
    PermuteRowsMeaning(s.cols, aj, maxN, ai, p, maxM);
    Run(0, State(cols, Store(s.ipiv, ai, p)), [Getf2(Leaf(ai, aj, maxM, maxN, gbstep))])
  }

  /** The state after swap-right (lines 50-57): the pivots of the left half,
      applied to the rows from ai on of the right half's columns. */
  function SwapRightState(s: State, ai: int, aj: int, maxM: int, n1: int, n2: int): (r: State)
    requires Fits(s, ai, aj, maxM, n1 + n2) && 0 <= n1 && 0 <= n2
    requires LuPivots(Pivots(s.ipiv, ai, n1), n1, maxM)
    ensures r.ipiv == s.ipiv && |r.cols| == |s.cols|
    ensures forall c :: 0 <= c < |s.cols| ==> |r.cols[c]| == |s.cols[c]|
    ensures forall c :: 0 <= c < |s.cols| && !(aj + n1 <= c < aj + n1 + n2) ==> r.cols[c] == s.cols[c]
    ensures forall c :: aj + n1 <= c < aj + n1 + n2 ==> r.cols[c] == ForwardFrom(s.cols[c], ai, Pivots(s.ipiv, ai, n1), n1)
  {
    State(PermuteRows(s.cols, aj + n1, n2, ai, Pivots(s.ipiv, ai, n1), maxM), s.ipiv)
  }

  /** The state after swap-left (lines 85-91): the pivots of the right half
      (still relative to row ai + n1), applied to the rows from ai + n1 on
      of the left half's columns. */
  function SwapLeftState(s: State, ai: int, aj: int, maxM: int, n1: int, n2: int): (r: State)
    requires Fits(s, ai, aj, maxM, n1 + n2) && 0 <= n1 && 0 <= n2
    requires LuPivots(Pivots(s.ipiv, ai + n1, n2), n2, maxM - n1)
    ensures r.ipiv == s.ipiv && |r.cols| == |s.cols|
    ensures forall c :: 0 <= c < |s.cols| ==> |r.cols[c]| == |s.cols[c]|
    ensures forall c :: 0 <= c < |s.cols| && !(aj <= c < aj + n1) ==> r.cols[c] == s.cols[c]
    ensures forall c :: aj <= c < aj + n1 ==> r.cols[c] == ForwardFrom(s.cols[c], ai + n1, Pivots(s.ipiv, ai + n1, n2), n2)
  {
    State(PermuteRows(s.cols, aj, n1, ai + n1, Pivots(s.ipiv, ai + n1, n2), maxM - n1), s.ipiv)
  }

  /** The calls issued between the two halves and after the second one. */
  function Middle(ai: int, aj: int, maxM: int, n1: int, n2: int): seq<Op>
  {
    [ SwapRight(n2, ai, aj + n1, ai, 0, n1),
      Trsm(Left, Lower, NoTrans, Unit, n1, n2, ai, aj, ai, aj + n1),
      Gemm(maxM - n1, n2, n1, ai + n1, aj, ai, aj + n1, ai + n1, aj + n1) ]
  }

  function Tail(ai: int, aj: int, n1: int, n2: int): seq<Op>
  {
    [ SwapLeft(n1, ai + n1, aj, ai + n1, 0, n2),
      Adjust(ai + n1, n2, n1) ]
  }

  /** What every call promises about the state it leaves: the matrix keeps
      its shape, the pivots outside rows [ai, ai + n) are as before, and the
      panel's own pivots are LAPACK getf2 pivots of an m x n block. */
  predicate PivotsWritten(s: State, t: State, ai: int, m: int, n: int)
    requires 0 <= ai && 0 <= n && ai + n <= |s.ipiv|
  {
    && |t.cols| == |s.cols|
    && (forall c :: 0 <= c < |s.cols| ==> |t.cols[c]| == |s.cols[c]|)
    && |t.ipiv| == |s.ipiv|
    && (forall i :: 0 <= i < |s.ipiv| && !(ai <= i < ai + n) ==> t.ipiv[i] == s.ipiv[i])
    && LuPivots(Pivots(t.ipiv, ai, n), n, m)
  }

  /** The calls a panel issues, computed from the control values alone:
      the getf2 leaf, or the left half's calls, the three calls in between,
      the right half's calls and the two closing calls. */
  function Schedule(ai: int, aj: int, maxM: int, maxN: int, minRecpnb: int, gbstep: int): (t: seq<Op>)
    requires 1 <= minRecpnb && 0 <= maxN
    decreases maxN
  {
    if maxN <= minRecpnb then
      [Getf2(Leaf(ai, aj, maxM, maxN, gbstep))]
    else
      var n1 := Split(maxN, minRecpnb);
      var n2 := maxN - n1;
      Schedule(ai, aj, maxM, n1, minRecpnb, gbstep) + Middle(ai, aj, maxM, n1, n2)
        + Schedule(ai + n1, aj + n1, maxM - n1, n2, minRecpnb, gbstep + n1) + Tail(ai, aj, n1, n2)
  }

  /** magma_cgetrf_recpanel_vbatched on the panel at (ai, aj): the base
      case when the panel is at most min_recpnb wide, otherwise the left
      half n1 = max(min_recpnb, max_n / 2) and then the right half. */
  function RecPanel(s: State, ai: int, aj: int, maxM: int, maxN: int, minRecpnb: int, gbstep: int,
                    factor: (int, int, int, int) -> seq<int>): (r: Run)
    requires 1 <= minRecpnb
    requires Fits(s, ai, aj, maxM, maxN)
    requires GoodFactor(factor)
    ensures r.info == 0
    ensures PivotsWritten(s, r.state, ai, maxM, maxN)
    ensures RowsPermuted(s.cols, r.state.cols, aj, maxN, ai, Pivots(r.state.ipiv, ai, maxN))
    ensures r.trace == Schedule(ai, aj, maxM, maxN, minRecpnb, gbstep)
    decreases maxN, 2
  {
    if maxN <= minRecpnb then
      LeafRun(s, ai, aj, maxM, maxN, gbstep, factor)
    else
      var n1 := Split(maxN, minRecpnb);
      var r1 := RecPanel(s, ai, aj, maxM, n1, minRecpnb, gbstep, factor);
      RightHalf(s, r1, ai, aj, maxM, n1, maxN, minRecpnb, gbstep, factor)
  }

  /** A split panel's calls: the left half's, the three in between, the
      right half's and the two closing ones. */
  lemma {:induction false} ScheduleSplit(ai: int, aj: int, maxM: int, n: int, minRecpnb: int, gbstep: int,
                                         n1: int, n2: int, t1: seq<Op>, t2: seq<Op>)
    requires 1 <= minRecpnb < n && n1 == Split(n, minRecpnb) && n2 == n - n1
    requires t1 == Schedule(ai, aj, maxM, n1, minRecpnb, gbstep)
    requires t2 == Schedule(ai + n1, aj + n1, maxM - n1, n2, minRecpnb, gbstep + n1)
    ensures Schedule(ai, aj, maxM, n, minRecpnb, gbstep) == t1 + Middle(ai, aj, maxM, n1, n2) + t2 + Tail(ai, aj, n1, n2)
  {
  }

  /** Lines 50-83: swap-right, trsm and gemm on the right half, then the
      recursive call on it, below the left half's rows. */
  function RightHalf(s: State, r1: Run, ai: int, aj: int, maxM: int, n1: int, n: int,
                     minRecpnb: int, gbstep: int, factor: (int, int, int, int) -> seq<int>): (r: Run)
    requires 1 <= minRecpnb < n && n1 == Split(n, minRecpnb)
    requires Fits(s, ai, aj, maxM, n)
    requires GoodFactor(factor)
    requires PivotsWritten(s, r1.state, ai, maxM, n1)
    requires RowsPermuted(s.cols, r1.state.cols, aj, n1, ai, Pivots(r1.state.ipiv, ai, n1))
    requires r1.trace == Schedule(ai, aj, maxM, n1, minRecpnb, gbstep)
    ensures r.info == 0
    ensures PivotsWritten(s, r.state, ai, maxM, n)
    ensures RowsPermuted(s.cols, r.state.cols, aj, n, ai, Pivots(r.state.ipiv, ai, n))
    ensures r.trace == Schedule(ai, aj, maxM, n, minRecpnb, gbstep)
    decreases n, 1
  {
    var n2 := n - n1;
    var s2 := SwapRightState(r1.state, ai, aj, maxM, n1, n2);
    var r2 := RecPanel(s2, ai + n1, aj + n1, maxM - n1, n2, minRecpnb, gbstep + n1, factor);
    ScheduleSplit(ai, aj, maxM, n, minRecpnb, gbstep, n1, n2, r1.trace, r2.trace);
    Finish(s, r1, s2, r2, ai, aj, maxM, n1, n2, n)
  }

  /** Lines 85-94: swap-left on the left half with the right half's
      pivots, then the right half's pivots re-based by n1. */
  function Finish(s: State, r1: Run, s2: State, r2: Run, ai: int, aj: int, maxM: int, n1: int, n2: int, n: int): (r: Run)
    requires 1 <= n1 && 1 <= n2 && n == n1 + n2
    requires Fits(s, ai, aj, maxM, n)
    requires PivotsWritten(s, r1.state, ai, maxM, n1)
    requires RowsPermuted(s.cols, r1.state.cols, aj, n1, ai, Pivots(r1.state.ipiv, ai, n1))
    requires s2 == SwapRightState(r1.state, ai, aj, maxM, n1, n2)
    requires PivotsWritten(s2, r2.state, ai + n1, maxM - n1, n2)
    requires RowsPermuted(s2.cols, r2.state.cols, aj + n1, n2, ai + n1, Pivots(r2.state.ipiv, ai + n1, n2))
    ensures r.info == 0
    ensures PivotsWritten(s, r.state, ai, maxM, n)
    ensures RowsPermuted(s.cols, r.state.cols, aj, n, ai, Pivots(r.state.ipiv, ai, n))
    ensures r.trace == r1.trace + Middle(ai, aj, maxM, n1, n2) + r2.trace + Tail(ai, aj, n1, n2)
  {
    var p1 := Pivots(r1.state.ipiv, ai, n1);
    var p2 := Pivots(r2.state.ipiv, ai + n1, n2);
    var s3 := SwapLeftState(r2.state, ai, aj, maxM, n1, n2);
    var ipiv := AdjustPivots(s3.ipiv, ai + n1, n2, n1);
    CombinedPivots(s.ipiv, r1.state.ipiv, r2.state.ipiv, ipiv, ai, maxM, n1, n2, n);
    PermuteRowsMeaning(r1.state.cols, aj + n1, n2, ai, p1, maxM);
    PermuteRowsMeaning(r2.state.cols, aj, n1, ai + n1, p2, maxM - n1);
    ComposeHalves(s.cols, r1.state.cols, s2.cols, r2.state.cols, s3.cols, aj, ai, n1, n2, p1, p2);
    SameWidth(s.cols, s3.cols, aj, n1 + n2, n, ai, Combine(p1, p2));
    Run(0, State(s3.cols, ipiv), r1.trace + Middle(ai, aj, maxM, n1, n2) + r2.trace + Tail(ai, aj, n1, n2))
  }

  /** The pivots a split panel leaves: the left half's pivots followed by
      the right half's, re-based by n1. */
  lemma {:induction false} CombinedPivots(ipiv0: seq<int>, ipiv1: seq<int>, ipiv2: seq<int>, ipiv: seq<int>,
                       ai: int, maxM: int, n1: int, n2: int, n: int)
    requires 0 <= ai && 1 <= n1 && 0 <= n2 && n == n1 + n2 && ai + n <= |ipiv0|
    requires |ipiv1| == |ipiv2| == |ipiv| == |ipiv0|
    requires forall i :: 0 <= i < |ipiv0| && !(ai <= i < ai + n1) ==> ipiv1[i] == ipiv0[i]
    requires forall i :: 0 <= i < |ipiv1| && !(ai + n1 <= i < ai + n1 + n2) ==> ipiv2[i] == ipiv1[i]
    requires forall i :: 0 <= i < |ipiv2| && !(ai + n1 <= i < ai + n1 + n2) ==> ipiv[i] == ipiv2[i]
    requires Pivots(ipiv, ai + n1, n2) == Shift(Pivots(ipiv2, ai + n1, n2), n1)
    requires LuPivots(Pivots(ipiv1, ai, n1), n1, maxM)
    requires LuPivots(Pivots(ipiv2, ai + n1, n2), n2, maxM - n1)
    ensures forall i :: 0 <= i < |ipiv0| && !(ai <= i < ai + n) ==> ipiv[i] == ipiv0[i]
    ensures Pivots(ipiv, ai, n) == Combine(Pivots(ipiv1, ai, n1), Pivots(ipiv2, ai + n1, n2))
    ensures LuPivots(Pivots(ipiv, ai, n), n, maxM)
  {
    var p1 := Pivots(ipiv1, ai, n1);
    var p2 := Pivots(ipiv2, ai + n1, n2);
    var w := Pivots(ipiv, ai, n);
    var c := Combine(p1, p2);
    forall k | 0 <= k < n
      ensures w[k] == c[k]
    {
      if k < n1 {
        assert w[k] == ipiv[ai + k] == ipiv2[ai + k] == ipiv1[ai + k];
      } else {
        assert w[k] == Pivots(ipiv, ai + n1, n2)[k - n1];
        assert c[n1 + (k - n1)] == p2[k - n1] + n1;
      }
    }
    assert w == c;
    forall k | 0 <= k < n
      ensures k + 1 <= w[k] <= maxM
    {
      if k >= n1 {
        assert c[n1 + (k - n1)] == p2[k - n1] + n1;
      }
    }
  }

  // The row interchanges of the whole recursion.

  /** The n columns from c0 on of `after` are those of `before` with the
      rows from r0 on interchanged by all of p; the other columns are as
      before. */
  predicate RowsPermuted(before: seq<seq<int>>, after: seq<seq<int>>, c0: int, n: int, r0: int, p: seq<int>)
  {
    && |after| == |before|
    && (forall c :: 0 <= c < |before| && !(c0 <= c < c0 + n) ==> after[c] == before[c])
    && (forall c :: c0 <= c < c0 + n ==>
          && 0 <= c < |before| && 0 <= r0 <= |before[c]|
          && Applicable(before[c][r0..], p, |p|)
          && after[c] == ForwardFrom(before[c], r0, p, |p|))
  }

  /** RowsPermuted for a width written two ways. */
  lemma {:induction false} SameWidth(before: seq<seq<int>>, after: seq<seq<int>>, c0: int, k: int, n: int, r0: int, p: seq<int>)
    requires k == n && RowsPermuted(before, after, c0, k, r0, p)
    ensures RowsPermuted(before, after, c0, n, r0, p)
  {
  }

  lemma {:induction false} PermuteRowsMeaning(cols: seq<seq<int>>, c0: int, n: int, r0: int, p: seq<int>, m: int)
    requires 0 <= c0 && 0 <= n && c0 + n <= |cols| && 0 <= r0 && 0 <= m
    requires LuPivots(p, |p|, m)
    requires forall c :: 0 <= c < |cols| ==> r0 + m <= |cols[c]|
    ensures RowsPermuted(cols, PermuteRows(cols, c0, n, r0, p, m), c0, n, r0, p)
  {
  }

  /** The four interchanges of a split panel compose: the left half's
      pivots on its own columns, swap-right (the same pivots on the right
      half's columns), the right half's pivots on its own columns, then
      swap-left (the same pivots on the left half's columns) interchange
      every column of the panel by the combined pivots. */
  lemma {:induction false} ComposeHalves(c0: seq<seq<int>>, c1: seq<seq<int>>, c2: seq<seq<int>>, c3: seq<seq<int>>, c4: seq<seq<int>>,
                      aj: int, ai: int, n1: int, n2: int, p1: seq<int>, p2: seq<int>)
    requires 0 <= aj && 0 <= ai && 0 <= n1 && 0 <= n2 && aj + n1 + n2 <= |c0|
    requires |p1| == n1 && |p2| == n2
    requires RowsPermuted(c0, c1, aj, n1, ai, p1)
    requires RowsPermuted(c1, c2, aj + n1, n2, ai, p1)
    requires RowsPermuted(c2, c3, aj + n1, n2, ai + n1, p2)
    requires RowsPermuted(c3, c4, aj, n1, ai + n1, p2)
    ensures RowsPermuted(c0, c4, aj, n1 + n2, ai, Combine(p1, p2))
  {
    var w := Combine(p1, p2);
    forall c | aj <= c < aj + n1 + n2
      ensures 0 <= c < |c0| && 0 <= ai <= |c0[c]|
      ensures Applicable(c0[c][ai..], w, |w|)
      ensures c4[c] == ForwardFrom(c0[c], ai, w, |w|)
    {
      ComposeColumn(c0, c1, c2, c3, c4, aj, ai, n1, n2, p1, p2, w, c);
    }
  }

  /** ComposeHalves for one column c of the panel. */
  lemma {:induction false} ComposeColumn(c0: seq<seq<int>>, c1: seq<seq<int>>, c2: seq<seq<int>>, c3: seq<seq<int>>, c4: seq<seq<int>>,
                      aj: int, ai: int, n1: int, n2: int, p1: seq<int>, p2: seq<int>, w: seq<int>, c: int)
    requires 0 <= aj && 0 <= ai && 0 <= n1 && 0 <= n2 && aj + n1 + n2 <= |c0|
    requires |p1| == n1 && |p2| == n2 && w == Combine(p1, p2)
    requires RowsPermuted(c0, c1, aj, n1, ai, p1)
    requires RowsPermuted(c1, c2, aj + n1, n2, ai, p1)
    requires RowsPermuted(c2, c3, aj + n1, n2, ai + n1, p2)
    requires RowsPermuted(c3, c4, aj, n1, ai + n1, p2)
    requires aj <= c < aj + n1 + n2
    ensures 0 <= c < |c0| && 0 <= ai <= |c0[c]|
    ensures Applicable(c0[c][ai..], w, |w|)
    ensures c4[c] == ForwardFrom(c0[c], ai, w, |w|)
  {
    if c < aj + n1 {
      assert c3[c] == c2[c] == c1[c];
      ColumnComposes(c0[c], c1[c], c4[c], ai, ai + n1, p1, p2, w);
    } else {
      assert c1[c] == c0[c];
      ColumnComposes(c0[c], c2[c], c3[c], ai, ai + n1, p1, p2, w);
    }
  }

  /** One column interchanged by p1 from row r0 on, then by p2 from row
      r1 = r0 + |p1| on, is that column interchanged by the combined
      pivots from row r0 on. */
  lemma {:induction false} ColumnComposes(x0: seq<int>, xa: seq<int>, xb: seq<int>, r0: int, r1: int,
                                          p1: seq<int>, p2: seq<int>, w: seq<int>)
    requires 0 <= r0 <= |x0| && r1 == r0 + |p1| && w == Combine(p1, p2)
    requires Applicable(x0[r0..], p1, |p1|) && xa == ForwardFrom(x0, r0, p1, |p1|)
    requires 0 <= r1 <= |xa| && Applicable(xa[r1..], p2, |p2|) && xb == ForwardFrom(xa, r1, p2, |p2|)
    ensures Applicable(x0[r0..], w, |w|) && xb == ForwardFrom(x0, r0, w, |w|)
  {
    assert Applicable(x0[r1..], p2, |p2|);
    ForwardFromTwice(x0, r0, p1, p2, |p2|, w, |p1|);
  }

  // The order of the calls.

  /** A panel is a single getf2 call exactly when it is at most min_recpnb
      wide (lines 30-37); either way its first call is the getf2 of the
      leaf at its top-left corner. */
  lemma {:induction false} ScheduleStarts(ai: int, aj: int, maxM: int, maxN: int, minRecpnb: int, gbstep: int)
    requires 1 <= minRecpnb && 0 <= maxN
    ensures var t := Schedule(ai, aj, maxM, maxN, minRecpnb, gbstep);
            && (|t| == 1 <==> maxN <= minRecpnb)
            && (maxN <= minRecpnb ==> t == [Getf2(Leaf(ai, aj, maxM, maxN, gbstep))])
            && |t| >= 1 && t[0].Getf2?
            && t[0].leaf.ai == ai && t[0].leaf.aj == aj && t[0].leaf.m == maxM && t[0].leaf.gbstep == gbstep
    decreases maxN
  {
    if maxN > minRecpnb {
      var n1 := Split(maxN, minRecpnb);
      var a := Schedule(ai, aj, maxM, n1, minRecpnb, gbstep);
      ScheduleStarts(ai, aj, maxM, n1, minRecpnb, gbstep);
      assert Schedule(ai, aj, maxM, maxN, minRecpnb, gbstep)[0] == a[0];
    }
  }

  /** The first call of the calls t of a panel is the getf2 of the leaf at
      its corner. */
  lemma {:induction false} StartsAt(ai: int, aj: int, maxM: int, maxN: int, minRecpnb: int, gbstep: int, t: seq<Op>)
    requires 1 <= minRecpnb && 0 <= maxN
    requires t == Schedule(ai, aj, maxM, maxN, minRecpnb, gbstep)
    ensures |t| >= 1 && t[0].Getf2?
    ensures t[0].leaf.ai == ai && t[0].leaf.aj == aj && t[0].leaf.m == maxM && t[0].leaf.gbstep == gbstep
  {
    ScheduleStarts(ai, aj, maxM, maxN, minRecpnb, gbstep);
  }

  /** The seven steps of a split panel (lines 42-94), at the positions
      they take in its calls: panel 1 (starting at the corner), swap-right
      of the right half's columns with pivots [0, n1) from row ai, trsm,
      gemm, panel 2 (starting at row ai + n1, column aj + n1, with
      gbstep + n1), swap-left of the left half's columns with pivots
      [0, n2) from row ai + n1, and the pivot adjustment by n1. */
  lemma {:induction false} StepOrder(ai: int, aj: int, maxM: int, maxN: int, minRecpnb: int, gbstep: int,
                  n1: int, n2: int, t: seq<Op>, i: int)
    requires 1 <= minRecpnb < maxN
    requires n1 == Split(maxN, minRecpnb) && n2 == maxN - n1
    requires t == Schedule(ai, aj, maxM, maxN, minRecpnb, gbstep)
    requires i == |Schedule(ai, aj, maxM, n1, minRecpnb, gbstep)|
    ensures 1 <= i && i + 3 < |t| - 2
    ensures t[0].Getf2? && t[0].leaf.ai == ai && t[0].leaf.aj == aj && t[0].leaf.gbstep == gbstep
    ensures t[i] == SwapRight(n2, ai, aj + n1, ai, 0, n1)
    ensures t[i + 1] == Trsm(Left, Lower, NoTrans, Unit, n1, n2, ai, aj, ai, aj + n1)
    ensures t[i + 2] == Gemm(maxM - n1, n2, n1, ai + n1, aj, ai, aj + n1, ai + n1, aj + n1)
    ensures t[i + 3].Getf2? && t[i + 3].leaf.ai == ai + n1 && t[i + 3].leaf.aj == aj + n1
    ensures t[i + 3].leaf.m == maxM - n1 && t[i + 3].leaf.gbstep == gbstep + n1
    ensures t[|t| - 2] == SwapLeft(n1, ai + n1, aj, ai + n1, 0, n2)
    ensures t[|t| - 1] == Adjust(ai + n1, n2, n1)
  {
    var bi, bj, bm, bg := ai + n1, aj + n1, maxM - n1, gbstep + n1;
    var a := Schedule(ai, aj, maxM, n1, minRecpnb, gbstep);
    var b := Schedule(bi, bj, bm, n2, minRecpnb, bg);
    StartsAt(ai, aj, maxM, n1, minRecpnb, gbstep, a);
    StartsAt(bi, bj, bm, n2, minRecpnb, bg, b);
    ScheduleSplit(ai, aj, maxM, maxN, minRecpnb, gbstep, n1, n2, a, b);
    Positions(a, Middle(ai, aj, maxM, n1, n2), b, Tail(ai, aj, n1, n2), t, i);
  }

  /** Where the pieces of a + m + b + tl sit, for the three calls m and the
      two closing calls tl of a split panel. */
  lemma {:induction false} Positions<T>(a: seq<T>, m: seq<T>, b: seq<T>, tl: seq<T>, t: seq<T>, i: int)
    requires |a| >= 1 && |m| == 3 && |b| >= 1 && |tl| == 2
    requires t == a + m + b + tl && i == |a|
    ensures i + 3 < |t| - 2 && t[0] == a[0]
    ensures t[i] == m[0] && t[i + 1] == m[1] && t[i + 2] == m[2] && t[i + 3] == b[0]
    ensures t[|t| - 2] == tl[0] && t[|t| - 1] == tl[1]
  {
  }

  // How the leaves of the recursion tile the panel.

  /** The getf2 leaves of a call sequence, in issue order. */
  function Leaves(t: seq<Op>): (ls: seq<Leaf>)
    ensures |ls| <= |t|
  {
    if |t| == 0 then []
    else (if t[0].Getf2? then [t[0].leaf] else []) + Leaves(t[1..])
  }

  lemma {:induction false} LeavesAppend(a: seq<Op>, b: seq<Op>)
    ensures Leaves(a + b) == Leaves(a) + Leaves(b)
    decreases |a|
  {
    if |a| > 0 {
      assert (a + b)[1..] == a[1..] + b;
      LeavesAppend(a[1..], b);
    } else {
      assert a + b == b;
    }
  }

  lemma {:induction false} NoLeaves(t: seq<Op>)
    requires forall i :: 0 <= i < |t| ==> !t[i].Getf2?
    ensures Leaves(t) == []
    decreases |t|
  {
    if |t| > 0 {
      NoLeaves(t[1..]);
    }
  }

  /** The leaves ls, from left to right, tile the n columns from aj on of
      the m x n panel at (ai, aj) whose singular steps count from gbstep:
      the first leaf starts at the panel's corner, each is at most mr
      wide, and the next one is the panel that remains to its right and
      below it. */
  predicate Tiles(ls: seq<Leaf>, ai: int, aj: int, m: int, gbstep: int, n: int, mr: int)
    decreases |ls|
  {
    && |ls| >= 1
    && ls[0].ai == ai && ls[0].aj == aj && ls[0].m == m && ls[0].gbstep == gbstep
    && ls[0].n <= mr
    && if |ls| == 1 then ls[0].n == n
       else
         var w := ls[0].n;
         1 <= w < n && Tiles(ls[1..], ai + w, aj + w, m - w, gbstep + w, n - w, mr)
  }

  /** Column c lies in the leaf. */
  predicate InLeaf(l: Leaf, c: int)
  {
    l.aj <= c < l.aj + l.n
  }

  /** Column c lies in one of the leaves. */
  predicate Covered(ls: seq<Leaf>, c: int)
  {
    exists k :: 0 <= k < |ls| && InLeaf(ls[k], c)
  }

  /** Two tilings side by side tile the panel they make up. */
  lemma {:induction false} TilesJoin(l1: seq<Leaf>, l2: seq<Leaf>, ai: int, aj: int, m: int, gbstep: int,
                                     n1: int, n2: int, mr: int)
    requires 1 <= n1 && 1 <= n2
    requires Tiles(l1, ai, aj, m, gbstep, n1, mr)
    requires Tiles(l2, ai + n1, aj + n1, m - n1, gbstep + n1, n2, mr)
    ensures Tiles(l1 + l2, ai, aj, m, gbstep, n1 + n2, mr)
    decreases |l1|
  {
    var w := l1[0].n;
    assert (l1 + l2)[0] == l1[0];
    if |l1| == 1 {
      assert (l1 + l2)[1..] == l2;
    } else {
      assert (l1 + l2)[1..] == l1[1..] + l2;
      TilesJoin(l1[1..], l2, ai + w, aj + w, m - w, gbstep + w, n1 - w, n2, mr);
    }
  }

  /** The leaves of the recursion tile the panel: they partition columns
      [aj, aj + max_n) into pieces at most min_recpnb wide, and the row,
      pivot and gbstep offsets of each leaf are its column offset. */
  lemma {:induction false} ScheduleTiles(ai: int, aj: int, maxM: int, maxN: int, minRecpnb: int, gbstep: int)
    requires 1 <= minRecpnb && 0 <= maxN
    ensures Tiles(Leaves(Schedule(ai, aj, maxM, maxN, minRecpnb, gbstep)), ai, aj, maxM, gbstep, maxN, minRecpnb)
    decreases maxN
  {
    var t := Schedule(ai, aj, maxM, maxN, minRecpnb, gbstep);
    if maxN <= minRecpnb {
      assert Leaves(t) == [Leaf(ai, aj, maxM, maxN, gbstep)];
    } else {
      var n1 := Split(maxN, minRecpnb);
      var n2 := maxN - n1;
      var bi, bj, bm, bg := ai + n1, aj + n1, maxM - n1, gbstep + n1;
      var a := Schedule(ai, aj, maxM, n1, minRecpnb, gbstep);
      var b := Schedule(bi, bj, bm, n2, minRecpnb, bg);
      SplitLeaves(ai, aj, maxM, n1, n2, a, b);
      ScheduleTiles(ai, aj, maxM, n1, minRecpnb, gbstep);
      ScheduleTiles(bi, bj, bm, n2, minRecpnb, bg);
      TilesJoin(Leaves(a), Leaves(b), ai, aj, maxM, gbstep, n1, n2, minRecpnb);
    }
  }

  /** The calls between and after the halves are not leaves. */
  lemma {:induction false} SplitLeaves(ai: int, aj: int, maxM: int, n1: int, n2: int, a: seq<Op>, b: seq<Op>)
    ensures Leaves(a + Middle(ai, aj, maxM, n1, n2) + b + Tail(ai, aj, n1, n2)) == Leaves(a) + Leaves(b)
  {
    var mid, tail := Middle(ai, aj, maxM, n1, n2), Tail(ai, aj, n1, n2);
    NoLeaves(mid);
    NoLeaves(tail);
    LeavesAppend(a + mid + b, tail);
    LeavesAppend(a + mid, b);
    LeavesAppend(a, mid);
  }

  /** A tiling is a partition: every column of the panel lies in exactly
      one leaf, and every leaf lies inside the panel, at most mr wide, with
      its row, pivot and gbstep offsets equal to its column offset. */
  lemma {:induction false} TilesPartition(ls: seq<Leaf>, ai: int, aj: int, m: int, gbstep: int, n: int, mr: int)
    requires Tiles(ls, ai, aj, m, gbstep, n, mr)
    ensures forall k :: 0 <= k < |ls| ==>
              && aj <= ls[k].aj && ls[k].aj + ls[k].n <= aj + n && ls[k].n <= mr
              && ls[k].ai - ai == ls[k].aj - aj && ls[k].gbstep - gbstep == ls[k].aj - aj
              && ls[k].m == m - (ls[k].aj - aj)
    ensures forall c :: aj <= c < aj + n ==> Covered(ls, c)
    ensures forall c, k1, k2 :: 0 <= k1 < |ls| && 0 <= k2 < |ls| && InLeaf(ls[k1], c) && InLeaf(ls[k2], c) ==> k1 == k2
    decreases |ls|
  {
    if |ls| > 1 {
      var w := ls[0].n;
      var rest := ls[1..];
      TilesPartition(rest, ai + w, aj + w, m - w, gbstep + w, n - w, mr);
      forall c | aj <= c < aj + n
        ensures Covered(ls, c)
      {
        if c >= aj + w {
          assert Covered(rest, c);
          var k :| 0 <= k < |rest| && InLeaf(rest[k], c);
          assert ls[k + 1] == rest[k];
        } else {
          assert InLeaf(ls[0], c);
        }
      }
      forall c, k1, k2 | 0 <= k1 < |ls| && 0 <= k2 < |ls| && InLeaf(ls[k1], c) && InLeaf(ls[k2], c)
        ensures k1 == k2
      {
        if k1 > 0 && k2 > 0 {
          assert ls[k1] == rest[k1 - 1] && ls[k2] == rest[k2 - 1];
        }
      }
      forall k | 0 <= k < |ls|
        ensures && aj <= ls[k].aj && ls[k].aj + ls[k].n <= aj + n && ls[k].n <= mr
                && ls[k].ai - ai == ls[k].aj - aj && ls[k].gbstep - gbstep == ls[k].aj - aj
                && ls[k].m == m - (ls[k].aj - aj)
      {
        if k > 0 {
          assert ls[k] == rest[k - 1];
        }
      }
    } else {
      forall c | aj <= c < aj + n
        ensures Covered(ls, c)
      {
        assert InLeaf(ls[0], c);
      }
    }
  }
}
