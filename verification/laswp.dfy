/** Pivot vectors and the row interchanges they denote (LAPACK xLASWP with
    k1 = 1, k2 = n, as magma_cgetrs_gpu calls it). Rows are of any type R: a
    row of the right-hand-side matrix B, or a single entry of one column. */
module Laswp {

  /** Every pivot is a 1-based row index of a matrix with n rows. */
  predicate ValidPivots(p: seq<int>, n: int)
  {
    forall i :: 0 <= i < |p| ==> 1 <= p[i] <= n
  }

  /** The interchanges of the first k pivots of p can be applied to b. */
  predicate Applicable<R>(b: seq<R>, p: seq<int>, k: int)
  {
    0 <= k <= |p| && k <= |b| && ValidPivots(p, |b|)
  }

  /** Exchange rows i and j (0-based). */
  function Swap<R>(b: seq<R>, i: int, j: int): (r: seq<R>)
    requires 0 <= i < |b| && 0 <= j < |b|
    ensures |r| == |b|
  {
    seq(|b|, x requires 0 <= x < |b| => if x == i then b[j] else if x == j then b[i] else b[x])
  }

  lemma {:induction false} SwapPermutes<R>(b: seq<R>, i: int, j: int)
    requires 0 <= i < |b| && 0 <= j < |b|
    ensures multiset(Swap(b, i, j)) == multiset(b)
  {
    assert Swap(b, i, j) == b[i := b[j]][j := b[i]];
  }

  lemma {:induction false} SwapInvolutive<R>(b: seq<R>, i: int, j: int)
    requires 0 <= i < |b| && 0 <= j < |b|
    ensures Swap(Swap(b, i, j), i, j) == b
  {
  }

  /** The first k interchanges applied in increasing order (incx = 1): for
      i = 1, ..., k, row i is exchanged with row p[i-1]. */
  function Forward<R>(b: seq<R>, p: seq<int>, k: int): (r: seq<R>)
    requires Applicable(b, p, k)
    ensures |r| == |b|
    decreases k
  {
    if k == 0 then b
    else Swap(Forward(b, p, k - 1), k - 1, p[k - 1] - 1)
  }

  /** The first k interchanges applied in decreasing order (incx = -1): for
      i = k, ..., 1, row i is exchanged with row p[i-1]. */
  function Backward<R>(b: seq<R>, p: seq<int>, k: int): (r: seq<R>)
    requires Applicable(b, p, k)
    ensures |r| == |b|
    decreases k
  {
    if k == 0 then b
    else Backward(Swap(b, k - 1, p[k - 1] - 1), p, k - 1)
  }

  /** The interchanges permute the rows. */
  lemma {:induction false} ForwardPermutes<R>(b: seq<R>, p: seq<int>, k: int)
    requires Applicable(b, p, k)
    ensures multiset(Forward(b, p, k)) == multiset(b)
    decreases k
  {
    if k > 0 {
      ForwardPermutes(b, p, k - 1);
      var prev := Forward(b, p, k - 1);
      assert Forward(b, p, k) == Swap(prev, k - 1, p[k - 1] - 1);
      SwapPermutes(prev, k - 1, p[k - 1] - 1);
    }
  }

  lemma {:induction false} BackwardPermutes<R>(b: seq<R>, p: seq<int>, k: int)
    requires Applicable(b, p, k)
    ensures multiset(Backward(b, p, k)) == multiset(b)
    decreases k
  {
    if k > 0 {
      SwapPermutes(b, k - 1, p[k - 1] - 1);
      BackwardPermutes(Swap(b, k - 1, p[k - 1] - 1), p, k - 1);
    }
  }

  /** Applying the interchanges backwards undoes applying them forwards. */
  lemma {:induction false} BackwardUndoesForward<R>(b: seq<R>, p: seq<int>, k: int)
    requires Applicable(b, p, k)
    ensures Backward(Forward(b, p, k), p, k) == b
    decreases k
  {
    if k > 0 {
      SwapInvolutive(Forward(b, p, k - 1), k - 1, p[k - 1] - 1);
      BackwardUndoesForward(b, p, k - 1);
    }
  }

  /** Applying the interchanges forwards undoes applying them backwards. */
  lemma {:induction false} ForwardUndoesBackward<R>(b: seq<R>, p: seq<int>, k: int)
    requires Applicable(b, p, k)
    ensures Forward(Backward(b, p, k), p, k) == b
    decreases k
  {
    if k > 0 {
      ForwardUndoesBackward(Swap(b, k - 1, p[k - 1] - 1), p, k - 1);
      SwapInvolutive(b, k - 1, p[k - 1] - 1);
    }
  }

  /** xLASWP with k1 = 1, k2 = |ipiv| and incx = inc: a loop over the row
      index i, reading the pivot at the same index and skipping the exchange
      when the pivot names row i itself. */
  method Interchange<R>(a: seq<R>, ipiv: seq<int>, inc: int) returns (r: seq<R>)
    requires inc == 1 || inc == -1
    requires Applicable(a, ipiv, |ipiv|)
    ensures inc == 1 ==> r == Forward(a, ipiv, |ipiv|)
    ensures inc == -1 ==> r == Backward(a, ipiv, |ipiv|)
  {
    if inc > 0 {
      r := InterchangeUp(a, ipiv);
    } else {
      r := InterchangeDown(a, ipiv);
    }
  }

  /** The loop of xLASWP for incx = 1: i = 1, ..., |ipiv|. */
  method InterchangeUp<R>(a: seq<R>, ipiv: seq<int>) returns (r: seq<R>)
    requires Applicable(a, ipiv, |ipiv|)
    ensures r == Forward(a, ipiv, |ipiv|)
  {
    r := a;
    var i := 1;
    while i <= |ipiv|
      invariant 1 <= i <= |ipiv| + 1
      invariant r == Forward(a, ipiv, i - 1)
    {
      var ip := ipiv[i - 1];
      if ip != i {
        r := Swap(r, i - 1, ip - 1);
      } else {
        SwapItself(r, i - 1);
      }
      i := i + 1;
    }
  }

  /** The loop of xLASWP for incx = -1: i = |ipiv|, ..., 1. */
  method InterchangeDown<R>(a: seq<R>, ipiv: seq<int>) returns (r: seq<R>)
    requires Applicable(a, ipiv, |ipiv|)
    ensures r == Backward(a, ipiv, |ipiv|)
  {
    r := a;
    var i := |ipiv|;
    while i >= 1
      invariant 0 <= i <= |ipiv|
      invariant |r| == |a|
      invariant Backward(r, ipiv, i) == Backward(a, ipiv, |ipiv|)
    {
      var ip := ipiv[i - 1];
      if ip != i {
        r := Swap(r, i - 1, ip - 1);
      } else {
        SwapItself(r, i - 1);
      }
      i := i - 1;
    }
  }

  /** Exchanging a row with itself changes nothing. */
  lemma {:induction false} SwapItself<R>(b: seq<R>, i: int)
    requires 0 <= i < |b|
    ensures Swap(b, i, i) == b
  {
  }

  /** All rows of m have an entry in column c. */
  predicate HasColumn<T>(m: seq<seq<T>>, c: nat)
  {
    forall i :: 0 <= i < |m| ==> c < |m[i]|
  }

  /** Column c of a row-major matrix. */
  function Column<T>(m: seq<seq<T>>, c: nat): (col: seq<T>)
    requires HasColumn(m, c)
    ensures |col| == |m|
  {
    seq(|m|, i requires 0 <= i < |m| => m[i][c])
  }

  lemma {:induction false} SwapColumn<T>(m: seq<seq<T>>, i: int, j: int, c: nat)
    requires 0 <= i < |m| && 0 <= j < |m|
    requires HasColumn(m, c)
    ensures HasColumn(Swap(m, i, j), c)
    ensures Column(Swap(m, i, j), c) == Swap(Column(m, c), i, j)
  {
  }

  /** Interchanging rows of B interchanges the entries of each of its
      columns in the same way. */
  lemma {:induction false} ForwardColumn<T>(m: seq<seq<T>>, p: seq<int>, k: int, c: nat)
    requires Applicable(m, p, k)
    requires HasColumn(m, c)
    ensures HasColumn(Forward(m, p, k), c)
    ensures Column(Forward(m, p, k), c) == Forward(Column(m, c), p, k)
    decreases k
  {
    if k > 0 {
      ForwardColumn(m, p, k - 1, c);
      SwapColumn(Forward(m, p, k - 1), k - 1, p[k - 1] - 1, c);
    }
  }

  lemma {:induction false} BackwardColumn<T>(m: seq<seq<T>>, p: seq<int>, k: int, c: nat)
    requires Applicable(m, p, k)
    requires HasColumn(m, c)
    ensures HasColumn(Backward(m, p, k), c)
    ensures Column(Backward(m, p, k), c) == Backward(Column(m, c), p, k)
    decreases k
  {
    if k > 0 {
      SwapColumn(m, k - 1, p[k - 1] - 1, c);
      BackwardColumn(Swap(m, k - 1, p[k - 1] - 1), p, k - 1, c);
    }
  }

  /** Each column of B stays a permutation of its entries under the
      interchanges, in either direction. */
  lemma {:induction false} ColumnsStayPermutations<T>(m: seq<seq<T>>, p: seq<int>, c: nat)
    requires Applicable(m, p, |p|)
    requires HasColumn(m, c)
    ensures HasColumn(Forward(m, p, |p|), c) && HasColumn(Backward(m, p, |p|), c)
    ensures multiset(Column(Forward(m, p, |p|), c)) == multiset(Column(m, c))
    ensures multiset(Column(Backward(m, p, |p|), c)) == multiset(Column(m, c))
  {
    ForwardColumn(m, p, |p|, c);
    BackwardColumn(m, p, |p|, c);
    ForwardPermutes(Column(m, c), p, |p|);
    BackwardPermutes(Column(m, c), p, |p|);
  }

  // Composition of pivot vectors, used by the recursive panel factorization.

  /** Add d to every pivot: re-base pivots of a sub-panel that starts d rows
      further down. */
  function Shift(p: seq<int>, d: int): (q: seq<int>)
    ensures |q| == |p|
    ensures forall i :: 0 <= i < |p| ==> q[i] == p[i] + d
  {
    seq(|p|, i requires 0 <= i < |p| => p[i] + d)
  }

  /** Apply the first k interchanges of p to the rows of b from row r0 on,
      with pivots relative to row r0. */
  function ForwardFrom<R>(b: seq<R>, r0: int, p: seq<int>, k: int): (r: seq<R>)
    requires 0 <= r0 <= |b|
    requires Applicable(b[r0..], p, k)
    ensures |r| == |b|
  {
    b[..r0] + Forward(b[r0..], p, k)
  }

  /** Only the first k pivots matter. */
  lemma {:induction false} ForwardAgree<R>(b: seq<R>, p: seq<int>, q: seq<int>, k: int)
    requires Applicable(b, p, k) && Applicable(b, q, k)
    requires forall i :: 0 <= i < k ==> p[i] == q[i]
    ensures Forward(b, p, k) == Forward(b, q, k)
    decreases k
  {
    if k > 0 {
      ForwardAgree(b, p, q, k - 1);
    }
  }

  /** The pivots of a panel whose first |p1| rows were factored with
      pivots p1 and whose remaining rows were factored with pivots p2
      (relative to row |p1|). */
  function Combine(p1: seq<int>, p2: seq<int>): (w: seq<int>)
    ensures |w| == |p1| + |p2|
    ensures forall i :: 0 <= i < |p1| ==> w[i] == p1[i]
    ensures forall i :: 0 <= i < |p2| ==> w[|p1| + i] == p2[i] + |p1|
  {
    p1 + Shift(p2, |p1|)
  }

  /** Re-basing keeps pivots of the rows below |p1| valid for the whole panel. */
  lemma {:induction false} CombineValid(p1: seq<int>, p2: seq<int>, n: int)
    requires ValidPivots(p1, n)
    requires ValidPivots(p2, n - |p1|)
    ensures ValidPivots(Combine(p1, p2), n)
  {
    var w := Combine(p1, p2);
    forall i | 0 <= i < |w|
      ensures 1 <= w[i] <= n
    {
      if i >= |p1| {
        assert w[|p1| + (i - |p1|)] == p2[i - |p1|] + |p1|;
      }
    }
  }

  /** Exchanging rows i and j of t is exchanging rows x = |pre| + i and
      y = |pre| + j of pre + t. */
  lemma {:induction false} SwapInSuffix<R>(pre: seq<R>, t: seq<R>, i: int, j: int, x: int, y: int)
    requires 0 <= i < |t| && 0 <= j < |t|
    requires x == |pre| + i && y == |pre| + j
    ensures pre + Swap(t, i, j) == Swap(pre + t, x, y)
  {
  }

  /** One more interchange of w, at row n1 + k - 1, extends ForwardSplit's
      claim from k - 1 to k interchanges. */
  lemma {:induction false} SplitStep<R>(b: seq<R>, w: seq<int>, n1: int, p2: seq<int>, k: int, t: seq<R>)
    requires 0 <= n1 && 0 < k && Applicable(b, w, n1 + k)
    requires Applicable(b[n1..], p2, k)
    requires w[n1 + k - 1] == p2[k - 1] + n1
    requires t == Forward(b, w, n1)
    requires Forward(b, w, n1 + k - 1) == ForwardFrom(t, n1, p2, k - 1)
    ensures Forward(b, w, n1 + k) == ForwardFrom(t, n1, p2, k)
  {
    assert |t| == |b|;
    var pre, u := t[..n1], Forward(t[n1..], p2, k - 1);
    var prev := Forward(b, w, n1 + k - 1);
    assert prev == pre + u;
    var i, j := k - 1, p2[k - 1] - 1;
    ForwardStep(b, w, n1 + k, prev, n1 + k - 1, w[n1 + k - 1] - 1);
    ForwardStep(t[n1..], p2, k, u, i, j);
    SwapInSuffix(pre, u, i, j, n1 + k - 1, w[n1 + k - 1] - 1);
  }

  /** The k-th interchange applied after the first k - 1. */
  lemma {:induction false} ForwardStep<R>(b: seq<R>, p: seq<int>, k: int, prev: seq<R>, x: int, y: int)
    requires 0 < k && Applicable(b, p, k)
    requires prev == Forward(b, p, k - 1) && x == k - 1 && y == p[k - 1] - 1
    ensures 0 <= x < |prev| && 0 <= y < |prev| && Forward(b, p, k) == Swap(prev, x, y)
  {
  }

  /** Interchanges n1, ..., n1 + k - 1 of w, when they are pivots p2
      re-based by n1, act on the rows from n1 on as p2 does; t is b after
      the first n1 interchanges. */
  lemma {:induction false} ForwardSplit<R>(b: seq<R>, w: seq<int>, n1: int, p2: seq<int>, k: int, t: seq<R>)
    requires 0 <= n1 && 0 <= k && Applicable(b, w, n1 + k)
    requires Applicable(b[n1..], p2, k)
    requires forall i :: 0 <= i < k ==> w[n1 + i] == p2[i] + n1
    requires t == Forward(b, w, n1)
    ensures Forward(b, w, n1 + k) == ForwardFrom(t, n1, p2, k)
    decreases k
  {
    if k == 0 {
      assert t[..n1] + t[n1..] == t;
    } else {
      ForwardSplit(b, w, n1, p2, k - 1, t);
      SplitStep(b, w, n1, p2, k, t);
    }
  }

  /** The combined pivots can be applied where both halves can. */
  lemma {:induction false} CombineApplicable<R>(b: seq<R>, p1: seq<int>, p2: seq<int>, k: int)
    requires Applicable(b, p1, |p1|)
    requires Applicable(b[|p1|..], p2, k)
    ensures Applicable(b, Combine(p1, p2), |p1| + k)
    ensures Applicable(Forward(b, p1, |p1|)[|p1|..], p2, k)
  {
    CombineValid(p1, p2, |b|);
  }

  /** Pivots p1 for the first n1 rows followed by pivots p2 relative to row
      n1 denote "p1, then p2 on the rows below n1": w are the combined
      pivots and t is b after p1. */
  lemma {:induction false} ForwardCombine<R>(b: seq<R>, p1: seq<int>, p2: seq<int>, k: int, w: seq<int>, n1: int, t: seq<R>)
    requires Applicable(b, p1, |p1|)
    requires Applicable(b[|p1|..], p2, k)
    requires w == Combine(p1, p2) && n1 == |p1| && t == Forward(b, p1, n1)
    ensures Applicable(b, w, n1 + k)
    ensures Applicable(t[n1..], p2, k)
    ensures Forward(b, w, n1 + k) == ForwardFrom(t, n1, p2, k)
  {
    CombineApplicable(b, p1, p2, k);
    ForwardAgree(b, w, p1, n1);
    ForwardSplit(b, w, n1, p2, k, t);
  }

  /** Splitting pre + f at r0 + n1, where r0 is the length of pre. */
  lemma {:induction false} Glue<R>(pre: seq<R>, f: seq<R>, n1: int, y: seq<R>, r0: int)
    requires 0 <= n1 <= |f| && r0 == |pre|
    ensures (pre + f)[r0 + n1..] == f[n1..]
    ensures (pre + f)[..r0 + n1] + y == pre + (f[..n1] + y)
  {
    assert (pre + f)[..r0 + n1] == pre + f[..n1];
  }

  /** Where the second interchanges of ForwardFromTwice apply. */
  lemma {:induction false} TwiceApplicable<R>(b: seq<R>, r0: int, p1: seq<int>, p2: seq<int>, n2: int, n1: int)
    requires 0 <= r0 <= |b| && n1 == |p1|
    requires Applicable(b[r0..], p1, n1)
    requires Applicable(b[r0 + n1..], p2, n2)
    ensures Applicable(b[r0..][n1..], p2, n2)
    ensures Applicable(ForwardFrom(b, r0, p1, n1)[r0 + n1..], p2, n2)
  {
    var x := b[r0..];
    assert x[n1..] == b[r0 + n1..];
    CombineApplicable(x, p1, p2, n2);
    Glue(b[..r0], Forward(x, p1, n1), n1, [], r0);
  }

  /** Interchanging rows from r0 with p1 and then rows from r0 + n1 with
      p2 is interchanging rows from r0 with the combined pivots w. */
  lemma {:induction false} ForwardFromTwice<R>(b: seq<R>, r0: int, p1: seq<int>, p2: seq<int>, n2: int, w: seq<int>, n1: int)
    requires 0 <= r0 <= |b|
    requires w == Combine(p1, p2) && n1 == |p1|
    requires Applicable(b[r0..], p1, n1)
    requires Applicable(b[r0 + n1..], p2, n2)
    ensures Applicable(b[r0..], w, n1 + n2)
    ensures Applicable(ForwardFrom(b, r0, p1, n1)[r0 + n1..], p2, n2)
    ensures ForwardFrom(ForwardFrom(b, r0, p1, n1), r0 + n1, p2, n2)
            == ForwardFrom(b, r0, w, n1 + n2)
  {
    TwiceApplicable(b, r0, p1, p2, n2, n1);
    var x := b[r0..];
    var f := Forward(x, p1, n1);
    ForwardCombine(x, p1, p2, n2, w, n1, f);
    Glue(b[..r0], f, n1, Forward(f[n1..], p2, n2), r0);
  }
}
