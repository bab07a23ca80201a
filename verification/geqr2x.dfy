/** magma_zgeqr2x3_gpu: left-looking QR factorization of an m x n matrix
    with internal blocking of 32 columns, and magma_zlarfb2_gpu, the block
    reflector it applies to the columns right of each block. The kernels
    are opaque; the model covers the argument checks, the blocking loops,
    which columns each call touches and which reflectors reach each
    column. */
module Geqr2x {
  import opened Common
  import opened Validation
  import opened Resources

  /** BLOCK_SIZE (line 151). */
  const BlockSize: nat := 32

  /** The calls of the factorization. Reflector H(k) is the one generated
      for column k; `first`/`count` name the reflectors a call applies and
      `col`/`cols` the columns of A it changes. */
  datatype Step =
    | Larfbx(rows: int, count: int, first: int, col: int)   // magma_zlarfbx_gpu: H(first..first+count-1) to column col
    | Nrm2(rows: int, col: int)                             // magmablas_dznrm2_cols of A(col:m, col)
    | Larfgtx(rows: int, col: int)                          // magma_zlarfgtx_gpu: generate H(col), extend T
    | FormW(rows: int, cols: int, count: int, first: int, col: int)    // W := C**H V
    | ScaleW(cols: int, count: int, first: int)             // W := W T (trmm with T upper, not transposed)
    | UpdateC(rows: int, cols: int, count: int, first: int, col: int)  // C := C - V W**H

  /** The argument chain of lines 158-165: m, n, ldda. */
  function Checks(m: int, n: int, ldda: int): seq<Check>
  {
    [ Check(m >= 0, -1),
      Check(n >= 0, -2),
      Check(ldda >= Max(1, m), -4) ]
  }

  function ValidateArgs(m: int, n: int, ldda: int): (info: int)
    ensures info == 0 <==> m >= 0 && n >= 0 && ldda >= Max(1, m)
    ensures info == -1 <==> m < 0
    ensures info == -2 <==> m >= 0 && n < 0
    ensures info == -4 <==> m >= 0 && n >= 0 && ldda < Max(1, m)
  {
    var checks := Checks(m, n, ldda);
    FirstFailureDecodes(checks, 0);
    FirstFailureDecodes(checks, 1);
    FirstFailureDecodes(checks, 2);
    FirstFailure(checks)
  }

  /** magma_zlarfb2_gpu(m, n, k, V, T, C): apply the block reflector
      H(first..first+k-1), whose vectors start at row `first`, to the n
      columns of C starting at column `col`; nothing when m <= 0 or
      n <= 0. */
  function Larfb2(m: int, n: int, k: int, first: int, col: int): (t: seq<Step>)
    ensures t == [] <==> m <= 0 || n <= 0
    ensures t != [] ==> |t| == 3 && t[2] == UpdateC(m, n, k, first, col)
  {
    if m <= 0 || n <= 0 then []
    else [FormW(m, n, k, first, col), ScaleW(n, k, first), UpdateC(m, n, k, first, col)]
  }

  /** The inner loop of lines 181-200 from column i to the block end e, in
      the block starting at column b: the earlier reflectors of the block
      applied to column i (except for the first column of the block), the
      norm of what is left of the column, the new reflector. Three calls
      per column, but only two for the block's first column. */
  function Columns(m: int, b: int, i: int, e: int): (t: seq<Step>)
    requires b <= i <= e
    ensures |t| == 3 * (e - i) - if b == i < e then 1 else 0
    decreases e - i
  {
    if i == e then []
    else (if i - b > 0 then [Larfbx(m - b, i - b, b, i)] else [])
         + [Nrm2(m - i, i), Larfgtx(m - i, i)]
         + Columns(m, b, i + 1, e)
  }

  /** The end of the block that starts at column b: min(min_mn, b + 32). */
  function BlockEnd(mn: int, b: int): int
  {
    Min(mn, b + BlockSize)
  }

  /** One pass of the outer loop of lines 180-208, for the block from
      column b to e: its columns, then the trailing update of the columns
      e..last-1 with k reflectors. As written `last` is min_mn and k is
      BLOCK_SIZE (`fullK`). */
  function Block(m: int, mn: int, last: int, fullK: bool, b: int): seq<Step>
    requires b <= mn
  {
    var e := BlockEnd(mn, b);
    Columns(m, b, b, e) + Larfb2(m - b, last - e, if fullK then BlockSize else e - b, b, e)
  }

  /** The outer loop from the block at column b on. */
  function Blocks(m: int, mn: int, last: int, fullK: bool, b: nat): seq<Step>
    decreases mn - b
  {
    if b >= mn then []
    else Block(m, mn, last, fullK, b) + Blocks(m, mn, last, fullK, b + BlockSize)
  }

  /** The calls of lines 177-208: as written (`toN` false) the trailing
      updates stop at column min(m, n) and use 32 reflectors; otherwise
      they reach column n and use as many reflectors as the block has. */
  function Loop(m: int, n: int, toN: bool): seq<Step>
  {
    var mn := Min(m, n);
    if toN then Blocks(m, mn, n, false, 0) else Blocks(m, mn, mn, true, 0)
  }

  /** magma_zgeqr2x3_gpu: the checks, then the loop between the creation
      and the destruction of the queue (lines 171-174, 210). */
  function Drive(m: int, n: int, ldda: int, toN: bool): (o: Outcome<Step>)
    ensures o.info == ValidateArgs(m, n, ldda)
    ensures o.info != 0 ==> o.trace == []
    ensures o.info == 0 ==> Kernels(o.trace) == Loop(m, n, toN)
    ensures Held(o.trace) == {}
  {
    var info := ValidateArgs(m, n, ldda);
    if info != 0 then Outcome(info, [])
    else
      var ks := Loop(m, n, toN);
      QueueBracket(ks);
      Outcome(0, [Acquire(Queue)] + Runs(ks) + [Release(Queue)])
  }

  /** The routine as written: the update after each block reaches the
      columns up to min(m, n) only (line 205). */
  function Zgeqr2x3AsWritten(m: int, n: int, ldda: int): (o: Outcome<Step>)
    ensures o.info == ValidateArgs(m, n, ldda) && Held(o.trace) == {}
    ensures o.info == 0 ==> Visits(Kernels(o.trace)) == Interval(0, Min(m, n))
  {
    var o := Drive(m, n, ldda, false);
    if o.info == 0 then EachColumnOnce(m, n, ldda, false, o); o else o
  }

  /** The routine with the update after each block reaching every column up
      to n, with as many reflectors as the block has. */
  function Zgeqr2x3(m: int, n: int, ldda: int): (o: Outcome<Step>)
    ensures o.info == ValidateArgs(m, n, ldda) && Held(o.trace) == {}
    ensures o.info == 0 ==> Visits(Kernels(o.trace)) == Interval(0, Min(m, n))
  {
    var o := Drive(m, n, ldda, true);
    if o.info == 0 then EachColumnOnce(m, n, ldda, true, o); o else o
  }

  // Which columns are visited.

  /** The columns for which a reflector is generated, in order. */
  function Visits(t: seq<Step>): seq<int>
  {
    if |t| == 0 then []
    else (if t[0].Larfgtx? then [t[0].col] else []) + Visits(t[1..])
  }

  lemma {:induction false} VisitsAppend(a: seq<Step>, b: seq<Step>)
    ensures Visits(a + b) == Visits(a) + Visits(b)
    decreases |a|
  {
    if |a| > 0 {
      assert (a + b)[1..] == a[1..] + b;
      VisitsAppend(a[1..], b);
    } else {
      assert a + b == b;
    }
  }

  lemma {:induction false} VisitsOne(s: Step)
    ensures Visits([s]) == if s.Larfgtx? then [s.col] else []
  {
    assert [s][1..] == [];
  }

  /** A trailing update generates no reflector. */
  lemma {:induction false} UpdateVisitsNothing(m: int, n: int, k: int, first: int, col: int)
    ensures Visits(Larfb2(m, n, k, first, col)) == []
  {
    var t := Larfb2(m, n, k, first, col);
    if t != [] {
      VisitsAppend([t[0]], [t[1], t[2]]);
      VisitsAppend([t[1]], [t[2]]);
      VisitsOne(t[0]);
      VisitsOne(t[1]);
      VisitsOne(t[2]);
      assert t == [t[0]] + ([t[1]] + [t[2]]);
    }
  }

  /** lo, lo + 1, ..., hi - 1. */
  function Interval(lo: int, hi: int): (s: seq<int>)
    ensures |s| == if lo <= hi then hi - lo else 0
    ensures forall k :: 0 <= k < |s| ==> s[k] == lo + k
  {
    if lo < hi then seq(hi - lo, k requires 0 <= k < hi - lo => lo + k) else []
  }

  lemma {:induction false} ColumnsVisit(m: int, b: int, i: int, e: int)
    requires b <= i <= e
    ensures Visits(Columns(m, b, i, e)) == Interval(i, e)
    decreases e - i
  {
    if i < e {
      var head := (if i - b > 0 then [Larfbx(m - b, i - b, b, i)] else []) + [Nrm2(m - i, i), Larfgtx(m - i, i)];
      VisitsAppend(head, Columns(m, b, i + 1, e));
      ColumnsVisit(m, b, i + 1, e);
      var pre: seq<Step> := if i - b > 0 then [Larfbx(m - b, i - b, b, i)] else [];
      VisitsAppend(pre, [Nrm2(m - i, i)] + [Larfgtx(m - i, i)]);
      VisitsAppend([Nrm2(m - i, i)], [Larfgtx(m - i, i)]);
      VisitsOne(Nrm2(m - i, i));
      VisitsOne(Larfgtx(m - i, i));
      if i - b > 0 {
        VisitsOne(Larfbx(m - b, i - b, b, i));
      }
      assert head == pre + ([Nrm2(m - i, i)] + [Larfgtx(m - i, i)]);
    }
  }

  lemma {:induction false} IntervalSplit(lo: int, mid: int, hi: int)
    requires lo <= mid <= hi
    ensures Interval(lo, mid) + Interval(mid, hi) == Interval(lo, hi)
  {
  }

  lemma {:induction false} BlockVisits(m: int, mn: int, last: int, fullK: bool, b: int)
    requires b <= mn
    ensures Visits(Block(m, mn, last, fullK, b)) == Interval(b, BlockEnd(mn, b))
  {
    var e := BlockEnd(mn, b);
    var k := if fullK then BlockSize else e - b;
    VisitsAppend(Columns(m, b, b, e), Larfb2(m - b, last - e, k, b, e));
    ColumnsVisit(m, b, b, e);
    UpdateVisitsNothing(m - b, last - e, k, b, e);
  }

  lemma {:induction false} BlocksVisit(m: int, mn: int, last: int, fullK: bool, b: nat)
    requires b <= mn
    ensures Visits(Blocks(m, mn, last, fullK, b)) == Interval(b, mn)
    decreases mn - b
  {
    if b < mn {
      var e := BlockEnd(mn, b);
      var rest := Blocks(m, mn, last, fullK, b + BlockSize);
      VisitsAppend(Block(m, mn, last, fullK, b), rest);
      BlockVisits(m, mn, last, fullK, b);
      if b + BlockSize < mn {
        BlocksVisit(m, mn, last, fullK, b + BlockSize);
        IntervalSplit(b, e, mn);
      } else {
        assert Visits(rest) == [] && e == mn;
      }
    }
  }

  /** Lines 177-181: the blocks cover columns 0 .. min(m, n) - 1, and a
      reflector is generated for each column exactly once, from left to
      right; in both versions. */
  lemma {:induction false} EachColumnOnce(m: int, n: int, ldda: int, toN: bool, o: Outcome<Step>)
    requires o == Drive(m, n, ldda, toN) && o.info == 0
    ensures Visits(Kernels(o.trace)) == Interval(0, Min(m, n))
  {
    BlocksVisit(m, Min(m, n), n, false, 0);
    BlocksVisit(m, Min(m, n), Min(m, n), true, 0);
  }

  // The shape of each call.

  /** A call of magma_zlarfbx_gpu applies the earlier reflectors of its
      block, never none (so never at the first column of a block), to the
      column it names; a trailing update applies the reflectors of a block
      starting at a multiple of 32, all of them, to every column from the
      block's end to `last`. */
  predicate Shaped(t: seq<Step>, m: int, last: int, fullK: bool)
  {
    forall k :: 0 <= k < |t| ==>
      && (t[k].Larfbx? ==>
            && 0 < t[k].count < BlockSize && t[k].first + t[k].count == t[k].col
            && t[k].first % BlockSize == 0 && t[k].rows == m - t[k].first)
      && (t[k].UpdateC? ==>
            && 0 < t[k].count <= BlockSize && t[k].first + t[k].count == t[k].col
            && (fullK ==> t[k].count == BlockSize)
            && t[k].col + t[k].cols == last && t[k].cols > 0
            && t[k].first % BlockSize == 0 && t[k].rows == m - t[k].first > 0)
  }

  lemma {:induction false} ShapedAppend(a: seq<Step>, b: seq<Step>, m: int, last: int, fullK: bool)
    requires Shaped(a, m, last, fullK) && Shaped(b, m, last, fullK)
    ensures Shaped(a + b, m, last, fullK)
  {
    forall k | 0 <= k < |a + b|
      ensures (a + b)[k] == if k < |a| then a[k] else b[k - |a|]
    {
    }
  }

  lemma {:induction false} ColumnsShaped(m: int, b: int, i: int, e: int, last: int, fullK: bool)
    requires b <= i <= e <= b + BlockSize && b % BlockSize == 0
    ensures Shaped(Columns(m, b, i, e), m, last, fullK)
    decreases e - i
  {
    if i < e {
      var pre: seq<Step> := if i - b > 0 then [Larfbx(m - b, i - b, b, i)] else [];
      var mid: seq<Step> := [Nrm2(m - i, i), Larfgtx(m - i, i)];
      ColumnsShaped(m, b, i + 1, e, last, fullK);
      ShapedAppend(pre, mid, m, last, fullK);
      ShapedAppend(pre + mid, Columns(m, b, i + 1, e), m, last, fullK);
    }
  }

  lemma {:induction false} BlocksShaped(m: int, mn: int, last: int, fullK: bool, b: nat)
    requires b % BlockSize == 0 && mn <= m
    requires fullK ==> last == mn
    ensures Shaped(Blocks(m, mn, last, fullK, b), m, last, fullK)
    decreases mn - b
  {
    if b < mn {
      var e := BlockEnd(mn, b);
      var cs := Columns(m, b, b, e);
      var upd := Larfb2(m - b, last - e, if fullK then BlockSize else e - b, b, e);
      ColumnsShaped(m, b, b, e, last, fullK);
      BlocksShaped(m, mn, last, fullK, b + BlockSize);
      ShapedAppend(cs, upd, m, last, fullK);
      ShapedAppend(Block(m, mn, last, fullK, b), Blocks(m, mn, last, fullK, b + BlockSize), m, last, fullK);
    }
  }

  /** Lines 180-207 as written: every call to magma_zlarfbx_gpu is at a
      column after the first of its block and applies exactly the
      reflectors of the block left of it; every trailing update that does
      work applies all 32 reflectors of a full block to the columns from
      the block's end up to min(m, n), so the final block's update (with 0
      columns) always takes the early return of lines 30-31. */
  lemma {:induction false} AsWrittenShape(m: int, n: int, ldda: int, t: seq<Step>, k: int)
    requires ValidateArgs(m, n, ldda) == 0
    requires t == Kernels(Zgeqr2x3AsWritten(m, n, ldda).trace) && 0 <= k < |t|
    ensures && (t[k].Larfbx? ==> 0 < t[k].col - t[k].first == t[k].count && t[k].first % BlockSize == 0)
            && (t[k].UpdateC? ==> t[k].count == BlockSize == t[k].col - t[k].first
                                  && t[k].col + t[k].cols == Min(m, n) && t[k].cols > 0)
  {
    BlocksShaped(m, Min(m, n), Min(m, n), true, 0);
  }

  // Which reflectors reach each column.

  /** The reflectors one call applies to column j, in the order it
      applies them. */
  function AppliedBy(s: Step, j: int): seq<int>
  {
    match s
    case Larfbx(_, count, first, col) => if j == col then Interval(first, first + count) else []
    case UpdateC(_, cols, count, first, col) => if col <= j < col + cols then Interval(first, first + count) else []
    case _ => []
  }

  /** The reflectors a sequence of calls applies to column j, in order and
      with repetitions. */
  function Applied(t: seq<Step>, j: int): seq<int>
  {
    if |t| == 0 then [] else AppliedBy(t[0], j) + Applied(t[1..], j)
  }

  lemma {:induction false} AppliedAppend(a: seq<Step>, b: seq<Step>, j: int)
    ensures Applied(a + b, j) == Applied(a, j) + Applied(b, j)
    decreases |a|
  {
    if |a| > 0 {
      assert (a + b)[1..] == a[1..] + b;
      AppliedAppend(a[1..], b, j);
    } else {
      assert a + b == b;
    }
  }

  lemma {:induction false} AppliedOne(s: Step, j: int)
    ensures Applied([s], j) == AppliedBy(s, j)
  {
    assert [s][1..] == [];
  }

  lemma {:induction false} ColumnsApply(m: int, b: int, i: int, e: int, j: int)
    requires b <= i <= e
    ensures Applied(Columns(m, b, i, e), j) == if i <= j < e then Interval(b, j) else []
    decreases e - i
  {
    if i < e {
      var pre: seq<Step> := if i - b > 0 then [Larfbx(m - b, i - b, b, i)] else [];
      var mid: seq<Step> := [Nrm2(m - i, i)] + [Larfgtx(m - i, i)];
      var rest := Columns(m, b, i + 1, e);
      assert Columns(m, b, i, e) == pre + mid + rest;
      AppliedAppend(pre + mid, rest, j);
      AppliedAppend(pre, mid, j);
      AppliedAppend([Nrm2(m - i, i)], [Larfgtx(m - i, i)], j);
      AppliedOne(Nrm2(m - i, i), j);
      AppliedOne(Larfgtx(m - i, i), j);
      if i - b > 0 {
        AppliedOne(Larfbx(m - b, i - b, b, i), j);
      }
      ColumnsApply(m, b, i + 1, e, j);
    }
  }

  /** A trailing update applies H(first..first+k-1) to columns
      col..col+n-1 when it does work. */
  lemma {:induction false} UpdateApplies(m: int, n: int, k: int, first: int, col: int, j: int)
    ensures Applied(Larfb2(m, n, k, first, col), j)
            == if m > 0 && col <= j < col + n then Interval(first, first + k) else []
  {
    var t := Larfb2(m, n, k, first, col);
    if t != [] {
      assert t == [t[0]] + ([t[1]] + [t[2]]);
      AppliedAppend([t[0]], [t[1]] + [t[2]], j);
      AppliedAppend([t[1]], [t[2]], j);
      AppliedOne(t[0], j);
      AppliedOne(t[1], j);
      AppliedOne(t[2], j);
    }
  }

  /** One block from column b applies its reflectors, up to column j, to
      each column j from b up to `last`. */
  lemma {:induction false} BlockApplies(m: int, mn: int, last: int, fullK: bool, b: int, j: int)
    requires b < mn <= m && mn <= last
    requires fullK ==> last == mn
    ensures Applied(Block(m, mn, last, fullK, b), j)
            == if b <= j < last then Interval(b, Min(j, BlockEnd(mn, b))) else []
  {
    var e := BlockEnd(mn, b);
    var k := if fullK then BlockSize else e - b;
    AppliedAppend(Columns(m, b, b, e), Larfb2(m - b, last - e, k, b, e), j);
    ColumnsApply(m, b, b, e, j);
    UpdateApplies(m - b, last - e, k, b, e, j);
  }

  /** The reflectors the blocks from column b on apply to column j: those
      of the columns from b up to j (and up to min(m, n)), when j is right
      of b and left of `last`. */
  lemma {:induction false} BlocksApply(m: int, mn: int, last: int, fullK: bool, b: nat, j: int)
    requires mn <= m && mn <= last
    requires fullK ==> last == mn
    ensures Applied(Blocks(m, mn, last, fullK, b), j) == if b <= j < last then Interval(b, Min(j, mn)) else []
    decreases mn - b
  {
    if b < mn {
      var e := BlockEnd(mn, b);
      AppliedAppend(Block(m, mn, last, fullK, b), Blocks(m, mn, last, fullK, b + BlockSize), j);
      BlockApplies(m, mn, last, fullK, b, j);
      BlocksApply(m, mn, last, fullK, b + BlockSize, j);
      if b + BlockSize <= j < last {
        IntervalSplit(b, e, Min(j, mn));
      }
    }
  }

  /** The factorization needs H(0), ..., H(min(j, min(m, n)) - 1) applied
      to column j of A, in that order and each once, for every column
      j < n; the corrected routine does that. */
  lemma {:induction false} EveryColumnUpdated(m: int, n: int, ldda: int, j: int, o: Outcome<Step>)
    requires o == Zgeqr2x3(m, n, ldda) && o.info == 0
    requires 0 <= j < n
    ensures Applied(Kernels(o.trace), j) == Interval(0, Min(j, Min(m, n)))
  {
    BlocksApply(m, Min(m, n), n, false, 0, j);
  }

  /** As written, the columns left of min(m, n) get their reflectors but
      those from min(m, n) on (there are some when n > m) get none. */
  lemma {:induction false} AsWrittenSkipsWideColumns(m: int, n: int, ldda: int, j: int, o: Outcome<Step>)
    requires o == Zgeqr2x3AsWritten(m, n, ldda) && o.info == 0
    requires 0 <= j
    ensures j < Min(m, n) ==> Applied(Kernels(o.trace), j) == Interval(0, j)
    ensures j >= Min(m, n) ==> Applied(Kernels(o.trace), j) == []
  {
    BlocksApply(m, Min(m, n), Min(m, n), true, 0, j);
  }

  /** A 2 x 3 matrix: column 2 should get H(0) and H(1), but as written it
      gets neither, so R(0:1, 2) is never computed. */
  lemma {:induction false} AsWrittenWideCounterexample()
    ensures Applied(Kernels(Zgeqr2x3AsWritten(2, 3, 2).trace), 2) == []
    ensures Applied(Kernels(Zgeqr2x3(2, 3, 2).trace), 2) == [0, 1]
  {
    assert ValidateArgs(2, 3, 2) == 0;
    BlocksApply(2, 2, 2, true, 0, 2);
    BlocksApply(2, 2, 3, false, 0, 2);
    assert Interval(0, 2) == [0, 1];
  }
}
