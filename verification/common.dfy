/** Shared vocabulary of the MAGMA drivers: the BLAS descriptor enumerations,
    enum-typed arguments that may hold an out-of-range value, integer helpers
    and the status codes the drivers return. */
module Common {

  /** magma_trans_t */
  datatype Trans = NoTrans | Transpose | ConjTrans

  /** magma_uplo_t */
  datatype Uplo = Upper | Lower

  /** magma_diag_t */
  datatype Diag = Unit | NonUnit

  /** magma_side_t */
  datatype Side = Left | Right

  /** An enum-typed C argument: either one of the named values, or any other
      integer the caller happened to pass (which validation must reject). */
  datatype Arg<T> = Named(value: T) | Other(code: int)

  /** A value a driver may or may not write. */
  datatype Option<T> = None | Some(value: T)

  /** MAGMA_SUCCESS */
  const Success: int := 0
  /** MAGMA_ERR_HOST_ALLOC */
  const ErrHostAlloc: int := -112
  /** MAGMA_ERR_DEVICE_ALLOC */
  const ErrDeviceAlloc: int := -113

  function Max(a: int, b: int): int { if a < b then b else a }

  function Min(a: int, b: int): int { if a < b then a else b }

  /** magma_ceildiv(x, y): the least q with q * y >= x. */
  function CeilDiv(x: nat, y: nat): (q: nat)
    requires y >= 1
    ensures x <= q * y < x + y
  {
    var q := (x + y - 1) / y;
    var rem := (x + y - 1) % y;
    assert x + y - 1 == q * y + rem && 0 <= rem < y;
    q
  }

  /** magma_roundup(x, y): x rounded up to the next multiple of y. */
  function RoundUp(x: nat, y: nat): (r: nat)
    requires y >= 1
    ensures x <= r < x + y
  {
    CeilDiv(x, y) * y
  }

  /** RoundUp(x, y) is a multiple of y. */
  lemma {:induction false} RoundUpMultiple(x: nat, y: nat)
    requires y >= 1
    ensures RoundUp(x, y) % y == 0
  {
    var q := CeilDiv(x, y);
    MulMod(q, y);
  }

  lemma {:induction false} MulMod(q: nat, y: nat)
    requires y >= 1
    ensures (q * y) % y == 0
  {
    var d, r := (q * y) / y, (q * y) % y;
    assert (q - d) * y == r;
    if q > d {
      MulMonotone(1, q - d, y);
    } else if q < d {
      MulMonotone(1, d - q, y);
    }
  }

  /** Every multiple of y that is at least x is at least RoundUp(x, y):
      RoundUp picks the least such multiple. */
  lemma {:induction false} RoundUpIsLeast(x: nat, y: nat, k: nat)
    requires y >= 1
    requires k * y >= x
    ensures RoundUp(x, y) <= k * y
  {
    var q := CeilDiv(x, y);
    if q > k {
      MulMonotone(k + 1, q, y);
      assert false;
    } else {
      MulMonotone(q, k, y);
    }
  }

  lemma {:induction false} MulMonotone(a: nat, b: nat, y: nat)
    requires a <= b
    ensures a * y <= b * y
  {
  }
}
