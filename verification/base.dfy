/** Small vocabulary shared by every other module: optional values,
    results with an error message, and powers of two. */
module Base {

  /** A value that may be missing: Python's `None` versus a present value. */
  datatype Option<+T> = None | Some(value: T) {
    function GetOr(default: T): T {
      match this
      case Some(v) => v
      case None => default
    }
  }

  /** The outcome of an operation that may raise: the success value or the
      text of the exception. */
  datatype Result<+T> = Success(value: T) | Failure(error: string)

  /** 2^n. */
  function Pow2(n: nat): (r: nat)
    ensures r >= 1
  {
    if n == 0 then 1 else 2 * Pow2(n - 1)
  }

  /** Powers of two grow with the exponent. */
  lemma {:induction false} Pow2Monotone(m: nat, n: nat)
    requires m <= n
    ensures Pow2(m) <= Pow2(n)
    decreases n
  {
    if m < n {
      Pow2Monotone(m, n - 1);
    }
  }

  /** Powers of two grow strictly with the exponent. */
  lemma Pow2StrictlyMonotone(m: nat, n: nat)
    requires m < n
    ensures Pow2(m) < Pow2(n)
  {
    Pow2Monotone(m, n - 1);
  }

  function Min(a: int, b: int): int {
    if a <= b then a else b
  }
}
