/** Shared vocabulary: bytes and the option and result types that stand for
    Python's "returns a value or raises". */
module Common {

  /** An octet, as held in a Python `bytes` object. */
  type byte = x: int | 0 <= x < 256

  datatype Option<+T> = None | Some(value: T)

  datatype Result<+T, +E> = Ok(value: T) | Err(error: E)

  /** Euclidean division is determined by quotient and remainder. */
  lemma DivModUnique(n: int, d: int, q: int, r: int)
    requires d > 0 && n == q * d + r && 0 <= r < d
    ensures n / d == q && n % d == r
  {
    var q0, r0 := n / d, n % d;
    assert (q - q0) * d == r0 - r;
    MultipleBounds(q - q0, d);
  }

  /** A non-zero multiple of d is at least d away from zero. */
  lemma MultipleBounds(x: int, d: int)
    requires d > 0
    ensures x >= 1 ==> x * d >= d
    ensures x <= -1 ==> x * d <= -d
  {
  }

  /** Splitting a value at a digit boundary and joining the parts gives it back. */
  lemma Split(hi: int, lo: int, k: int)
    requires 0 <= lo < k
    ensures (hi * k + lo) / k == hi && (hi * k + lo) % k == lo
  {
    DivModUnique(hi * k + lo, k, hi, lo);
  }
}
