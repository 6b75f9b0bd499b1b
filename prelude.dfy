/** Small shared pieces: an optional value and Python's `int()` applied to a quotient. */
module Prelude {

  datatype Option<T> = None | Some(value: T)

  /** `int(a / d)` in Python for d > 0: true division, then truncation toward zero.
      Dafny's own `/` is Euclidean, which differs from this for negative `a`. */
  function TruncDiv(a: int, d: int): (q: int)
    requires d > 0
    ensures a >= 0 ==> 0 <= a - q * d < d
    ensures a < 0 ==> -d < a - q * d <= 0
  {
    if a >= 0 then a / d else -((-a) / d)
  }
}
