/** Optional values and success/failure results, standing in for Python's `None` and raised exceptions. */
module Wrappers {

  /** A value that may be absent (Python's `None`). */
  datatype Option<+T> = None | Some(value: T)

  /** The outcome of an operation that either returns normally or raises. */
  datatype Result<+R, +E> = Success(value: R) | Failure(error: E)

  /** The larger of `a` and `b`. */
  function Max(a: int, b: int): (m: int)
    ensures m >= a && m >= b
    ensures m == a || m == b
  {
    if a >= b then a else b
  }
}
