/** Option and Result, the two failure-carrying shapes the recognizer returns. */
module Wrappers {

  /** A value that may be absent (Python's `None`). */
  datatype Option<+T> = None | Some(value: T)

  /** Either a successful value or the reason for failing. */
  datatype Result<+R, +E> = Success(value: R) | Failure(error: E)

  /** Python truthiness of an optional string: `None` and `""` are both false. */
  predicate IsTruthy(s: Option<string>) {
    s.Some? && s.value != ""
  }
}
