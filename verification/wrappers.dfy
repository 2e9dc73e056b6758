/** Option and Result values used for Python's `None` and for raised exceptions. */
module Wrappers {

  /** `None` stands for Python's `None`; `Some(v)` for any other value. */
  datatype Option<+T> = None | Some(value: T)

  /** The outcome of an operation that may raise: its value, or the error it raised. */
  datatype Result<+R, +E> = Success(value: R) | Failure(error: E)
}
