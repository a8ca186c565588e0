/** Option and Result, used for the Python code's `None` values and raised exceptions. */
module Wrappers {

  /** A value that may be absent; `None` stands for Python's `None`. */
  datatype Option<+T> = None | Some(value: T)

  /** The outcome of an operation that may raise: `Failure` carries the exception. */
  datatype Result<+R, +E> = Success(value: R) | Failure(error: E)

  /** The result of a Python function that returns nothing useful. */
  datatype Unit = Unit
}
