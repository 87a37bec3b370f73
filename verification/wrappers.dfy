/** Failure-carrying results: Python's `None` returns and caught exceptions. */
module Wrappers {

  /** A value or nothing: the `str | None` results of the ciphers. */
  datatype Option<+T> = None | Some(value: T)

  /** A value or a typed error: the `ValueError`s raised by `add_morse`. */
  datatype Result<+T, +E> = Success(value: T) | Failure(error: E)
}
