/** Option and Result datatypes standing for Go's nil values and (value, error) pairs. */
module Wrappers {

  /** A value that may be absent; stands for a Go value that may be nil. */
  datatype Option<+T> = None | Some(value: T)

  /** A value or an error; stands for Go's `(value, error)` return pair. */
  datatype Result<+R, +E> = Success(value: R) | Failure(error: E)
}
