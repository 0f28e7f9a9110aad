/** Option and Result, the shapes in which the model returns Go's (value, error) pairs. */
module Wrappers {

  datatype Option<+T> = None | Some(value: T)

  /** A Go `(T, error)` pair: `Failure` stands for a non-nil error. */
  datatype Result<+T, +E> = Success(value: T) | Failure(error: E) {

    /** The value component of the Go pair; Go returns the zero value beside an error. */
    function GetOr(zero: T): T {
      match this
      case Success(v) => v
      case Failure(_) => zero
    }
  }
}
