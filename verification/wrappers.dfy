/** Option and Result datatypes used across the model: `Option` for values that
    may be absent (a title, a heading index) and `Result` for operations that can
    fail with an I/O error (reading a reply from the terminal). */
module Wrappers {

  datatype Option<+T> = None | Some(value: T) {

    /** Returns the wrapped value, or `default` when there is none
        (Rust's `Option::unwrap_or`). */
    function GetOr(default: T): T {
      match this
      case Some(v) => v
      case None => default
    }
  }

  datatype Result<+R, +E> = Success(value: R) | Failure(error: E)
}
