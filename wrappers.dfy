/** Option and Result values used where the source returns `None` or raises. */
module Wrappers {

  datatype Option<+T> = None | Some(value: T) {

    /** The contained value, or `default` when absent (Python's `x if x is not None else default`). */
    function GetOr(default: T): T {
      match this
      case Some(v) => v
      case None => default
    }
  }

  /** `Ok` carries what the source returns; `Err` stands for the exception it raises. */
  datatype Result<+T, +E> = Ok(value: T) | Err(error: E)
}
