/** Option and Result values shared by the rest of the model. */
module Wrappers {

  /** A value that may be absent: Python's `None` or a nullable column. */
  datatype Option<+T> = None | Some(value: T) {

    /** The value, or `default` when there is none. */
    function GetOr(default: T): T {
      if Some? then value else default
    }
  }

  /** Either a value or the error an operation raised or reported. */
  datatype Result<+T, +E> = Ok(value: T) | Err(error: E)
}
