/** Failure-carrying values used where the Python code uses `None`/NaN or raises. */
module Outcome {

  /** A value that may be missing: Python's `None`, or a pandas NaN cell. */
  datatype Option<+T> = None | Some(value: T) {

    /** pandas' `combine_first` on one cell: this value unless it is missing. */
    function OrElse(other: Option<T>): (r: Option<T>)
      ensures Some? ==> r == this
      ensures None? ==> r == other
    {
      if Some? then this else other
    }
  }

  /** Either a value or the error the Python code would raise instead. */
  datatype Result<+T, +E> = Ok(value: T) | Err(error: E)
}
