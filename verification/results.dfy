/** Failure-carrying values used in place of the IndexError and KeyError
    exceptions that pandas and numpy raise in `ev.py`. */
module Results {

  /** A value that may be absent; `None` also stands for a floating-point NaN. */
  datatype Option<+T> = None | Some(value: T)

  /** The outcome of an operation that either succeeds with a value or fails
      with a named error. */
  datatype Result<+T, +E> = Ok(value: T) | Err(error: E)
}
