/** Failure-carrying values shared by the other modules: a Python function that
    either returns a value, returns None or raises is modelled by one of these. */
module Outcomes {

  /** A value that may be absent (Python's None). */
  datatype Option<+T> = None | Some(value: T)

  /** Either a value or the reason the computation raised. */
  datatype Result<+T, +E> = Success(value: T) | Failure(error: E)

  /** A check that either passes or fails with a reason, carrying no value. */
  datatype Outcome<+E> = Pass | Fail(error: E)
}
