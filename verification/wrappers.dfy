/** Failure-compatible wrappers shared by the rest of the model. */
module Wrappers {

  /** A value that may be absent: a missing table cell, a column lookup that found nothing. */
  datatype Option<+T> = None | Some(value: T)

  /** The outcome of a step that can fail with an error of type E. */
  datatype Result<+R, +E> = Success(value: R) | Failure(error: E)
}
