/** Option and Result: the failure-carrying values used across the model. */
module Wrappers {

  /** A value that may be absent, as `undefined`/`null` is in the scraper. */
  datatype Option<+T> = None | Some(value: T)

  /** The outcome of a step that can abort the run. */
  datatype Result<+R, +E> = Success(value: R) | Failure(error: E)
}
