/** Option and Result, used for the exporter's "not found" and fatal-error outcomes. */
module Wrappers {

  datatype Option<+T> = None | Some(value: T)

  /** A computation that either yields a value or stops the run with an error. */
  datatype Result<+R, +E> = Success(value: R) | Failure(error: E)
}
