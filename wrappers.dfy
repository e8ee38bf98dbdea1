/** Option and Result, the two failure-carrying shapes the pipeline needs. */
module Wrappers {

  /** A value that may be absent: pandas' NaN / NaT in a column. */
  datatype Option<+T> = None | Some(value: T)

  /** The outcome of a step that can stop the page with an error. */
  datatype Result<+T, +E> = Success(value: T) | Failure(error: E)
}
