/** Option and Result, the two failure-carrying datatypes the model uses in
    place of pandas' missing values and Python's exceptions. */
module Wrappers {

  /** A value that may be absent (a `NaN` cell in the catalog table). */
  datatype Option<+T> = None | Some(value: T)

  /** The outcome of an operation that the source lets raise. */
  datatype Result<+R, +E> = Success(value: R) | Failure(error: E)
}
