/** Option and result types shared by the estimator modules. */
module Wrappers {

  /** A value that may be missing: `None` stands for JavaScript's `NaN` or `undefined`. */
  datatype Option<+T> = None | Some(value: T)

  /** The outcome of an operation that either produces a value or reports an error. */
  datatype Result<+R, +E> = Success(value: R) | Failure(error: E)
}
