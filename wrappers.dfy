/** Optional values and results with an error, used for Python's `None`
    and for the exceptions the pipeline raises. */
module Wrappers {

  datatype Option<+T> = None | Some(value: T)

  datatype Result<+R, +E> = Success(value: R) | Failure(error: E)

  /** The outcome of a step that produces no value. */
  datatype Outcome<+E> = Pass | Fail(error: E)
}
