/** Optional values and results with an error, shared by every module of the model.
    `None` stands for a missing value (pandas NaN); `Failure` for an exception that
    ends the run. */
module Wrappers {

  datatype Option<+T> = None | Some(value: T)

  datatype Result<+T, +E> = Success(value: T) | Failure(error: E)
}
