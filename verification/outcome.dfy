/** Optional values and results with an error, used where a script may find nothing or stop with an exception. */
module Outcome {

  datatype Option<+T> = None | Some(value: T)

  datatype Result<+T, +E> = Success(value: T) | Failure(error: E)
}
