/** Optional values (a nullable reference) and results (a value or the exception that replaced it). */
module Wrappers {

  datatype Option<+T> = None | Some(value: T)

  datatype Result<+R, +E> = Success(value: R) | Failure(error: E)
}
