/** Optional values (Python's `None`) and two-way results (a value or a rejection). */
module Wrappers {

  datatype Option<+T> = None | Some(value: T)

  datatype Result<+R, +E> = Success(value: R) | Failure(error: E)
}
