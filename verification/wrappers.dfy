/** Optional values and results with an error path. */
module Wrappers {

  datatype Option<T> = None | Some(value: T)

  /** The outcome of an operation that BrownCluster aborts with an exception. */
  datatype Result<T> = Success(value: T) | Failure(error: string)
}
