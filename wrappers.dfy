/** Optional values and results with an error, as returned by the queries and operations. */
module Wrappers {

  /** A value that may be absent: a query that returned no row is `None`. */
  datatype Option<+T> = None | Some(value: T)

  /** The outcome of an operation that may fail with an error of type `E`. */
  datatype Result<+R, +E> = Success(value: R) | Failure(error: E)
}
