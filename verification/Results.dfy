/** Optional values and error results, in place of Go's (value, ok) and (value, error) pairs. */
module Results {
  datatype Option<+T> = None | Some(value: T)

  datatype Result<+T, +E> = Success(value: T) | Failure(error: E)
}
