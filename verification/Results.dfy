/** Optional values, and the success-or-error value every decoding and construction step returns. */
module Results {

  datatype Option<+T> = None | Some(value: T)

  datatype Result<+T, +E> = Success(value: T) | Failure(error: E)
}
