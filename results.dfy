/** The two wrapper types the model uses for Python's exceptions and
    dictionary misses. */
module Results {

  datatype Option<+T> = None | Some(value: T)

  datatype Result<+T, +E> = Success(value: T) | Failure(error: E)
}
