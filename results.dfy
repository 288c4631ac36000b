/** Success/failure values standing in for the Python code's exceptions. */
module Results {

  datatype Option<T> = None | Some(value: T)

  datatype Result<T, E> = Success(value: T) | Failure(error: E)

  /** A result that carries no value on success. */
  datatype Outcome<E> = Pass | Fail(error: E)
}
