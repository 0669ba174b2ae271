/**
 * The outcome of an operation that can throw: a value, or the exception the
 * C# code would raise instead.
 */
module Results {

  datatype Option<T> = None | Some(value: T)

  datatype Result<T, E> = Ok(value: T) | Err(error: E)
}
