/** The outcome of an operation that the library ends with a panic on some inputs. */
module Results {
  datatype Result<T, E> = Ok(value: T) | Err(error: E)
}
