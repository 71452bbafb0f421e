/** The outcome of an operation that can fail, and an optional value. */
module Results {
  datatype Option<+T> = None | Some(value: T)
  datatype Result<+T, +E> = Ok(value: T) | Err(error: E)
}
