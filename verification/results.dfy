/** The outcome of an operation that can fail: the value, or the reason it failed. */
module Results {

  datatype Result<T, E> = Ok(value: T) | Err(error: E)

}
