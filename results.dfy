/** Failure-carrying return values, standing in for the exceptions the
    Python code raises and the 404 responses its handlers send. */
module Results {

  datatype Option<T> = None | Some(value: T)

  datatype Result<T, E> = Ok(value: T) | Err(error: E)

  /** The outcome of an operation that returns nothing on success. */
  datatype Outcome<E> = Pass | Fail(error: E)
}
