/** The outcome of an operation that returns either a value or an error,
    as Go's `(value, error)` pairs do. */
module Results {

  datatype Result<+T, +E> = Ok(value: T) | Err(error: E)
}
