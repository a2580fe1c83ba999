/** Failure-carrying values used by the model: an optional value and a
    success-or-error result, the shape of Rust's Option and Result. */
module Results {

  datatype Option<+T> = None | Some(value: T)

  datatype Result<+T, +E> = Ok(value: T) | Err(error: E)
}
