/** Failure-carrying datatypes shared by the model: a missing value and a
    computation that either produced a value or raised an error. */
module Results {

  datatype Option<+T> = None | Some(value: T)

  datatype Result<+T, +E> = Ok(value: T) | Err(error: E)
}
