/** Failure-carrying datatypes shared by the handlers: an optional value and
    a success-or-error outcome. */
module Results {

  datatype Option<+T> = None | Some(value: T)

  datatype Result<+T, +E> = Ok(value: T) | Err(error: E)
}
