/** Failure-carrying wrappers used throughout the model: `Option` stands for a
    JavaScript value that may be `null`, `Result` for an operation that may throw. */
module Results {

  datatype Option<+T> = None | Some(value: T)

  datatype Result<+R, +E> = Ok(value: R) | Err(error: E)
}
