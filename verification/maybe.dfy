/** Failure-compatible wrappers shared by the rest of the model: `Option`
    for Rust's `Option<T>` and `Result` for Rust's `Result<T, E>`. */
module Maybe {

  datatype Option<+T> = None | Some(value: T)

  datatype Result<+T, +E> = Ok(value: T) | Err(error: E)
}
