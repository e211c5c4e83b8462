/** Failure-carrying wrappers shared by the commit-graph and attribute models:
    `Option` for Rust's `Option`, `Result` for Rust's `Result`. */
module Results {

  datatype Option<+T> = None | Some(value: T)

  datatype Result<+T, +E> = Ok(value: T) | Err(error: E)
}
