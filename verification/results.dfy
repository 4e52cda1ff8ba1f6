/** Wrappers standing in for Rust's `Option` and for the places where the
    program would panic or return an `Err`. */
module Results {

  datatype Option<+T> = None | Some(value: T)

  datatype Result<+T, +E> = Ok(value: T) | Err(error: E)
}
