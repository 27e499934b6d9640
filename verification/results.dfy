/** Success/failure values standing for the exceptions the identifier parsers raise,
    and an optional value standing for Python's `None`. */
module Results {

  datatype Option<+T> = None | Some(value: T)

  datatype Result<+T, +E> = Ok(value: T) | Err(error: E)
}
