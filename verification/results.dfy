/** Failure-carrying values used throughout the model: `Option` for a lookup or
    an I/O step that may produce nothing, `Result` for a step that either yields
    a value or stops the run with an error. */
module Results {

  datatype Option<+T> = None | Some(value: T)

  datatype Result<+R, +E> = Ok(value: R) | Err(error: E)
}
