/** Option and Result values shared by the line buffer and the engine. */
module Results {

  /** Rust's `Option<T>`: what `String::pop` returns. */
  datatype Option<+T> = None | Some(value: T)

  /** The outcome of running edit commands: either the state they leave,
      or the panic that aborted the run. */
  datatype Result<+T, +E> = Ok(value: T) | Err(error: E)
}
