/** Failure-carrying values shared by the decoder, the volume builder and the renderer. */
module Base {

  datatype Option<+T> = None | Some(value: T)

  /** The outcome of an operation that the source ends by throwing: a value, or the error it throws. */
  datatype Result<+T, +E> = Ok(value: T) | Err(error: E)
}
