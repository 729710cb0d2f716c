/** Absence and failure values shared by every layer of the model. */
module Results {

  /** A value that may be missing: the model's reading of a `null` return. */
  datatype Option<+T> = None | Some(value: T)

  /** The outcome of a call that may throw: `Err` carries what was thrown. */
  datatype Result<+T, +E> = Ok(value: T) | Err(error: E)
}
