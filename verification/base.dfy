/** Failure-carrying values shared by the whole model. */
module Base {

  /** A value that may be absent (a Python call that raised, or a missing tag). */
  datatype Option<+T> = None | Some(value: T)

  /** A value or the error that replaced it. */
  datatype Result<+T, +E> = Ok(value: T) | Err(error: E)
}
