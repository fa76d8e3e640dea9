/** Failure-carrying values shared by the modules of the platform-tools model. */
module Results {

  /** A value that may be absent: a C pointer that may be NULL, an index that may not exist. */
  datatype Option<+T> = None | Some(value: T)

  /** The outcome of an operation the scripting binding either returns or raises as an error. */
  datatype Result<+T, +E> = Ok(value: T) | Err(error: E)
}
