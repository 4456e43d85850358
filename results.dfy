/** Failure-carrying values: a Java `IOException` becomes an `Err`. */
module Results {

  datatype Option<+T> = None | Some(value: T)

  /** The I/O failure a Java call would throw, with its reason. */
  datatype IoError = IoError(reason: string)

  datatype Result<+T> = Ok(value: T) | Err(error: IoError)
}
