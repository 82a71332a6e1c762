/** Failure-carrying values shared by every module of the model. */
module Results {

  /** A value that may be absent. */
  datatype Option<+T> = None | Some(value: T)

  /** Either a value or the error the source would raise. */
  datatype Result<+T, +E> = Ok(value: T) | Err(error: E)
}
