/** Success-or-failure values standing in for the exceptions of the checker script. */
module Results {

  /** Either a value or the error that replaced it (a thrown exception or a rejected promise). */
  datatype Result<+T, +E> = Ok(value: T) | Err(error: E)

  /** The Some/None datatype, used for a pattern match that may or may not succeed. */
  datatype Option<+T> = None | Some(value: T)
}
