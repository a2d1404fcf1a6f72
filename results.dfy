/** Failure-carrying values shared by the shortlist and schema modules. */
module Results {

  datatype Option<T> = None | Some(value: T)

  /** Either a value or the exception the original code would raise. */
  datatype Result<T, E> = Ok(value: T) | Err(error: E)
}
