/** Option and Result, used for the query lookups and for the run's fatal outcomes. */
module Results {

  datatype Option<T> = None | Some(value: T)

  datatype Result<T, E> = Ok(value: T) | Err(error: E)
}
