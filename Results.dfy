/** Option and Result values for lookups that may find nothing and for
    operations that the decoding script aborts with an exception. */
module Results {
  datatype Option<T> = None | Some(value: T)

  datatype Result<T, E> = Ok(value: T) | Err(error: E)
}
