/** The absent-value and error-return shapes the rest of the model uses. */
module Results {

  /** A value that may be missing: a document-store lookup that found nothing is None. */
  datatype Option<T> = None | Some(value: T)

  /** An operation that either produces a value or fails with an error. */
  datatype Result<T, E> = Ok(value: T) | Err(error: E)
}
