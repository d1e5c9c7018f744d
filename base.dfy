/** Option and Result values used for the page's "null" returns and its user-facing errors. */
module Base {

  datatype Option<+T> = None | Some(value: T)

  datatype Result<+T, +E> = Success(value: T) | Failure(error: E)
}
