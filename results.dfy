/** The outcome of a decoder: the decoded table, or the reason the source
    raises an exception instead of returning one. */
module Results {
  datatype Result<+T, +E> = Success(value: T) | Failure(error: E)

  datatype Option<+T> = None | Some(value: T)
}
