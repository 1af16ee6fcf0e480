/** Failure-carrying values used by the model: an optional value and a
    value-or-error result (the Go code's `(value, err)` pairs and panics). */
module Results {

  datatype Option<+T> = None | Some(value: T)

  datatype Result<+T, +E> = Success(value: T) | Failure(error: E) {

    /** The error this result carries, if any. */
    function ErrorOf(): (e: Option<E>) {
      match this
      case Success(_) => None
      case Failure(e) => Some(e)
    }
  }
}
