/** Optional values and failure-carrying results, used where the tool returns `None`
    or raises an exception. */
module Results {

  /** A value that may be missing: Python's `None` or a present value. */
  datatype Option<+T> = None | Some(value: T)
  {
    function GetOr(default: T): T {
      match this
      case Some(v) => v
      case None => default
    }
  }

  /** The outcome of a computation that may raise: a value or the exception raised. */
  datatype Result<+T, +E> = Success(value: T) | Failure(error: E)
}
