/** The two failure-carrying wrappers the interpreter uses throughout:
    Rust's `Option<T>` and `Result<T, E>`. */
module Results {

  datatype Option<+T> = None | Some(value: T) {
    /** `Option::unwrap_or`: the wrapped value, or `default` when there is none. */
    function UnwrapOr(default: T): T {
      match this
      case Some(v) => v
      case None => default
    }
  }

  datatype Result<+T, +E> = Ok(value: T) | Err(error: E)
}
