/** Values that may be missing. */
module Options {

  datatype Option<T> = None | Some(value: T)

  /** The first of the two that is present. */
  function OrElse<T>(a: Option<T>, b: Option<T>): Option<T> {
    if a.Some? then a else b
  }

  datatype Result<T, E> = Ok(value: T) | Err(error: E)
}
