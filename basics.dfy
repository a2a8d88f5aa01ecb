/** Wrapper datatypes shared by the other modules. */
module Basics {

  /** A value that may be absent: a Python argument left as `None`, a node without a string tag. */
  datatype Option<+T> = None | Some(value: T)

  /** The outcome of a Python call that either returns a value or raises an exception. */
  datatype Result<+T, +E> = Ok(value: T) | Err(error: E)

  /** `Python None` becomes the empty default, as in `x if x is not None else []`. */
  function OrElse<T>(o: Option<T>, default: T): T
  {
    match o
    case Some(v) => v
    case None => default
  }
}
