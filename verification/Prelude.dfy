/** Result types shared by every module: the source's None and its exceptions. */
module Prelude {

  datatype Option<+T> = None | Some(value: T)

  datatype Result<+T, +E> = Ok(value: T) | Err(error: E)

  /** The last element, or None for an empty list (`xs[-1] if xs else None`). */
  function Last<T>(xs: seq<T>): Option<T> {
    if xs == [] then None else Some(xs[|xs| - 1])
  }
}
