/** Result and Option types shared by every component of the model. */
module Wrappers {
  datatype Option<+T> = None | Some(value: T)

  /** A Python call that either returns or raises; `error` names the exception and its reason. */
  datatype Result<+T, +E> = Ok(value: T) | Err(error: E)
}
