/** Optional values and results, used by every other module. */
module Wrappers {
  datatype Option<+T> = None | Some(value: T)

  datatype Result<+T, +E> = Ok(value: T) | Err(error: E)

  /** The errors the modelled services raise. */
  datatype Error =
    | NotFound
    | Forbidden
    | InvalidInput
    | Unsupported
    | MissingIdentifier
    | Conflict
    | TooManyValues
    | Incomparable
}
