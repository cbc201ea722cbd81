/** Error values shared by the store, the ad service and the gRPC port. */
module Errors {

  /** Every error value the core produces.
      DefunctEntity is the store's only error; the other four belong to the
      service (DefunctUser, DefunctAd, PermissionDenied) and to the ad
      validator (ValidationError). */
  datatype Error =
    | DefunctEntity
    | DefunctUser
    | DefunctAd
    | PermissionDenied
    | ValidationError

  /** A Go `error` return: None is `nil`. */
  datatype Option<+T> = None | Some(value: T)

  /** A Go `(value, error)` pair where the value is meaningless on error. */
  datatype Result<+T> = Ok(value: T) | Err(error: Error)
}
