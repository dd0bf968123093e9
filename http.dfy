/** The two HTTP errors the handlers raise, and the result shapes they return.
    A handler either produces its value or raises one of these errors; a raised
    error leaves the state as it was when it was raised. */
module Http {

  datatype Option<+T> = None | Some(value: T)

  /** `HTTPException(status_code=401)` and `HTTPException(status_code=404)`. */
  datatype Error = Unauthorized | NotFound

  /** A handler that returns a body on success. */
  datatype Result<+T> = Ok(value: T) | Err(error: Error)

  /** A handler that answers with no body (204) on success. */
  datatype Outcome = Done | Failed(error: Error)
}
