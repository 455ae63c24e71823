/** Failure-carrying values shared by every module of the model. */
module Wrappers {

  datatype Option<+T> = None | Some(value: T)

  datatype Result<+T, +E> = Ok(value: T) | Err(error: E)

  /** An HTTPException raised by a route: its status code and its detail text.
      Where the source interpolates an exception's message into the detail,
      the detail holds only the fixed prefix. */
  datatype HttpError = HttpError(status: int, detail: string)
}
