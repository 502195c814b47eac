/** Outcomes of a request handler: a value, or the HTTP error FastAPI sends back. */
module Http {

  datatype Option<+T> = None | Some(value: T)

  /** An `HTTPException` (or an unhandled exception) as the status code and detail the client sees. */
  datatype HttpError = HttpError(status: nat, detail: string)

  datatype Result<+T> = Ok(value: T) | Err(error: HttpError)

  const BAD_REQUEST: nat := 400
  const NOT_FOUND: nat := 404
  const INTERNAL_SERVER_ERROR: nat := 500

  /** What FastAPI answers when a handler raises an exception that is not an `HTTPException`. */
  const UNHANDLED := HttpError(INTERNAL_SERVER_ERROR, "Internal Server Error")

  /** Python truthiness of an optional string: `None` and `""` are false. */
  predicate Truthy(s: Option<string>)
  {
    s.Some? && s.value != ""
  }
}
