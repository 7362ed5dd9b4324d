/** Outcomes of the service's operations: a value, or the exception the
    Python code raises instead of returning. */
module Results {

  /** The exceptions the modelled code raises. `HttpError` is FastAPI's
      HTTPException with its status code and detail text; the others are the
      Python built-in exceptions the code can run into. */
  datatype Error =
    | HttpError(status: int, detail: string)
    | KeyError(key: string)
    | ValueError
    | TypeError

  datatype Result<T> = Ok(value: T) | Err(error: Error)

  datatype Option<T> = None | Some(value: T)
}
