/** The error outcomes the backend's handlers end in, and a result type that carries them. */
module Results {

  /** The HTTP status a failed request ends with. */
  datatype Status =
    | NotFound       // 404
    | Unprocessable  // 422
    | ServerError    // 500: the handler raised outside a try block or returned nothing

  datatype Result<T> = Ok(value: T) | Err(status: Status)

  datatype Option<T> = None | Some(value: T)
}
