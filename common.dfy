/** Small value types shared by every route: an optional value and an HTTP-style reply. */
module Common {

  datatype Option<T> = None | Some(value: T)

  /** The reply of a route: a JSON body with status 200, a 400 with an error message,
      or a 500 with an error message. */
  datatype Response<T> = Ok(body: T) | BadRequest(error: string) | ServerError(error: string)

  function Min(a: int, b: int): int
  {
    if a <= b then a else b
  }
}
