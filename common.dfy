/** Shared vocabulary of the service layer: identifiers, the clock, optional
    values, the error kinds the services raise, and the abstract password hash. */
module Common {

  /** Row identifiers. The database generates a fresh UUID per row; here
      identifiers are natural numbers handed out by the store in increasing
      order, so they are fresh and also fix the row order of the url listing. */
  type Id = nat

  /** Timestamps read from an abstract clock. */
  type Time = nat

  /** A nullable column or an optional DTO field. */
  datatype Option<T> = None | Some(value: T)

  /** The exception kinds the services throw, each with its message. */
  datatype Error =
    | BadRequest(message: string)    // BadRequestException (HTTP 400)
    | NotFound(message: string)      // NotFoundException (HTTP 404)
    | Unauthorized(message: string)  // UnauthorizedException (HTTP 401)
    | Failed(message: string)        // a plain Error, or a runtime error such as a TypeError
    | QueryFailed(message: string)   // an error raised by the database

  datatype Result<T> = Ok(value: T) | Err(error: Error)

  /** bcrypt's `hash(plaintext, salt)`: deterministic, otherwise unknown. */
  type Hasher = (string, string) -> string

  /** JavaScript truthiness of an optional string field: present and not "". */
  predicate Truthy(field: Option<string>) {
    field.Some? && field.value != ""
  }

  /** The value of an optional field when it is truthy, `current` otherwise. */
  function OrKeep(field: Option<string>, current: string): string
  {
    if Truthy(field) then field.value else current
  }
}
