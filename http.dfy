/**
 * Shared vocabulary of the services: optional values, the HTTP errors a
 * request can end in, and the claims a decoded token carries.
 */
module Http {

  datatype Option<+T> = None | Some(value: T)

  /** An `HTTPException`: the status code and the `detail` text sent back. */
  datatype HttpError = HttpError(status: int, detail: string)

  /** The outcome of a handler or of a dependency that guards it. */
  datatype Result<+T> = Ok(value: T) | Err(error: HttpError)

  /** The decoded payload of a token, claim name to claim value. */
  type Claims = map<string, string>

  /** The configured lifetime handed to the token issuer. */
  datatype Duration = Duration(seconds: int)

  const Unauthorized: int := 401
  const BadRequest: int := 400

  /** What every failure to decode or verify a token turns into. */
  const InvalidToken: HttpError := HttpError(Unauthorized, "Invalid or expired token")
}
