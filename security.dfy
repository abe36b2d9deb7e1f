/**
 * Token verification as the account and transaction services use it:
 * whatever the decoder refuses (bad signature, expired, malformed) becomes
 * one 401 response.
 */
module Security {
  import opened Http

  /** The decoded claims of a good token; the single 401 for any other. */
  function VerifyJwt(decode: string -> Option<Claims>, token: string): (r: Result<Claims>)
    ensures r.Ok? <==> decode(token).Some?
    ensures r.Ok? ==> r.value == decode(token).value
    ensures r.Err? ==> r.error == InvalidToken
  {
    match decode(token)
    case None => Err(InvalidToken)
    case Some(payload) => Ok(payload)
  }
}
