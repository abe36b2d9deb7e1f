/**
 * The auth service's per-request guard chain: decode the bearer token,
 * read its `sub` claim, look the subject up in the user store, and refuse
 * a disabled user. Each step has its own outcome, and a later step runs
 * only when every earlier one succeeded.
 *
 * Token decoding is a parameter (`decode`): it yields the claims of a
 * good token and `None` for any token it refuses.
 */
module AuthDependencies {
  import opened Http

  /** A stored user record, as the user store holds it. */
  datatype UserInDB = UserInDB(
    username: string,
    email: string,
    fullName: string,
    disabled: bool,
    hashedPassword: string)

  /** The user store: username to record. */
  type UserDb = map<string, UserInDB>

  const InvalidPayload: HttpError := HttpError(Unauthorized, "Invalid token payload")
  const UserNotFound: HttpError := HttpError(Unauthorized, "User not found")
  const InactiveUser: HttpError := HttpError(BadRequest, "Inactive user")

  /** The record stored under `username`, if there is one. */
  function GetUser(db: UserDb, username: string): (r: Option<UserInDB>)
    ensures r.Some? <==> username in db
    ensures r.Some? ==> r.value == db[username]
  {
    if username in db then Some(db[username]) else None
  }

  /**
   * Resolves a token to the user it names. The four outcomes are told
   * apart exactly by how far the token gets through decode, `sub` and
   * lookup.
   */
  function GetCurrentUser(decode: string -> Option<Claims>, db: UserDb, token: string): (r: Result<UserInDB>)
    ensures r == Err(InvalidToken) <==> decode(token).None?
    ensures r == Err(InvalidPayload) <==> decode(token).Some? && "sub" !in decode(token).value
    ensures r == Err(UserNotFound) <==>
      decode(token).Some? && "sub" in decode(token).value && decode(token).value["sub"] !in db
    ensures r.Ok? <==>
      decode(token).Some? && "sub" in decode(token).value && decode(token).value["sub"] in db
    ensures r.Ok? ==> r.value == db[decode(token).value["sub"]]
  {
    match decode(token)
    case None => Err(InvalidToken)
    case Some(payload) =>
      if "sub" !in payload then Err(InvalidPayload)
      else
        match GetUser(db, payload["sub"])
        case None => Err(UserNotFound)
        case Some(user) => Ok(user)
  }

  /**
   * `GetCurrentUser` followed by the disabled check. The whole chain's
   * five outcomes, each with the exact condition under which it occurs.
   */
  function GetCurrentActiveUser(decode: string -> Option<Claims>, db: UserDb, token: string): (r: Result<UserInDB>)
    ensures r == Err(InvalidToken) <==> decode(token).None?
    ensures r == Err(InvalidPayload) <==> decode(token).Some? && "sub" !in decode(token).value
    ensures r == Err(UserNotFound) <==>
      decode(token).Some? && "sub" in decode(token).value && decode(token).value["sub"] !in db
    ensures r == Err(InactiveUser) <==>
      decode(token).Some? && "sub" in decode(token).value && decode(token).value["sub"] in db &&
      db[decode(token).value["sub"]].disabled
    ensures r.Ok? <==>
      decode(token).Some? && "sub" in decode(token).value && decode(token).value["sub"] in db &&
      !db[decode(token).value["sub"]].disabled
    ensures r.Ok? ==> r.value == db[decode(token).value["sub"]] && !r.value.disabled
  {
    match GetCurrentUser(decode, db, token)
    case Err(e) => Err(e)
    case Ok(user) => if user.disabled then Err(InactiveUser) else Ok(user)
  }

  /**
   * The disabled check runs last: a token that fails an earlier step gets
   * that step's 401, never the 400 reserved for a disabled user, whatever
   * the store holds.
   */
  lemma BadTokenNeverInactive(decode: string -> Option<Claims>, db: UserDb, token: string)
    requires GetCurrentUser(decode, db, token).Err?
    ensures GetCurrentActiveUser(decode, db, token) == GetCurrentUser(decode, db, token)
    ensures GetCurrentActiveUser(decode, db, token).error.status == Unauthorized
  {
  }

  /** Status 400 is given exactly to a resolvable subject whose record is disabled. */
  lemma InactiveIffDisabled(decode: string -> Option<Claims>, db: UserDb, token: string)
    ensures GetCurrentActiveUser(decode, db, token).Err? &&
            GetCurrentActiveUser(decode, db, token).error.status == BadRequest
        <==>
            GetCurrentUser(decode, db, token).Ok? && GetCurrentUser(decode, db, token).value.disabled
  {
  }

  /**
   * The chain depends on the store only through the record under the
   * token's subject: two stores that agree on that key give the same
   * outcome. In particular a payload without `sub` is refused without
   * looking at the store at all.
   */
  lemma OnlySubjectLookedUp(decode: string -> Option<Claims>, db1: UserDb, db2: UserDb, token: string)
    requires decode(token).None? || "sub" !in decode(token).value ||
             ((decode(token).value["sub"] in db1 <==> decode(token).value["sub"] in db2) &&
              (decode(token).value["sub"] in db1 ==> db1[decode(token).value["sub"]] == db2[decode(token).value["sub"]]))
    ensures GetCurrentActiveUser(decode, db1, token) == GetCurrentActiveUser(decode, db2, token)
  {
  }
}
