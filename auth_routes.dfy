/**
 * The auth service's routes: the credential check behind `POST /token`,
 * the token response, and `GET /users/me`.
 *
 * Password checking and token creation are parameters:
 * `verifyPassword(plain, hashed)` and `createToken(claims, expiresDelta)`.
 */
module AuthRoutes {
  import opened Http
  import opened AuthDependencies

  /** The body of a successful `POST /token`. */
  datatype TokenResponse = TokenResponse(accessToken: string, tokenType: string)

  const BadCredentials: HttpError := HttpError(Unauthorized, "Incorrect username or password")

  /**
   * The stored record, when the user exists and the password matches its
   * stored hash; nothing otherwise.
   */
  function AuthenticateUser(db: UserDb, verifyPassword: (string, string) -> bool,
                            username: string, password: string): (r: Option<UserInDB>)
    ensures r.Some? <==> username in db && verifyPassword(password, db[username].hashedPassword)
    ensures r.Some? ==> r.value == db[username]
  {
    if username !in db then None
    else if !verifyPassword(password, db[username].hashedPassword) then None
    else Some(db[username])
  }

  /** The claims a token is issued with: the subject is the stored username. */
  function SubjectClaims(user: UserInDB): (c: Claims)
    ensures c.Keys == {"sub"} && c["sub"] == user.username
  {
    map["sub" := user.username]
  }

  /**
   * `POST /token`. A bad username and a bad password end in the same 401;
   * a good pair yields a bearer token for the record's own username.
   */
  function Login(db: UserDb, verifyPassword: (string, string) -> bool,
                 createToken: (Claims, Duration) -> string, expiresDelta: Duration,
                 username: string, password: string): (r: Result<TokenResponse>)
    ensures r.Ok? <==> username in db && verifyPassword(password, db[username].hashedPassword)
    ensures r.Err? ==> r.error == BadCredentials
    ensures r.Ok? ==>
      r.value.tokenType == "bearer" &&
      r.value.accessToken == createToken(map["sub" := db[username].username], expiresDelta)
  {
    match AuthenticateUser(db, verifyPassword, username, password)
    case None => Err(BadCredentials)
    case Some(user) =>
      var accessToken := createToken(SubjectClaims(user), expiresDelta);
      Ok(TokenResponse(accessToken, "bearer"))
  }

  /** `GET /users/me`: the active current user, as the guard chain resolved it. */
  function ReadUsersMe(decode: string -> Option<Claims>, db: UserDb, token: string): (r: Result<UserInDB>)
    ensures r == GetCurrentActiveUser(decode, db, token)
  {
    GetCurrentActiveUser(decode, db, token)
  }

  /**
   * An unknown user and a wrong password cannot be told apart: any two
   * refused attempts get the identical response.
   */
  lemma RefusalsIndistinguishable(db: UserDb, verifyPassword: (string, string) -> bool,
                                  createToken: (Claims, Duration) -> string, expiresDelta: Duration,
                                  unknown: string, password1: string,
                                  known: string, password2: string)
    requires unknown !in db
    requires known in db && !verifyPassword(password2, db[known].hashedPassword)
    ensures Login(db, verifyPassword, createToken, expiresDelta, unknown, password1)
         == Login(db, verifyPassword, createToken, expiresDelta, known, password2)
         == Err(BadCredentials)
  {
  }

  /**
   * No token is issued on refusal: the response to a refused attempt is
   * the same whatever the token issuer would have produced.
   */
  lemma RefusalIssuesNoToken(db: UserDb, verifyPassword: (string, string) -> bool,
                             createToken1: (Claims, Duration) -> string,
                             createToken2: (Claims, Duration) -> string, expiresDelta: Duration,
                             username: string, password: string)
    requires Login(db, verifyPassword, createToken1, expiresDelta, username, password).Err?
    ensures Login(db, verifyPassword, createToken1, expiresDelta, username, password)
         == Login(db, verifyPassword, createToken2, expiresDelta, username, password)
  {
  }

  /**
   * Decoding a token gives back the subject it was created with. The
   * decoder may add claims of its own (an expiry, say) and drop others;
   * only `sub` has to survive.
   */
  ghost predicate PreservesSubject(decode: string -> Option<Claims>,
                                   createToken: (Claims, Duration) -> string, expiresDelta: Duration)
  {
    forall c :: "sub" in c ==>
      decode(createToken(c, expiresDelta)).Some? &&
      "sub" in decode(createToken(c, expiresDelta)).value &&
      decode(createToken(c, expiresDelta)).value["sub"] == c["sub"]
  }

  /**
   * `PreservesSubject` admits a decoder that adds an expiry: here the token
   * is the subject itself and decoding returns it with an `exp` claim.
   */
  lemma ExpiringDecoderPreservesSubject(expiresDelta: Duration)
    ensures PreservesSubject(
      (t: string) => Some(map["sub" := t, "exp" := "later"]),
      (c: Claims, d: Duration) => if "sub" in c then c["sub"] else "",
      expiresDelta)
  {
  }

  /**
   * Issue, then present: when decoding keeps the subject and the record
   * found under `username` carries that same username, the token from a
   * successful login resolves back to that record. A disabled user can
   * still log in, and is refused with 400 only when presenting the token.
   */
  lemma LoginThenReadUsersMe(db: UserDb, verifyPassword: (string, string) -> bool,
                             createToken: (Claims, Duration) -> string,
                             decode: string -> Option<Claims>, expiresDelta: Duration,
                             username: string, password: string)
    requires PreservesSubject(decode, createToken, expiresDelta)
    requires Login(db, verifyPassword, createToken, expiresDelta, username, password).Ok?
    requires db[username].username == username
    ensures ReadUsersMe(decode, db, Login(db, verifyPassword, createToken, expiresDelta, username, password).value.accessToken)
         == if db[username].disabled then Err(InactiveUser) else Ok(db[username])
  {
    var c := SubjectClaims(db[username]);
    assert "sub" in c;
  }

  /**
   * The subject is the record's own username, not the key it was found
   * under. If that username is another key of the store, the token the
   * caller obtains resolves to the other user's record.
   */
  lemma MisKeyedRecordResolvesToOther(db: UserDb, verifyPassword: (string, string) -> bool,
                                      createToken: (Claims, Duration) -> string,
                                      decode: string -> Option<Claims>, expiresDelta: Duration,
                                      username: string, password: string)
    requires PreservesSubject(decode, createToken, expiresDelta)
    requires Login(db, verifyPassword, createToken, expiresDelta, username, password).Ok?
    requires db[username].username in db
    ensures ReadUsersMe(decode, db, Login(db, verifyPassword, createToken, expiresDelta, username, password).value.accessToken)
         == if db[db[username].username].disabled then Err(InactiveUser) else Ok(db[db[username].username])
  {
    var c := SubjectClaims(db[username]);
    assert "sub" in c;
  }

  /**
   * If the record's username is not a key of the store at all, its owner
   * can log in but every token issued to them is refused with
   * "User not found".
   */
  lemma MisKeyedRecordLocksOut(db: UserDb, verifyPassword: (string, string) -> bool,
                               createToken: (Claims, Duration) -> string,
                               decode: string -> Option<Claims>, expiresDelta: Duration,
                               username: string, password: string)
    requires PreservesSubject(decode, createToken, expiresDelta)
    requires Login(db, verifyPassword, createToken, expiresDelta, username, password).Ok?
    requires db[username].username !in db
    ensures ReadUsersMe(decode, db, Login(db, verifyPassword, createToken, expiresDelta, username, password).value.accessToken)
         == Err(UserNotFound)
  {
    var c := SubjectClaims(db[username]);
    assert "sub" in c;
  }
}
