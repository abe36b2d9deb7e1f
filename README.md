# SecureBank authentication and transaction guard, modelled in Dafny

SecureBank is a set of small HTTP microservices. This project models the
parts of two of them that make decisions:

- the **auth service**: the username/password check behind `POST /token`,
  the bearer token it issues, and the guard chain behind `GET /users/me`
  (decode the token, read its `sub` claim, look the user up, refuse a
  disabled user);
- the **transaction service**: its guard, which removes every `"Bearer "`
  from the `Authorization` header with Python's `str.replace` and verifies
  what is left, and the in-memory transaction list that `POST
  /transactions/` appends to and `GET /transactions/` returns.

Cryptography is not modelled. Token decoding is a parameter
`decode: string -> Option<Claims>`, password checking a parameter
`verifyPassword(plain, hashed)`, and token creation a parameter
`createToken(claims, expiresDelta)`. The user store, the configured expiry
and the initial transaction list are parameters as well. Every HTTP outcome
is a `Result`: `Ok(value)` or `Err(HttpError(status, detail))`.

Files, one module each:

- `http.dfy` (`Http`): `Option`, `HttpError`, `Result`, `Claims`, `Duration`.
- `auth_dependencies.dfy` (`AuthDependencies`): the user record and the guard chain.
- `auth_routes.dfy` (`AuthRoutes`): credential check, login, `/users/me`.
- `security.dfy` (`Security`): `verify_jwt`, which turns every decode failure into one 401.
- `transaction_dependencies.dfy` (`TransactionDependencies`): `str.replace("Bearer ", "")` and the guard.
- `transaction_routes.dfy` (`TransactionRoutes`): the transaction store as a class with a `seq` field.

Points where the code's behaviour is easy to misread:

- A disabled user gets status 400 "Inactive user", not 403.
- The header strip removes every non-overlapping `"Bearer "`, wherever
  it stands in the header, not only a leading prefix
  (`MiddleOccurrenceRemoved`). One pass can also leave a new `"Bearer "`
  behind (`StripNotIdempotent`).
- The issued token's subject is the `username` field of the record found
  at login, not the key it was found under. Only that one entry matters:
  - if its `username` equals its key, presenting the token gives back that
    record (`LoginThenReadUsersMe`);
  - if its `username` is some other key, presenting the token gives back the
    other user's record (`MisKeyedRecordResolvesToOther`);
  - if its `username` is not a key at all, the token is refused with 401
    "User not found" (`MisKeyedRecordLocksOut`).
  These three lemmas assume only that decoding a token returns the `sub`
  it was created with; the decoder may add claims such as an expiry.
- A disabled user can still log in. The 400 comes only when the token is
  presented.

## Model

| member | source | states |
|---|---|---|
| AuthDependencies.GetUser | apps/auth-service/app/dependencies.py:11-13 | a record comes back if and only if the username is a key of the store, and it is the record stored under that key |
| AuthDependencies.GetCurrentUser | apps/auth-service/app/dependencies.py:15-27 | each of the four outcomes holds exactly when its condition does: undecodable token gives 401 "Invalid or expired token"; payload without `sub` gives 401 "Invalid token payload"; `sub` not in the store gives 401 "User not found"; otherwise success with the record stored under `sub` |
| AuthDependencies.GetCurrentActiveUser | apps/auth-service/app/dependencies.py:18-34 | the whole chain's five outcomes in terms of the token and the store; 400 "Inactive user" exactly when `sub` resolves to a disabled record; a success is the record under `sub` and is not disabled |
| AuthDependencies.BadTokenNeverInactive | apps/auth-service/app/dependencies.py:18-34 | when resolution fails, the active-user check passes that failure through unchanged, and its status is 401, never 400 |
| AuthDependencies.InactiveIffDisabled | apps/auth-service/app/dependencies.py:32-33 | status 400 comes back if and only if resolution succeeded and the resolved user is disabled |
| AuthDependencies.OnlySubjectLookedUp | apps/auth-service/app/dependencies.py:18-25 | the outcome depends on the store only through the entry under `sub`; a token with no `sub` gets the same outcome against any store |
| AuthRoutes.AuthenticateUser | apps/auth-service/app/routes/auth.py:14-20 | a record comes back if and only if the username is in the store and the password check holds for its stored hash, and it is exactly that stored record |
| AuthRoutes.SubjectClaims | apps/auth-service/app/routes/auth.py:34 | the claims have the single key `sub`, holding the record's username |
| AuthRoutes.Login | apps/auth-service/app/routes/auth.py:22-37 | success if and only if the user exists and the password matches; every refusal is 401 "Incorrect username or password"; success returns token type "bearer" and the token created from `{"sub": username of the record}` and the configured expiry |
| AuthRoutes.ReadUsersMe | apps/auth-service/app/routes/auth.py:39-43 | returns the guard chain's result unchanged: the active current user, or the chain's error |
| AuthRoutes.RefusalsIndistinguishable | apps/auth-service/app/routes/auth.py:26-31 | an unknown user and a known user with a wrong password get the identical response |
| AuthRoutes.RefusalIssuesNoToken | apps/auth-service/app/routes/auth.py:26-36 | a refused login's response does not depend on the token issuer at all |
| AuthRoutes.ExpiringDecoderPreservesSubject | apps/auth-service/app/routes/auth.py:33-36 | the hypothesis of the three lemmas below is met by a decoder that returns the subject together with an added `exp` claim, so they are not limited to a decoder that exactly undoes token creation |
| AuthRoutes.LoginThenReadUsersMe | apps/auth-service/app/routes/auth.py:33-43 | when decoding returns the `sub` a token was created with, and the record found under the login name carries that same username, the token from a successful login resolves back to that record, or to 400 "Inactive user" if it is disabled |
| AuthRoutes.MisKeyedRecordResolvesToOther | apps/auth-service/app/routes/auth.py:34 | if the record's username is a different key of the store, the token its owner obtains resolves to the record under that other key (or to 400 if that record is disabled) |
| AuthRoutes.MisKeyedRecordLocksOut | apps/auth-service/app/routes/auth.py:34 | if the record's username is not a key of the store, the token its owner obtains is refused with 401 "User not found" |
| Security.VerifyJwt | apps/account-service/app/security.py:6-13 | success if and only if the decoder accepts the token, carrying its claims; every refusal is 401 "Invalid or expired token" |
| TransactionDependencies.StripBearer | apps/transaction-service/app/dependencies.py:9 | removing `"Bearer "` never makes the header longer |
| TransactionDependencies.StripLength | apps/transaction-service/app/dependencies.py:9 | the result is 7 characters shorter per occurrence found in the left-to-right, non-overlapping scan |
| TransactionDependencies.ContainsFound | apps/transaction-service/app/dependencies.py:9 | the scan finds at least one occurrence whenever the header contains one |
| TransactionDependencies.FoundContains | apps/transaction-service/app/dependencies.py:9 | a positive count from the scan means the header really contains `"Bearer "`: with the lemma above, the count is positive exactly when there is an occurrence |
| TransactionDependencies.NoOccurrenceUnchanged | apps/transaction-service/app/dependencies.py:9 | a header without `"Bearer "` comes back unchanged |
| TransactionDependencies.UnchangedIffNoOccurrence | apps/transaction-service/app/dependencies.py:9 | the header is left unchanged if and only if it contains no `"Bearer "` |
| TransactionDependencies.ShiftMatch | apps/transaction-service/app/dependencies.py:9 | an occurrence at position `i + 1` of a header is an occurrence at `i` of the header without its first character, and conversely |
| TransactionDependencies.StripSkip | apps/transaction-service/app/dependencies.py:9 | characters before the first occurrence are kept in place |
| TransactionDependencies.FirstOccurrenceRemoved | apps/transaction-service/app/dependencies.py:9 | the first occurrence is cut out wherever it stands and the scan resumes right after it |
| TransactionDependencies.PrefixStripped | apps/transaction-service/app/dependencies.py:9 | `"Bearer " + t` strips to exactly `t` when `t` contains no `"Bearer "` |
| TransactionDependencies.MiddleOccurrenceRemoved | apps/transaction-service/app/dependencies.py:9 | removal is not anchored: `"xBearer y"` strips to `"xy"` |
| TransactionDependencies.StripNotIdempotent | apps/transaction-service/app/dependencies.py:9 | one pass is not a fixed point: `"BearBearer er "` strips to `"Bearer "`, which strips again to `""` |
| TransactionDependencies.GetCurrentUser | apps/transaction-service/app/dependencies.py:6-10 | refuses if and only if the decoder rejects the stripped header, always with 401 "Invalid or expired token"; a success carries the stripped header's claims |
| TransactionDependencies.MissingPrefixTolerated | apps/transaction-service/app/dependencies.py:9-10 | a header without `"Bearer "` is verified as it is; a missing prefix alone never causes a refusal |
| TransactionDependencies.BearerHeaderVerifiesToken | apps/transaction-service/app/dependencies.py:9-10 | the header `"Bearer " + token` is verified as exactly `token` when `token` contains no `"Bearer "` |
| TransactionRoutes.TransactionStore.constructor | apps/transaction-service/app/routes/api.py:5 | the store starts with the given initial list |
| TransactionRoutes.TransactionStore.CreateTransaction | apps/transaction-service/app/routes/api.py:9-15 | success if and only if the guard accepts; on success the given transaction is appended once at the end, earlier records are unchanged and keep their order, and the transaction is returned; on refusal the store is unchanged and the error is the guard's 401; the new state does not mention the caller's claims |
| TransactionRoutes.TransactionStore.ListTransactions | apps/transaction-service/app/routes/api.py:17-19 | success if and only if the guard accepts, returning the current list exactly; it modifies nothing |

## Left out

- Token signing, decoding and expiry (PyJWT, and the auth service's `decode_token` and `create_access_token`, which are not part of this model): `decode` and `createToken` are parameters; time and signatures are not modelled.
- The auth service's `decode_token` is assumed to refuse exactly as `verify_jwt` does, with 401 "Invalid or expired token"; its own code is not part of this model.
- The transaction service's `app/security.py` is not part of this model; its `verify_jwt` is taken to be the account service's.
- Password hashing: `verify_password` is a parameter.
- FastAPI wiring: `Depends`, async handlers, `OAuth2PasswordBearer` header parsing (including its own 401 for a missing header), `Header()` extraction. The only framework rule modelled is that a failing dependency stops the handler from running.
- Response serialisation: `response_model=User` and `response_model=Token` filtering (for instance, dropping the hashed password from `/users/me`) and `model_dump` on stored transactions. The model returns and stores the values themselves.
- AuthenticateUser: user records are datatypes with every field present, so Python's "an empty dict is falsy" case of `if not user` does not arise; a record missing `hashed_password` would raise in the source and is not modelled either.
- The `disabled` flag is a `bool`; a missing or `None` flag (falsy in the source) is not modelled separately.
- Claim values are strings; a JSON `sub` that is null or not a string is not modelled.
- Health endpoints, app construction, the notification echo, the account listing, Pydantic models, the float account balance and configuration values: routing glue or data with no decisions in them.
- Concurrency: requests are modelled one at a time.
