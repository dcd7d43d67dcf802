# User-account session backend, modelled in Dafny

This project models the session and credential core of a small Express/Prisma
user-account backend: the user controller's handlers (register, login, logout,
refresh-token rotation, password change, with their helpers `checkPassword` and
`generateAccessAndRefreshToken`) over an in-memory user table, and the ORM
query hook that hashes `data.password` on every `create` and `update` of a user.

Layout, one module per file:

- `wrappers.dfy` (`Wrappers`): `Option` and `Result`.
- `errors.dfy` (`Errors`): one error per `ApiError` the controller throws that the model can
  reach (the register read-back 500 cannot; see "## Left out"), plus `Uncaught` for exceptions
  thrown by libraries or by the store, and the HTTP status of each.
- `text.dfy` (`Text`): JavaScript's `trim` and truthiness of optional strings.
- `bcrypt.dfy` (`Bcrypt`), `jwt.dfy` (`Jwt`): stand-ins for the hashing and token libraries.
  `Hash(p)` is the cost prefix `$2b$10$` followed by `p`, so `Compare(p, Hash(p))` holds and a
  digest accepts no other password. A signed token carries its claims, its key and its issue
  second; two tokens signed with the same claims and key in the same second are the same token,
  so consecutive tokens are not assumed to differ.
- `records.dfy` (`Records`): the user row, the `data` object of a query, the public projection.
- `store.dfy` (`Store`): class `UserTable`, the table with the queries the controller issues.
  `prisma.user` and `prisma.User` are the same table.
- `middleware.dfy` (`UserMiddleware`): class `Args` (the hook's mutable `args`), the hooks
  `Create`/`Update` that rewrite `args.data.password` in place and delegate once to the query,
  and `HashOnWrite`, the rule as a function.
- `session.dfy` (`Session`): each handler as a function from the table (and request, secrets,
  clock) to its result and the new table, with the properties relating handlers as lemmas.
- `trace.dfy` (`Trace`): any sequence of handler calls on the shared table, and the invariants
  every call keeps (unique identities, each stored refresh token bound to its own row, every
  stored password absent, empty or a digest).
- `controller.dfy` (`Controller`): class `UserController`, the handlers written step by step
  (guard, early-exit error, hooked write), each proved equal to its `Session` function.

Clock and environment are parameters: `now` (seconds) is the issue time of signed tokens and
the creation time of rows; `Config` holds the two signing secrets. The authenticated caller id
that the JWT middleware attaches is a parameter of logout and change-password.

Behaviour kept as the code has it, where it differs from the evident design intent:

- Register passes the plaintext password to `create`; only the hook hashes it, and only when it
  is truthy. A registration without a password stores none.
- The refresh handler destructures `newRefreshToken`, which the helper does not return: the
  response carries no refresh token although the stored slot was rotated
  (`Session.RefreshResponseLosesToken`).
- A token that fails `jwt.verify` is not turned into a 401: the exception escapes the handler
  (`Uncaught`, status 500 from the framework's default handler).
- A change to an empty new password is stored as the empty string: the hook hashes only a
  truthy password (`Trace.AtRest` admits this case).
- A password change leaves the session slot as it was, so an open session survives it
  (`Session.RefreshSurvivesPasswordChange`).

## Model

| member | source | states |
|---|---|---|
| Errors.Status | src/controllers/user.controller.js:17-290 | every failure has a 4xx or 5xx status: 401 exactly for the three refresh-token failures, 500 exactly for issuance failures and uncaught exceptions |
| Text.SkipBlank | src/controllers/user.controller.js:15 | the scan for the first character that is not white space stops at one, or at the end, and everything it passed is white space |
| Text.BackBlank | src/controllers/user.controller.js:15 | the backward scan stops after a character that is not white space, or at the lower bound, and everything it passed is white space |
| Text.TrimStart | src/controllers/user.controller.js:15 | the result is a suffix of the input, the part removed is all white space, and the result does not start with white space |
| Text.TrimEnd | src/controllers/user.controller.js:15 | the result is a prefix of the input, the part removed is all white space, and the result does not end with white space |
| Text.TrimStartEmptyIffBlank | src/controllers/user.controller.js:15 | stripping leading white space leaves nothing exactly when the string is all white space |
| Text.TrimEndEmptyIffBlank | src/controllers/user.controller.js:15 | stripping trailing white space leaves nothing exactly when the string is all white space |
| Text.Trim | src/controllers/user.controller.js:15 | `trim()` returns the slice of the string that starts where its leading white space ends, with everything before and after that slice white space; the result has no white space at either end, and a string without white space at its ends is returned as it is |
| Text.TrimEmptyIffBlank | src/controllers/user.controller.js:15 | `trim() === ""` holds exactly for strings made only of white space (the empty string included) |
| Bcrypt.CostDigits | src/middlewares/user.middleware.js:30 | a cost factor below 100 is written as two decimal digits that read back as that factor, so the digest prefix carries the cost 10 |
| Bcrypt.Hash | src/middlewares/user.middleware.js:30-31 | a digest is longer than its password and opens with the `$2b$` tag and the cost factor 10 |
| Bcrypt.CompareHash | src/controllers/user.controller.js:270 | a password matches its own digest |
| Bcrypt.CompareOnlyOwnHash | src/controllers/user.controller.js:270 | a digest matches its own password and no other |
| Bcrypt.HashIsNotPlain | src/middlewares/user.middleware.js:31 | a digest never equals its password |
| Jwt.Sign | src/controllers/user.controller.js:220-231 | signing succeeds exactly when the secret is truthy, and yields a non-empty token |
| Jwt.Verify | src/controllers/user.controller.js:146 | `jwt.verify` yields claims exactly when the token was signed with the truthy verifying secret, and they are the signed claims |
| Jwt.VerifySigned | src/controllers/user.controller.js:146 | verifying with the signing secret returns the signed claims |
| Jwt.VerifyOnlySigned | src/controllers/user.controller.js:146 | only a token signed with the verifying secret yields claims, and they are its signed claims |
| Records.NewRecord | src/controllers/user.controller.js:33-40 | a created row holds the data's username, email, full name and password as given, no refresh token unless one is given, and both timestamps at the creation time |
| Records.ApplyUpdate | src/controllers/user.controller.js:189-194 | an update overwrites exactly the fields whose keys are present (an undefined `newPassword` leaves the password), keeps the timestamps, and an empty data object changes nothing |
| Records.ProjectHidesSecrets | src/controllers/user.controller.js:42-52 | the read-back projection is the same whatever the password and refresh token are |
| Records.UpdateKeepsIdentities | src/controllers/user.controller.js:117-122 | an update that writes neither username nor email keeps both unique across rows |
| Store.UserTable.Create | src/controllers/user.controller.js:33-40 | create adds exactly one row, under a fresh id, and returns it; no other row changes |
| Store.UserTable.Update | src/controllers/user.controller.js:189-194 | update rewrites exactly the addressed row, or fails leaving the table unchanged when it is missing |
| Store.UserTable.FindUnique | src/controllers/user.controller.js:148-154 | the lookup by id returns the row exactly when it exists |
| Store.UserTable.FindFirst | src/controllers/user.controller.js:79-86 | the lookup returns a row matching the supplied username or email, and nothing exactly when none matches |
| UserMiddleware.HashOnWrite | src/middlewares/user.middleware.js:28-34 | a truthy password becomes a digest that verifies against it and differs from it; a falsy or absent one is left alone; no other field changes |
| UserMiddleware.Create | src/middlewares/user.middleware.js:28-34 | `args.data` is rewritten by the hash rule in place, then the create query runs once on the rewritten data and its row is returned |
| UserMiddleware.Update | src/middlewares/user.middleware.js:35-41 | `args.data` is rewritten by the hash rule in place, then the update query runs once on the rewritten data and its result is returned |
| Session.Register | src/controllers/user.controller.js:9-61 | 400 exactly when a supplied field is blank, 409 exactly when the username or email is taken, otherwise one row added, holding the request's fields with the password hashed on write and an empty token slot, and its projection returned; failures leave the table unchanged |
| Session.RegisterResponse | src/controllers/user.controller.js:42-52 | the registration response is username, email, fullName and the two timestamps, nothing derived from the password |
| Session.RegisterStoresDigest | src/controllers/user.controller.js:33-40 | a registered password is stored as its digest, never as plaintext; an absent one is stored absent |
| Session.RegisterKeepsIdentities | src/controllers/user.controller.js:20-31 | registration keeps usernames and emails unique |
| Session.Issue | src/controllers/user.controller.js:273-292 | issuance succeeds exactly when the row and both secrets exist; it then overwrites only that user's refresh slot with a refresh token for that id, and the access token carries the row's identity claims; failures are 500 with the table unchanged |
| Session.CheckPassword | src/controllers/user.controller.js:262-271 | true exactly when the presented password matches the stored digest; an exception when the row, the password or the stored digest is missing |
| Session.Login | src/controllers/user.controller.js:72-111 | 400 exactly when no identifier is truthy, 404 exactly when no row matches, 400 exactly on a wrong password, an uncaught exception exactly when the password check throws, 500 exactly when a secret is missing; success exactly when the found row's password matches and both secrets are set, and then the result is that of token issuance and only the found user's refresh slot changes, to the returned refresh token |
| Session.Logout | src/controllers/user.controller.js:113-122 | logout clears only the caller's refresh slot |
| Session.LogoutIdempotent | src/controllers/user.controller.js:117-122 | logging out twice gives the result and table of logging out once |
| Session.Refresh | src/controllers/user.controller.js:138-178 | 401 exactly when no token is presented, when its id has no row, or when it is not the stored token; an uncaught exception exactly when a presented token does not verify; 500 exactly when the access secret is missing; success exactly when the presented token is the stored one and both secrets are set, and then only that slot is rotated to a freshly signed token, the returned access token is the one `Issue` signs and verifies under the access secret to the holder's id, email, username and full name, and the response carries no refresh token |
| Session.Incoming | src/controllers/user.controller.js:140 | the presented token is the cookie when it is truthy and the body field otherwise, so a token is presented exactly when either is truthy |
| Session.SingleActiveToken | src/controllers/user.controller.js:159-160 | for a given user, every token refresh accepts is the same one: the stored slot |
| Session.RefreshAfterLogoutFails | src/controllers/user.controller.js:156-160 | after logout, every refresh presenting a token for that user fails with 401 |
| Session.ReplayRejected | src/controllers/user.controller.js:159-168 | a rotated token presented again fails with 401, unless rotation re-signed the identical token in the same second |
| Session.LoginSupersedesTokens | src/controllers/user.controller.js:282-286 | after a login, any other token of that user is rejected by refresh |
| Session.LoginThenRefresh | src/controllers/user.controller.js:97-168 | the refresh token a successful login returns is accepted by the next refresh, which rotates the slot to a newly signed token |
| Session.RefreshResponseLosesToken | src/controllers/user.controller.js:168-176 | a successful refresh response carries no refresh token, while the stored slot holds the new one |
| Session.ChangePassword | src/controllers/user.controller.js:180-198 | an uncaught exception (500) exactly when the row is missing, no old password is given, or the row holds no password to compare against; 400 exactly when the old password does not match; on success only the password field changes, to the hash-on-write of the new one |
| Session.ChangePasswordEffect | src/controllers/user.controller.js:184-194 | after a change to a non-empty password the new one is accepted, the old one only if equal to it, the stored value is not the plaintext and the refresh slot is as before |
| Session.RefreshSurvivesPasswordChange | src/controllers/user.controller.js:189-194 | a refresh accepted before a password change is accepted after it |
| Session.LoginAfterRegister | src/controllers/user.controller.js:9-111 | a fresh registration followed by a login with its username and password finds that row, succeeds, and stores the returned refresh token |
| Trace.FoundExists | src/controllers/user.controller.js:79-86 | the login lookup always has an answer: a matching row, or none exactly when nothing matches |
| Trace.Apply | src/routes/user.routes.js:7-14 | one routed request keeps every row id below the next id and never removes a row |
| Trace.Run | src/routes/user.routes.js:7-14 | a sequence of requests keeps every row id below the next id |
| Trace.SlotWriteKeepsBound | src/controllers/user.controller.js:283-286 | writing a row's slot with a refresh token for that row, or clearing it, keeps every slot bound to its own row |
| Trace.RegisterKeepsInvariant | src/controllers/user.controller.js:9-61 | registration keeps identities unique, slots bound and passwords at rest (the new row's password is absent or a digest) |
| Trace.LoginKeepsInvariant | src/controllers/user.controller.js:72-111 | login keeps the invariant: the slot it writes holds a refresh token for that row |
| Trace.LogoutKeepsInvariant | src/controllers/user.controller.js:113-122 | logout keeps the invariant: it only clears a slot |
| Trace.RefreshKeepsInvariant | src/controllers/user.controller.js:138-178 | refresh keeps the invariant: the rotated slot holds a refresh token for that row |
| Trace.ChangePasswordKeepsInvariant | src/controllers/user.controller.js:180-198 | a password change keeps the invariant: the new password is stored as a digest, as the empty string, or not written |
| Trace.StepKeepsInvariant | src/controllers/user.controller.js:9-198 | every handler keeps identities unique, each stored refresh token verifying to its own row's id, and each stored password absent, empty or a digest |
| Trace.RunKeepsInvariant | src/controllers/user.controller.js:9-198 | any sequence of handler calls keeps that invariant |
| Trace.ReachableInvariant | src/controllers/user.controller.js:9-198 | the invariant holds after any sequence of requests from an empty table |
| Trace.EmptySlotStep | src/controllers/user.controller.js:113-198 | a request other than a login leaves an empty refresh slot empty |
| Trace.NoLoginNoSession | src/controllers/user.controller.js:113-198 | without a login, an empty refresh slot stays empty through any sequence of requests |
| Trace.LoggedOutUntilLogin | src/controllers/user.controller.js:113-178 | after a logout and any requests but logins, every refresh for that user fails with 401 (token expired or used) |
| Controller.UserController.RegisterUser | src/controllers/user.controller.js:9-61 | the handler's result and new table are those of `Session.Register`, and usernames and emails stay unique |
| Controller.UserController.CheckPassword | src/controllers/user.controller.js:262-271 | the helper returns `Session.CheckPassword` of the current table |
| Controller.UserController.GenerateAccessToken | src/controllers/user.controller.js:205-232 | a token exactly when the row and the access secret exist, verifying to the row's id, email, username and full name |
| Controller.UserController.GenerateRefreshToken | src/controllers/user.controller.js:234-260 | a token exactly when the row and the refresh secret exist, verifying to the id alone |
| Controller.UserController.GenerateAccessAndRefreshToken | src/controllers/user.controller.js:273-292 | the helper's result and new table are those of `Session.Issue` |
| Controller.UserController.LoginUser | src/controllers/user.controller.js:72-111 | the handler's result and new table are those of `Session.Login` for the row its lookup chose |
| Controller.UserController.LogoutUser | src/controllers/user.controller.js:113-136 | the handler's result and new table are those of `Session.Logout` |
| Controller.UserController.RefreshAccessToken | src/controllers/user.controller.js:138-178 | the handler's result and new table are those of `Session.Refresh` |
| Controller.UserController.ChangeCurrentPassword | src/controllers/user.controller.js:180-198 | the handler's result and new table are those of `Session.ChangePassword` |

## Left out

- `getUsers` (a bare list of all rows) and `getCurrentUser` (unrouted, with a malformed response call): not part of the session logic.
- Cookies, cookie options, response envelopes and status rendering: only the error and its status are modelled; the response bodies are modelled as values.
- Token expiry and the configured lifetimes: `Jwt.Verify` ignores time, so an expired token is treated as valid.
- Session.Issue, Session.Login, Session.Refresh: their success conditions assume valid token lifetimes. In the source an unset or malformed `ACCESS_TOKEN_EXPIRY` or `REFRESH_TOKEN_EXPIRY` (src/controllers/user.controller.js:229, :256) makes `jwt.sign` throw, and the catch at :289-290 answers 500; the model fails signing only on a falsy secret, so with such a lifetime these members would report success where the source fails.
- bcrypt's random salt, its one-wayness and its cost: `Bcrypt.Hash` is deterministic and injective.
- Bcrypt.Hash: "a digest is longer than its password" is a property of the stand-in only; a real bcrypt digest is always 60 characters (prefix, 22-character salt, 31-character hash) whatever the password's length.
- Bcrypt.CompareOnlyOwnHash: holds of the injective stand-in only; real bcrypt compares only the first 72 bytes of a password, so two passwords sharing those bytes both match one digest, and `Session.ChangePasswordEffect`'s "the old password is accepted only if equal to the new one" then holds only up to that truncation.
- The `updatedAt` column is not restamped by updates: the schema that would say so is not part of this model; creation stamps both timestamps with `now`.
- Register's read-back failure (500 when the created row cannot be read back) cannot happen in the model, since `create` always stores the row and no crash between the two steps is modelled.
- The catch in token issuance for a failed slot update cannot fire in the model: the row always exists at that point.
- Prisma's handling of `undefined` inside `where` filters: an identifier that was not supplied matches nothing.
- The schema's column constraints (required and unique columns) are not part of this model: the table accepts a row with absent fields, and uniqueness of username and email is kept by the register check alone.
- Both tokens of one issuance are signed at one clock reading `now`.
- The status of an uncaught exception is taken to be 500 (Express's default error handler); the wrapper `asyncHandler` is not part of this model.
- The JWT access-control middleware (`auth.middleware.js`) is not part of this model: the caller id it attaches is a parameter.
- A missing request body on the refresh route, and request fields that are not strings, are not modelled.
- Concurrent requests (two logins racing for one slot): each handler runs alone on the table.
- Server start, environment loading, database connection and the ORM client wiring: plumbing with no logic to model.
