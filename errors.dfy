/**
 * The failures a request handler of the user controller can end with: one
 * constructor per `throw new ApiError(...)` the model can reach (the 500 of
 * the register read-back cannot happen here, as no create loses its row), plus
 * one for exceptions thrown by libraries or by the store, which reach the
 * framework's error handler.
 */
module Errors {

  datatype Error =
    | AllFieldsRequired          // register: a supplied field trims to ""
    | UserAlreadyExists          // register: username or email already taken
    | IdentifierRequired         // login: neither email nor username is truthy
    | UserDoesNotExist           // login: no record matches
    | InvalidUserCredentials     // login: the password does not match
    | TokenGenerationFailed      // token issuance threw (caught and rethrown)
    | MissingRefreshToken        // refresh: no token presented
    | InvalidRefreshToken        // refresh: the decoded id has no record
    | RefreshTokenExpiredOrUsed  // refresh: the token is not the stored one
    | InvalidCurrentPassword     // change password: the old password is wrong
    | Uncaught                   // an exception that is not an ApiError

  /** The HTTP status the client sees for each failure. */
  function Status(e: Error): (code: nat)
    ensures 400 <= code < 600
    ensures code == 500 <==> e == TokenGenerationFailed || e == Uncaught
    ensures code == 401 <==> e.MissingRefreshToken? || e.InvalidRefreshToken? || e.RefreshTokenExpiredOrUsed?
  {
    match e
    case AllFieldsRequired => 400
    case UserAlreadyExists => 409
    case IdentifierRequired => 400
    case UserDoesNotExist => 404
    case InvalidUserCredentials => 400
    case TokenGenerationFailed => 500
    case MissingRefreshToken => 401
    case InvalidRefreshToken => 401
    case RefreshTokenExpiredOrUsed => 401
    case InvalidCurrentPassword => 400
    case Uncaught => 500
  }
}
