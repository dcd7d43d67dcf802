/**
 * The user controller: request handlers that guard with early-exit errors and
 * then write the shared user table, every write passing through the
 * hash-on-write hook. Each handler is proved to behave as its function in
 * `Session` says.
 */
module Controller {
  import opened Wrappers
  import opened Errors
  import opened Text
  import opened Bcrypt
  import opened Jwt
  import opened Records
  import opened Store
  import UserMiddleware
  import Session

  class UserController {
    /** The ORM client's user table, shared by every request. */
    const table: UserTable
    /** The signing secrets from the environment. */
    const config: Session.Config

    ghost predicate Valid()
      reads this, table
    {
      table.Valid() && UniqueIdentities(table.users)
    }

    constructor (table: UserTable, config: Session.Config)
      requires table.Valid() && UniqueIdentities(table.users)
      ensures Valid() && this.table == table && this.config == config
    {
      this.table := table;
      this.config := config;
    }

    /** `registerUser`. */
    method RegisterUser(req: Session.RegisterRequest, now: nat) returns (r: Result<PublicUser, Error>)
      requires Valid()
      modifies table
      ensures Valid()
      ensures Session.Step(r, table.users) == Session.Register(old(table.users), old(table.nextId), req, now)
      ensures table.nextId == if r.Success? then old(table.nextId) + 1 else old(table.nextId)
    {
      if Session.BlankField(req.fullName) || Session.BlankField(req.email)
        || Session.BlankField(req.username) || Session.BlankField(req.password) {
        return Failure(AllFieldsRequired);
      }
      var existedUser := table.FindFirst(req.username, req.email);
      if existedUser.Some? {
        return Failure(UserAlreadyExists);
      }
      Session.RegisterKeepsIdentities(table.users, table.nextId, req, now);
      var args := new UserMiddleware.Args(Data(req.fullName, req.email, req.username, req.password, None));
      var _, id := UserMiddleware.Create(args, table, now);
      var createdUser := table.FindUnique(id);
      r := Success(Project(createdUser.value));
    }

    /** `checkPassword(id, password)`. */
    method CheckPassword(id: UserId, password: Option<string>) returns (r: Result<bool, Error>)
      ensures r == Session.CheckPassword(table.users, id, password)
    {
      var user := table.FindUnique(id);
      if user.None? || password.None? || user.value.password.None? {
        return Failure(Uncaught);
      }
      r := Success(Compare(password.value, user.value.password.value));
    }

    /** `generateAccessToken(id)`: signs the identity claims, throwing when the row or the secret is missing. */
    method GenerateAccessToken(id: UserId, now: nat) returns (r: Option<Token>)
      ensures r.Some? <==> id in table.users && Truthy(config.accessSecret)
      ensures r.Some? ==>
                && Verify(r.value, config.accessSecret) ==
                   Some(AccessClaims(id, table.users[id].email, table.users[id].username, table.users[id].fullName))
                && r == Sign(AccessClaims(id, table.users[id].email, table.users[id].username, table.users[id].fullName),
                             config.accessSecret, now)
    {
      var user := table.FindUnique(id);
      if user.None? {
        return None;
      }
      r := Sign(AccessClaims(id, user.value.email, user.value.username, user.value.fullName), config.accessSecret, now);
    }

    /** `generateRefreshToken(id)`: signs the id alone, throwing when the row or the secret is missing. */
    method GenerateRefreshToken(id: UserId, now: nat) returns (r: Option<Token>)
      ensures r.Some? <==> id in table.users && Truthy(config.refreshSecret)
      ensures r.Some? ==> Verify(r.value, config.refreshSecret) == Some(RefreshClaims(id))
      ensures r.Some? ==> r == Sign(RefreshClaims(id), config.refreshSecret, now)
    {
      var user := table.FindUnique(id);
      if user.None? {
        return None;
      }
      r := Sign(RefreshClaims(id), config.refreshSecret, now);
    }

    /** `generateAccessAndRefreshToken(id)`: issues both tokens and overwrites the session slot. */
    method GenerateAccessAndRefreshToken(id: UserId, now: nat) returns (r: Result<Session.TokenPair, Error>)
      requires Valid()
      modifies table
      ensures Valid() && table.nextId == old(table.nextId)
      ensures Session.Step(r, table.users) == Session.Issue(old(table.users), id, config, now)
    {
      var user := table.FindUnique(id);
      var accessToken := GenerateAccessToken(id, now);
      if accessToken.None? {
        return Failure(TokenGenerationFailed);
      }
      var refreshToken := GenerateRefreshToken(id, now);
      if refreshToken.None? {
        return Failure(TokenGenerationFailed);
      }
      // Assigning the fetched row's refreshToken changes a local copy only, so it is not modelled.
      UpdateKeepsIdentities(table.users, id, SlotData(refreshToken));
      var args := new UserMiddleware.Args(SlotData(refreshToken));
      var _ := UserMiddleware.Update(args, table, id);
      r := Success(Session.TokenPair(accessToken.value, refreshToken.value));
    }

    /** `loginUser`; `found` is the row the lookup chose, when it ran. */
    method LoginUser(req: Session.LoginRequest, now: nat) returns (r: Result<Session.TokenPair, Error>, ghost found: Option<UserId>)
      requires Valid()
      modifies table
      ensures Valid() && table.nextId == old(table.nextId)
      ensures Session.HasIdentifier(req) ==> Session.FoundBy(old(table.users), req.username, req.email, found)
      ensures Session.Step(r, table.users) == Session.Login(old(table.users), req, found, config, now)
    {
      found := None;
      if !(Truthy(req.email) || Truthy(req.username)) {
        return Failure(IdentifierRequired), found;
      }
      var user := table.FindFirst(req.username, req.email);
      found := user;
      if user.None? {
        return Failure(UserDoesNotExist), found;
      }
      var isPasswordValid := CheckPassword(user.value, req.password);
      if isPasswordValid.Failure? {
        return Failure(isPasswordValid.error), found;
      }
      if !isPasswordValid.value {
        return Failure(InvalidUserCredentials), found;
      }
      r := GenerateAccessAndRefreshToken(user.value, now);
    }

    /** `logoutUser` for the authenticated caller. */
    method LogoutUser(callerId: UserId) returns (r: Result<(), Error>)
      requires Valid()
      modifies table
      ensures Valid() && table.nextId == old(table.nextId)
      ensures Session.Step(r, table.users) == Session.Logout(old(table.users), callerId)
    {
      if callerId in table.users {
        UpdateKeepsIdentities(table.users, callerId, SlotData(None));
      }
      var args := new UserMiddleware.Args(SlotData(None));
      var updated := UserMiddleware.Update(args, table, callerId);
      if updated.Failure? {
        return Failure(updated.error);
      }
      r := Success(());
    }

    /** `refreshAccessToken`. */
    method RefreshAccessToken(req: Session.RefreshRequest, now: nat) returns (r: Result<Session.RefreshResponse, Error>)
      requires Valid()
      modifies table
      ensures Valid() && table.nextId == old(table.nextId)
      ensures Session.Step(r, table.users) == Session.Refresh(old(table.users), req, config, now)
    {
      var incomingRefreshToken := if Present(req.cookie) then req.cookie else req.body;
      if !Present(incomingRefreshToken) {
        return Failure(MissingRefreshToken);
      }
      var decodedToken := Verify(incomingRefreshToken.value, config.refreshSecret);
      if decodedToken.None? {
        return Failure(Uncaught);
      }
      var user := table.FindUnique(decodedToken.value.id);
      if user.None? {
        return Failure(InvalidRefreshToken);
      }
      if incomingRefreshToken != user.value.refreshToken {
        return Failure(RefreshTokenExpiredOrUsed);
      }
      var issued := GenerateAccessAndRefreshToken(decodedToken.value.id, now);
      if issued.Failure? {
        return Failure(issued.error);
      }
      // The handler destructures `newRefreshToken`, a name the helper's result does not have.
      var newRefreshToken: Option<Token> := None;
      r := Success(Session.RefreshResponse(issued.value.accessToken, newRefreshToken));
    }

    /** `changeCurrentPassword` for the authenticated caller. */
    method ChangeCurrentPassword(callerId: UserId, req: Session.PasswordChange) returns (r: Result<(), Error>)
      requires Valid()
      modifies table
      ensures Valid() && table.nextId == old(table.nextId)
      ensures Session.Step(r, table.users) == Session.ChangePassword(old(table.users), callerId, req)
    {
      var isPasswordValid := CheckPassword(callerId, req.oldPassword);
      if isPasswordValid.Failure? {
        return Failure(isPasswordValid.error);
      }
      if !isPasswordValid.value {
        return Failure(InvalidCurrentPassword);
      }
      UpdateKeepsIdentities(table.users, callerId, PasswordData(req.newPassword));
      var args := new UserMiddleware.Args(PasswordData(req.newPassword));
      var _ := UserMiddleware.Update(args, table, callerId);
      r := Success(());
    }
  }
}
