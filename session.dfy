/**
 * The session and credential state machine of the user controller, as
 * functions of the user table. Each handler of the controller is specified by
 * one function here; the lemmas relate handlers to each other.
 */
module Session {
  import opened Wrappers
  import opened Errors
  import opened Text
  import opened Bcrypt
  import opened Jwt
  import opened Records
  import opened UserMiddleware

  /** The two signing secrets read from the environment. */
  datatype Config = Config(accessSecret: Option<string>, refreshSecret: Option<string>)

  /** What a handler returns, with the table it leaves behind. */
  datatype Step<T> = Step(result: Result<T, Error>, users: Table)

  datatype TokenPair = TokenPair(accessToken: Token, refreshToken: Token)

  /** The refresh response body; its `refreshToken` is whatever the handler destructured. */
  datatype RefreshResponse = RefreshResponse(accessToken: Token, refreshToken: Option<Token>)

  datatype RegisterRequest = RegisterRequest(
    fullName: Option<string>, email: Option<string>, username: Option<string>, password: Option<string>)

  datatype LoginRequest = LoginRequest(email: Option<string>, username: Option<string>, password: Option<string>)

  /** The refresh token as the `refreshToken` cookie and as the body field. */
  datatype RefreshRequest = RefreshRequest(cookie: Option<Token>, body: Option<Token>)

  datatype PasswordChange = PasswordChange(oldPassword: Option<string>, newPassword: Option<string>)

  // ---------------------------------------------------------------- register

  /** `field?.trim() === ""`: the field was supplied and is blank; an absent field is not. */
  predicate BlankField(field: Option<string>) {
    field.Some? && Trim(field.value) == ""
  }

  predicate AnyBlank(req: RegisterRequest) {
    BlankField(req.fullName) || BlankField(req.email) || BlankField(req.username) || BlankField(req.password)
  }

  /** The data object register passes to `create`, with the plaintext password. */
  function CreateData(req: RegisterRequest): Data {
    Data(req.fullName, req.email, req.username, req.password, None)
  }

  /** `registerUser`, the new row receiving id `nextId`. */
  function Register(users: Table, nextId: UserId, req: RegisterRequest, now: nat): (s: Step<PublicUser>)
    requires nextId !in users
    ensures s.result.Failure? ==> s.users == users
    ensures s.result == Failure(AllFieldsRequired) <==> AnyBlank(req)
    ensures s.result == Failure(UserAlreadyExists) <==> !AnyBlank(req) && Taken(users, req.username, req.email)
    ensures s.result.Success? <==> !AnyBlank(req) && !Taken(users, req.username, req.email)
    ensures s.result.Success? ==>
      nextId in s.users && s.users == users[nextId := s.users[nextId]] &&
      s.users[nextId] == NewRecord(HashOnWrite(CreateData(req)), now) &&
      s.users[nextId].refreshToken.None? &&
      s.result.value == Project(s.users[nextId])
  {
    if AnyBlank(req) then Step(Failure(AllFieldsRequired), users)
    else if Taken(users, req.username, req.email) then Step(Failure(UserAlreadyExists), users)
    else
      var users' := users[nextId := NewRecord(HashOnWrite(CreateData(req)), now)];
      Step(Success(Project(users'[nextId])), users')
  }

  /** The response to a registration carries the identifiers and timestamps, nothing derived from the password. */
  lemma RegisterResponse(users: Table, nextId: UserId, req: RegisterRequest, now: nat)
    requires nextId !in users
    requires Register(users, nextId, req, now).result.Success?
    ensures Register(users, nextId, req, now).result.value ==
      PublicUser(req.username, req.email, req.fullName, now, now)
  {
    var d := CreateData(req);
    assert HashOnWrite(d).(password := d.password) == d;
  }

  /** A registration stores the digest of a supplied password, never the plaintext. */
  lemma RegisterStoresDigest(users: Table, nextId: UserId, req: RegisterRequest, now: nat)
    requires nextId !in users
    requires Register(users, nextId, req, now).result.Success?
    ensures var stored := Register(users, nextId, req, now).users[nextId].password;
      (req.password.None? ==> stored.None?) &&
      (req.password.Some? ==> stored == Some(Hash(req.password.value)) && stored.value != req.password.value)
  {
    if req.password.Some? {
      HashIsNotPlain(req.password.value);
    }
  }

  /** A registration keeps usernames and emails unique. */
  lemma RegisterKeepsIdentities(users: Table, nextId: UserId, req: RegisterRequest, now: nat)
    requires nextId !in users && UniqueIdentities(users)
    ensures UniqueIdentities(Register(users, nextId, req, now).users)
  {
    var s := Register(users, nextId, req, now);
    if s.result.Success? {
      var d := CreateData(req);
      assert HashOnWrite(d).(password := d.password) == d;
      var r := s.users[nextId];
      assert r.username == req.username && r.email == req.email;
      forall i, j | i in s.users && j in s.users && i != j
        ensures !Matches(s.users[j], s.users[i].username, s.users[i].email)
      {
        if i == nextId {
          assert !Matches(users[j], req.username, req.email);
        } else if j == nextId {
          assert !Matches(users[i], req.username, req.email);
        }
      }
    }
  }

  // ---------------------------------------------------------- token issuance

  /** `generateAccessAndRefreshToken(id)` at time `now`; every failure is rethrown as a 500. */
  function Issue(users: Table, id: UserId, cfg: Config, now: nat): (s: Step<TokenPair>)
    ensures s.result.Failure? ==> s.result.error == TokenGenerationFailed && s.users == users
    ensures s.result.Success? <==> id in users && Truthy(cfg.accessSecret) && Truthy(cfg.refreshSecret)
    ensures s.result.Success? ==>
      s.users == users[id := users[id].(refreshToken := Some(s.result.value.refreshToken))]
    ensures s.result.Success? ==>
      Verify(s.result.value.refreshToken, cfg.refreshSecret) == Some(RefreshClaims(id)) &&
      Verify(s.result.value.accessToken, cfg.accessSecret) ==
        Some(AccessClaims(id, users[id].email, users[id].username, users[id].fullName))
  {
    if id !in users then Step(Failure(TokenGenerationFailed), users)
    else
      var r := users[id];
      var access := Sign(AccessClaims(id, r.email, r.username, r.fullName), cfg.accessSecret, now);
      var refresh := Sign(RefreshClaims(id), cfg.refreshSecret, now);
      if access.None? || refresh.None? then Step(Failure(TokenGenerationFailed), users)
      else
        var pair := TokenPair(access.value, refresh.value);
        Step(Success(pair), users[id := ApplyUpdate(r, HashOnWrite(SlotData(Some(refresh.value))))])
  }

  // ------------------------------------------------------------------- login

  /** `checkPassword(id, password)`: bcrypt throws when either argument is missing, and so does a missing row. */
  function CheckPassword(users: Table, id: UserId, password: Option<string>): (r: Result<bool, Error>)
    ensures r.Failure? ==> r.error == Uncaught
    ensures r.Success? <==> id in users && password.Some? && users[id].password.Some?
    ensures r == Success(true) <==>
      id in users && password.Some? && users[id].password.Some? && Compare(password.value, users[id].password.value)
  {
    if id !in users || password.None? || users[id].password.None? then Failure(Uncaught)
    else Success(Compare(password.value, users[id].password.value))
  }

  /** `found` is a possible answer of the login lookup. */
  predicate FoundBy(users: Table, username: Option<string>, email: Option<string>, found: Option<UserId>) {
    && (found.None? <==> !Taken(users, username, email))
    && (found.Some? ==> found.value in users && Matches(users[found.value], username, email))
  }

  predicate HasIdentifier(req: LoginRequest) {
    Truthy(req.email) || Truthy(req.username)
  }

  /** `loginUser`, the lookup having answered `found`. */
  function Login(users: Table, req: LoginRequest, found: Option<UserId>, cfg: Config, now: nat): (s: Step<TokenPair>)
    requires HasIdentifier(req) ==> FoundBy(users, req.username, req.email, found)
    ensures s.result.Failure? ==> s.users == users
    ensures s.result == Failure(IdentifierRequired) <==> !HasIdentifier(req)
    ensures s.result == Failure(UserDoesNotExist) <==> HasIdentifier(req) && found.None?
    ensures s.result == Failure(InvalidUserCredentials) <==>
      HasIdentifier(req) && found.Some? && CheckPassword(users, found.value, req.password) == Success(false)
    ensures s.result == Failure(Uncaught) <==>
      HasIdentifier(req) && found.Some? && CheckPassword(users, found.value, req.password).Failure?
    ensures s.result == Failure(TokenGenerationFailed) <==>
      HasIdentifier(req) && found.Some? && CheckPassword(users, found.value, req.password) == Success(true) &&
      !(Truthy(cfg.accessSecret) && Truthy(cfg.refreshSecret))
    ensures s.result.Success? <==>
      HasIdentifier(req) && found.Some? && found.value in users &&
      CheckPassword(users, found.value, req.password) == Success(true) &&
      Truthy(cfg.accessSecret) && Truthy(cfg.refreshSecret)
    ensures s.result.Success? ==>
      s == Issue(users, found.value, cfg, now) &&
      s.users == users[found.value := users[found.value].(refreshToken := Some(s.result.value.refreshToken))]
  {
    if !HasIdentifier(req) then Step(Failure(IdentifierRequired), users)
    else if found.None? then Step(Failure(UserDoesNotExist), users)
    else match CheckPassword(users, found.value, req.password)
      case Failure(e) => Step(Failure(e), users)
      case Success(valid) =>
        if !valid then Step(Failure(InvalidUserCredentials), users)
        else Issue(users, found.value, cfg, now)
  }

  // ------------------------------------------------------------------ logout

  /** `logoutUser` for the authenticated caller `id`; updating a missing row throws. */
  function Logout(users: Table, id: UserId): (s: Step<()>)
    ensures s.result.Success? <==> id in users
    ensures s.result.Failure? ==> s.result.error == Uncaught && s.users == users
    ensures s.result.Success? ==> s.users == users[id := users[id].(refreshToken := None)]
  {
    if id !in users then Step(Failure(Uncaught), users)
    else Step(Success(()), users[id := ApplyUpdate(users[id], HashOnWrite(SlotData(None)))])
  }

  /** Logging out twice leaves the table logging out once leaves. */
  lemma LogoutIdempotent(users: Table, id: UserId)
    ensures Logout(Logout(users, id).users, id) == Logout(users, id)
  {
  }

  // ----------------------------------------------------------------- refresh

  /** `req.cookies.refreshToken || req.body.refreshToken`. */
  function Incoming(req: RefreshRequest): (t: Option<Token>)
    ensures Present(req.cookie) ==> t == req.cookie
    ensures !Present(req.cookie) ==> t == req.body
    ensures Present(t) <==> Present(req.cookie) || Present(req.body)
  {
    if Present(req.cookie) then req.cookie else req.body
  }

  /** The user id the presented token verifies to under the refresh secret. */
  function Holder(req: RefreshRequest, cfg: Config): Option<UserId> {
    var t := Incoming(req);
    if Present(t) && Verify(t.value, cfg.refreshSecret).Some? then Some(Verify(t.value, cfg.refreshSecret).value.id)
    else None
  }

  /** `refreshAccessToken`. */
  function Refresh(users: Table, req: RefreshRequest, cfg: Config, now: nat): (s: Step<RefreshResponse>)
    ensures s.result.Failure? ==> s.users == users
    ensures s.result == Failure(MissingRefreshToken) <==> !Present(Incoming(req))
    ensures s.result == Failure(InvalidRefreshToken) <==> Holder(req, cfg).Some? && Holder(req, cfg).value !in users
    ensures s.result == Failure(RefreshTokenExpiredOrUsed) <==>
      Holder(req, cfg).Some? && Holder(req, cfg).value in users &&
      users[Holder(req, cfg).value].refreshToken != Incoming(req)
    ensures s.result == Failure(Uncaught) <==> Present(Incoming(req)) && Holder(req, cfg).None?
    ensures s.result == Failure(TokenGenerationFailed) <==>
      Holder(req, cfg).Some? && Holder(req, cfg).value in users &&
      users[Holder(req, cfg).value].refreshToken == Incoming(req) && !Truthy(cfg.accessSecret)
    ensures s.result.Success? <==>
      Holder(req, cfg).Some? && Holder(req, cfg).value in users &&
      users[Holder(req, cfg).value].refreshToken == Incoming(req) &&
      Truthy(cfg.accessSecret) && Truthy(cfg.refreshSecret)
    ensures s.result.Success? ==>
      Holder(req, cfg).Some? &&
      var id := Holder(req, cfg).value;
      id in users && users[id].refreshToken == Incoming(req) &&
      Sign(RefreshClaims(id), cfg.refreshSecret, now).Some? &&
      s.users == users[id := users[id].(refreshToken := Sign(RefreshClaims(id), cfg.refreshSecret, now))] &&
      s.result.value.accessToken == Issue(users, id, cfg, now).result.value.accessToken &&
      Verify(s.result.value.accessToken, cfg.accessSecret) ==
        Some(AccessClaims(id, users[id].email, users[id].username, users[id].fullName)) &&
      s.result.value.refreshToken.None?
  {
    var incoming := Incoming(req);
    if !Present(incoming) then Step(Failure(MissingRefreshToken), users)
    else match Verify(incoming.value, cfg.refreshSecret)
      case None => Step(Failure(Uncaught), users)
      case Some(decoded) =>
        var id := decoded.id;
        if id !in users then Step(Failure(InvalidRefreshToken), users)
        else if incoming != users[id].refreshToken then Step(Failure(RefreshTokenExpiredOrUsed), users)
        else
          var issued := Issue(users, id, cfg, now);
          match issued.result
          case Failure(e) => Step(Failure(e), users)
          case Success(pair) =>
            var newRefreshToken: Option<Token> := None;
            Step(Success(RefreshResponse(pair.accessToken, newRefreshToken)), issued.users)
  }

  /** For each user, at most one token is accepted by refresh: the one in the slot. */
  lemma SingleActiveToken(users: Table, req1: RefreshRequest, req2: RefreshRequest, cfg: Config, now1: nat, now2: nat)
    requires Refresh(users, req1, cfg, now1).result.Success?
    requires Refresh(users, req2, cfg, now2).result.Success?
    requires Holder(req1, cfg) == Holder(req2, cfg)
    ensures Incoming(req1) == Incoming(req2)
  {
  }

  /** After logout every refresh for that user fails, whatever token is presented. */
  lemma RefreshAfterLogoutFails(users: Table, id: UserId, req: RefreshRequest, cfg: Config, now: nat)
    requires id in users && Holder(req, cfg) == Some(id)
    ensures Refresh(Logout(users, id).users, req, cfg, now).result == Failure(RefreshTokenExpiredOrUsed)
  {
  }

  /**
   * A refresh token is single-use: once it has been rotated, presenting it again
   * fails, unless the rotation happened to sign the very same token again (same
   * user, same key, same second).
   */
  lemma ReplayRejected(users: Table, req: RefreshRequest, cfg: Config, now1: nat, now2: nat)
    requires Refresh(users, req, cfg, now1).result.Success?
    requires Incoming(req) != Sign(RefreshClaims(Holder(req, cfg).value), cfg.refreshSecret, now1)
    ensures Refresh(Refresh(users, req, cfg, now1).users, req, cfg, now2).result == Failure(RefreshTokenExpiredOrUsed)
  {
  }

  /** A login overwrites the slot, so every other token of that user is rejected afterwards. */
  lemma LoginSupersedesTokens(users: Table, req: LoginRequest, found: Option<UserId>, cfg: Config, now: nat,
                              refresh: RefreshRequest, now': nat)
    requires HasIdentifier(req) ==> FoundBy(users, req.username, req.email, found)
    requires Login(users, req, found, cfg, now).result.Success?
    requires Holder(refresh, cfg) == found
    requires Incoming(refresh) != Some(Login(users, req, found, cfg, now).result.value.refreshToken)
    ensures Refresh(Login(users, req, found, cfg, now).users, refresh, cfg, now').result == Failure(RefreshTokenExpiredOrUsed)
  {
  }

  /** The token a login returns is accepted by the next refresh, which rotates it. */
  lemma LoginThenRefresh(users: Table, req: LoginRequest, found: Option<UserId>, cfg: Config, now: nat, now': nat)
    requires HasIdentifier(req) ==> FoundBy(users, req.username, req.email, found)
    requires Login(users, req, found, cfg, now).result.Success?
    ensures var l := Login(users, req, found, cfg, now);
      var r := Refresh(l.users, RefreshRequest(Some(l.result.value.refreshToken), None), cfg, now');
      && r.result.Success?
      && r.users[found.value].refreshToken == Sign(RefreshClaims(found.value), cfg.refreshSecret, now')
  {
  }

  /** The refresh response never carries the rotated token, although the slot was rotated. */
  lemma RefreshResponseLosesToken(users: Table, req: RefreshRequest, cfg: Config, now: nat)
    requires Refresh(users, req, cfg, now).result.Success?
    ensures var s := Refresh(users, req, cfg, now);
      s.result.value.refreshToken.None? &&
      s.users[Holder(req, cfg).value].refreshToken == Sign(RefreshClaims(Holder(req, cfg).value), cfg.refreshSecret, now)
  {
  }

  // --------------------------------------------------------- change password

  /** `changeCurrentPassword` for the authenticated caller `id`. */
  function ChangePassword(users: Table, id: UserId, req: PasswordChange): (s: Step<()>)
    ensures s.result.Failure? ==> s.users == users
    ensures s.result == Failure(Uncaught) <==> CheckPassword(users, id, req.oldPassword).Failure?
    ensures s.result == Failure(InvalidCurrentPassword) <==> CheckPassword(users, id, req.oldPassword) == Success(false)
    ensures s.result.Success? <==> CheckPassword(users, id, req.oldPassword) == Success(true)
    ensures s.result.Success? ==>
      s.users == users[id := users[id].(password := Overwrite(users[id].password, HashOnWrite(PasswordData(req.newPassword)).password))]
  {
    match CheckPassword(users, id, req.oldPassword)
    case Failure(e) => Step(Failure(e), users)
    case Success(valid) =>
      if !valid then Step(Failure(InvalidCurrentPassword), users)
      else Step(Success(()), users[id := ApplyUpdate(users[id], HashOnWrite(PasswordData(req.newPassword)))])
  }

  /**
   * After a successful change to a non-empty password, the new password is
   * accepted, the old one only if it equals the new one, and the session slot is
   * as it was.
   */
  lemma {:induction false} ChangePasswordEffect(users: Table, id: UserId, req: PasswordChange)
    requires ChangePassword(users, id, req).result.Success?
    requires Truthy(req.newPassword)
    ensures var users' := ChangePassword(users, id, req).users;
      && CheckPassword(users', id, req.newPassword) == Success(true)
      && (CheckPassword(users', id, req.oldPassword) == Success(true) <==> req.oldPassword == req.newPassword)
      && users'[id].password.value != req.newPassword.value
      && users'[id].refreshToken == users[id].refreshToken
  {
    var users' := ChangePassword(users, id, req).users;
    assert users'[id].password == Some(Hash(req.newPassword.value));
    CompareOnlyOwnHash(req.oldPassword.value, req.newPassword.value);
    HashIsNotPlain(req.newPassword.value);
  }

  /** A password change does not end the session: a refresh accepted before it is accepted after it. */
  lemma {:induction false} RefreshSurvivesPasswordChange(users: Table, id: UserId, change: PasswordChange,
                                                         req: RefreshRequest, cfg: Config, now: nat)
    requires ChangePassword(users, id, change).result.Success?
    requires Refresh(users, req, cfg, now).result.Success?
    ensures Refresh(ChangePassword(users, id, change).users, req, cfg, now).result.Success?
  {
    var users' := ChangePassword(users, id, change).users;
    var holder := Holder(req, cfg).value;
    assert holder in users' && users'[holder].refreshToken == users[holder].refreshToken;
    assert Issue(users', holder, cfg, now).result.Success?;
  }

  // ----------------------------------------------------------- whole sessions

  /** A fresh registration followed by a login with its username and password succeeds. */
  lemma {:induction false} LoginAfterRegister(users: Table, nextId: UserId, reg: RegisterRequest, regTime: nat,
                                              found: Option<UserId>, cfg: Config, now: nat)
    requires nextId !in users && UniqueIdentities(users)
    requires Register(users, nextId, reg, regTime).result.Success?
    requires Truthy(reg.username) && reg.password.Some?
    requires Truthy(cfg.accessSecret) && Truthy(cfg.refreshSecret)
    requires FoundBy(Register(users, nextId, reg, regTime).users, reg.username, None, found)
    ensures var login := Login(Register(users, nextId, reg, regTime).users, LoginRequest(None, reg.username, reg.password), found, cfg, now);
      && login.result.Success?
      && found == Some(nextId)
      && login.users[nextId].refreshToken == Some(login.result.value.refreshToken)
  {
    var users' := Register(users, nextId, reg, regTime).users;
    RegisterResponse(users, nextId, reg, regTime);
    RegisterStoresDigest(users, nextId, reg, regTime);
    assert users'[nextId].username == reg.username;
    assert Matches(users'[nextId], reg.username, None);
    if found.value != nextId {
      assert Matches(users[found.value], reg.username, reg.email);
      assert false;
    }
    CompareHash(reg.password.value);
  }
}
