/**
 * Whole sessions: any sequence of handler calls on the shared table, and the
 * invariants every call keeps.
 */
module Trace {
  import opened Wrappers
  import opened Errors
  import opened Text
  import opened Bcrypt
  import opened Jwt
  import opened Records
  import opened UserMiddleware
  import opened Session

  /** One request reaching a handler, with the clock reading it sees. */
  datatype Request =
    | RegisterCall(reg: RegisterRequest, now: nat)
    | LoginCall(login: LoginRequest, now: nat)
    | LogoutCall(caller: UserId)
    | RefreshCall(refresh: RefreshRequest, now: nat)
    | ChangePasswordCall(caller: UserId, change: PasswordChange)

  /** The table and the id its next row receives. */
  datatype State = State(users: Table, nextId: UserId)

  predicate IdsBelowNext(st: State) {
    IdsBelow(st.users, st.nextId)
  }

  /** Every stored refresh token is a refresh token for its own row, signed with the refresh secret. */
  predicate SlotsBound(users: Table, cfg: Config) {
    forall id :: id in users && users[id].refreshToken.Some? ==>
      Verify(users[id].refreshToken.value, cfg.refreshSecret) == Some(RefreshClaims(id))
  }

  /** A stored password is absent, empty (the hook leaves a falsy password alone), or a digest. */
  predicate AtRest(p: Option<string>) {
    p.None? || p == Some("") || (|p.value| >= |Prefix| && p.value == Hash(p.value[|Prefix|..]))
  }

  predicate PasswordsAtRest(users: Table) {
    forall id :: id in users ==> AtRest(users[id].password)
  }

  predicate Invariant(st: State, cfg: Config) {
    IdsBelowNext(st) && UniqueIdentities(st.users) && SlotsBound(st.users, cfg) && PasswordsAtRest(st.users)
  }

  /** The login lookup always has some answer. */
  lemma FoundExists(users: Table, username: Option<string>, email: Option<string>)
    ensures exists found :: FoundBy(users, username, email, found)
  {
    if Taken(users, username, email) {
      var id :| id in users && Matches(users[id], username, email);
      assert FoundBy(users, username, email, Some(id));
    } else {
      assert FoundBy(users, username, email, None);
    }
  }

  /** The table after one request; the login lookup answers with some matching row. */
  ghost function Apply(st: State, req: Request, cfg: Config): (st': State)
    requires IdsBelowNext(st)
    ensures IdsBelowNext(st') && st'.users.Keys >= st.users.Keys
  {
    match req
    case RegisterCall(reg, now) =>
      var s := Register(st.users, st.nextId, reg, now);
      State(s.users, if s.result.Success? then st.nextId + 1 else st.nextId)
    case LoginCall(login, now) =>
      FoundExists(st.users, login.username, login.email);
      var found :| FoundBy(st.users, login.username, login.email, found);
      State(Login(st.users, login, found, cfg, now).users, st.nextId)
    case LogoutCall(caller) =>
      State(Logout(st.users, caller).users, st.nextId)
    case RefreshCall(refresh, now) =>
      State(Refresh(st.users, refresh, cfg, now).users, st.nextId)
    case ChangePasswordCall(caller, change) =>
      State(ChangePassword(st.users, caller, change).users, st.nextId)
  }

  /** The table after a sequence of requests, one at a time. */
  ghost function Run(st: State, trace: seq<Request>, cfg: Config): (st': State)
    requires IdsBelowNext(st)
    ensures IdsBelowNext(st')
    decreases |trace|
  {
    if trace == [] then st else Run(Apply(st, trace[0], cfg), trace[1..], cfg)
  }

  /** Overwriting one row's slot with a refresh token for that row keeps the slots bound. */
  lemma SlotWriteKeepsBound(users: Table, id: UserId, t: Option<Token>, cfg: Config)
    requires SlotsBound(users, cfg) && id in users
    requires t.Some? ==> Verify(t.value, cfg.refreshSecret) == Some(RefreshClaims(id))
    ensures SlotsBound(users[id := users[id].(refreshToken := t)], cfg)
  {
  }

  lemma RegisterKeepsInvariant(st: State, reg: RegisterRequest, now: nat, cfg: Config)
    requires Invariant(st, cfg)
    ensures Invariant(Apply(st, RegisterCall(reg, now), cfg), cfg)
  {
    var st' := Apply(st, RegisterCall(reg, now), cfg);
    RegisterKeepsIdentities(st.users, st.nextId, reg, now);
    if Register(st.users, st.nextId, reg, now).result.Success? {
      RegisterStoresDigest(st.users, st.nextId, reg, now);
      var d := CreateData(reg);
      assert HashOnWrite(d).(password := d.password) == d;
      var p := st'.users[st.nextId].password;
      assert p.Some? ==> p.value[|Prefix|..] == reg.password.value;
    }
  }

  lemma LoginKeepsInvariant(st: State, login: LoginRequest, now: nat, cfg: Config)
    requires Invariant(st, cfg)
    ensures Invariant(Apply(st, LoginCall(login, now), cfg), cfg)
  {
    var st' := Apply(st, LoginCall(login, now), cfg);
    var found :| FoundBy(st.users, login.username, login.email, found) &&
      st' == State(Login(st.users, login, found, cfg, now).users, st.nextId);
    var s := Login(st.users, login, found, cfg, now);
    if s.result.Success? {
      UpdateKeepsIdentities(st.users, found.value, SlotData(Some(s.result.value.refreshToken)));
      SlotWriteKeepsBound(st.users, found.value, Some(s.result.value.refreshToken), cfg);
    }
  }

  lemma LogoutKeepsInvariant(st: State, caller: UserId, cfg: Config)
    requires Invariant(st, cfg)
    ensures Invariant(Apply(st, LogoutCall(caller), cfg), cfg)
  {
    if caller in st.users {
      UpdateKeepsIdentities(st.users, caller, SlotData(None));
      SlotWriteKeepsBound(st.users, caller, None, cfg);
    }
  }

  lemma RefreshKeepsInvariant(st: State, refresh: RefreshRequest, now: nat, cfg: Config)
    requires Invariant(st, cfg)
    ensures Invariant(Apply(st, RefreshCall(refresh, now), cfg), cfg)
  {
    if Refresh(st.users, refresh, cfg, now).result.Success? {
      var id := Holder(refresh, cfg).value;
      var t := Sign(RefreshClaims(id), cfg.refreshSecret, now);
      UpdateKeepsIdentities(st.users, id, SlotData(t));
      SlotWriteKeepsBound(st.users, id, t, cfg);
    }
  }

  lemma ChangePasswordKeepsInvariant(st: State, caller: UserId, change: PasswordChange, cfg: Config)
    requires Invariant(st, cfg)
    ensures Invariant(Apply(st, ChangePasswordCall(caller, change), cfg), cfg)
  {
    var st' := Apply(st, ChangePasswordCall(caller, change), cfg);
    if ChangePassword(st.users, caller, change).result.Success? {
      UpdateKeepsIdentities(st.users, caller, PasswordData(change.newPassword));
      var p := st'.users[caller].password;
      if Truthy(change.newPassword) {
        assert p == Some(Hash(change.newPassword.value));
        assert p.value[|Prefix|..] == change.newPassword.value;
      }
    }
  }

  /** Every handler keeps the invariant. */
  lemma StepKeepsInvariant(st: State, req: Request, cfg: Config)
    requires Invariant(st, cfg)
    ensures Invariant(Apply(st, req, cfg), cfg)
  {
    match req
    case RegisterCall(reg, now) => RegisterKeepsInvariant(st, reg, now, cfg);
    case LoginCall(login, now) => LoginKeepsInvariant(st, login, now, cfg);
    case LogoutCall(caller) => LogoutKeepsInvariant(st, caller, cfg);
    case RefreshCall(refresh, now) => RefreshKeepsInvariant(st, refresh, now, cfg);
    case ChangePasswordCall(caller, change) => ChangePasswordKeepsInvariant(st, caller, change, cfg);
  }

  /** Every sequence of requests keeps the invariant. */
  lemma {:induction false} RunKeepsInvariant(st: State, trace: seq<Request>, cfg: Config)
    requires Invariant(st, cfg)
    ensures Invariant(Run(st, trace, cfg), cfg)
    decreases |trace|
  {
    if trace != [] {
      StepKeepsInvariant(st, trace[0], cfg);
      RunKeepsInvariant(Apply(st, trace[0], cfg), trace[1..], cfg);
    }
  }

  /** Starting from an empty table, the invariant holds after any sequence of requests. */
  lemma {:induction false} ReachableInvariant(trace: seq<Request>, cfg: Config)
    ensures Invariant(Run(State(map[], 0), trace, cfg), cfg)
  {
    RunKeepsInvariant(State(map[], 0), trace, cfg);
  }

  /** A request other than a login leaves an empty slot empty. */
  lemma EmptySlotStep(st: State, req: Request, cfg: Config, id: UserId)
    requires IdsBelowNext(st) && id in st.users && st.users[id].refreshToken.None?
    requires !req.LoginCall?
    ensures var st' := Apply(st, req, cfg); id in st'.users && st'.users[id].refreshToken.None?
  {
    if req.RegisterCall? {
      assert Apply(st, req, cfg).users[id] == st.users[id];
    }
  }

  /**
   * Without a login, a user with an empty slot stays logged out: no register,
   * logout, refresh or password change ever fills the slot again.
   */
  lemma {:induction false} NoLoginNoSession(st: State, trace: seq<Request>, cfg: Config, id: UserId)
    requires IdsBelowNext(st) && id in st.users && st.users[id].refreshToken.None?
    requires forall i :: 0 <= i < |trace| ==> !trace[i].LoginCall?
    ensures var st' := Run(st, trace, cfg); id in st'.users && st'.users[id].refreshToken.None?
    decreases |trace|
  {
    if trace != [] {
      EmptySlotStep(st, trace[0], cfg, id);
      assert forall i :: 0 <= i < |trace[1..]| ==> trace[1..][i] == trace[i + 1];
      NoLoginNoSession(Apply(st, trace[0], cfg), trace[1..], cfg, id);
    }
  }

  /** Hence, after a logout and any requests but logins, every refresh for that user fails. */
  lemma LoggedOutUntilLogin(st: State, id: UserId, trace: seq<Request>, cfg: Config, req: RefreshRequest, now: nat)
    requires IdsBelowNext(st) && id in st.users && Holder(req, cfg) == Some(id)
    requires forall i :: 0 <= i < |trace| ==> !trace[i].LoginCall?
    ensures Refresh(Run(State(Logout(st.users, id).users, st.nextId), trace, cfg).users, req, cfg, now).result ==
      Failure(RefreshTokenExpiredOrUsed)
  {
    NoLoginNoSession(State(Logout(st.users, id).users, st.nextId), trace, cfg, id);
  }
}
