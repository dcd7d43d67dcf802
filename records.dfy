/** The user table's records, the data objects of its queries, and the public projection. */
module Records {
  import opened Wrappers
  import opened Jwt

  /** One row of the user table. Fields the client left undefined are stored as `None`. */
  datatype UserRecord = UserRecord(
    username: Option<string>,
    email: Option<string>,
    fullName: Option<string>,
    password: Option<string>,
    refreshToken: Option<Token>,
    createdAt: nat,
    updatedAt: nat)

  /**
   * The `data` object of a create or update query. `None` is an absent
   * (undefined) key; for `refreshToken`, `Some(None)` is an explicit `null`.
   */
  datatype Data = Data(
    fullName: Option<string>,
    email: Option<string>,
    username: Option<string>,
    password: Option<string>,
    refreshToken: Option<Option<Token>>)

  /** The fields a select of username, email, fullName, createdAt and updatedAt returns. */
  datatype PublicUser = PublicUser(
    username: Option<string>,
    email: Option<string>,
    fullName: Option<string>,
    createdAt: nat,
    updatedAt: nat)

  type Table = map<UserId, UserRecord>

  /** `data: {refreshToken}`, the update that sets or clears the session slot. */
  function SlotData(t: Option<Token>): Data {
    Data(None, None, None, None, Some(t))
  }

  /** `data: {password}`, the update that changes the password. */
  function PasswordData(p: Option<string>): Data {
    Data(None, None, None, p, None)
  }

  /** The row a create with `d` stores at time `now`. */
  function NewRecord(d: Data, now: nat): (r: UserRecord)
    ensures r.username == d.username && r.email == d.email && r.fullName == d.fullName && r.password == d.password
    ensures d.refreshToken.None? ==> r.refreshToken.None?
    ensures d.refreshToken.Some? ==> r.refreshToken == d.refreshToken.value
    ensures r.createdAt == now && r.updatedAt == now
  {
    UserRecord(d.username, d.email, d.fullName, d.password,
      if d.refreshToken.Some? then d.refreshToken.value else None, now, now)
  }

  /** A field after an update: a present key overwrites it, an absent one leaves it. */
  function Overwrite<T>(current: Option<T>, given: Option<T>): Option<T> {
    if given.Some? then given else current
  }

  /** The row an update with `d` leaves: every present key overwrites its field. */
  function ApplyUpdate(r: UserRecord, d: Data): (u: UserRecord)
    ensures d.username.None? ==> u.username == r.username
    ensures d.username.Some? ==> u.username == d.username
    ensures d.email.None? ==> u.email == r.email
    ensures d.email.Some? ==> u.email == d.email
    ensures d.fullName.None? ==> u.fullName == r.fullName
    ensures d.fullName.Some? ==> u.fullName == d.fullName
    ensures d.password.None? ==> u.password == r.password
    ensures d.password.Some? ==> u.password == d.password
    ensures d.refreshToken.None? ==> u.refreshToken == r.refreshToken
    ensures d.refreshToken.Some? ==> u.refreshToken == d.refreshToken.value
    ensures u.createdAt == r.createdAt && u.updatedAt == r.updatedAt
    ensures d == Data(None, None, None, None, None) ==> u == r
  {
    UserRecord(Overwrite(r.username, d.username), Overwrite(r.email, d.email),
      Overwrite(r.fullName, d.fullName), Overwrite(r.password, d.password),
      if d.refreshToken.Some? then d.refreshToken.value else r.refreshToken, r.createdAt, r.updatedAt)
  }

  /** The read-back projection, which leaves out `password` and `refreshToken`. */
  function Project(r: UserRecord): PublicUser {
    PublicUser(r.username, r.email, r.fullName, r.createdAt, r.updatedAt)
  }

  /** The projection cannot see the password or the refresh token. */
  lemma ProjectHidesSecrets(r: UserRecord, password: Option<string>, refreshToken: Option<Token>)
    ensures Project(r) == Project(r.(password := password, refreshToken := refreshToken))
  {
  }

  /** `OR: [{username}, {email}]`, an identifier that was not supplied matching nothing. */
  predicate Matches(r: UserRecord, username: Option<string>, email: Option<string>) {
    (username.Some? && r.username == username) || (email.Some? && r.email == email)
  }

  /** Some row matches the username or the email. */
  predicate Taken(users: Table, username: Option<string>, email: Option<string>) {
    exists id :: id in users && Matches(users[id], username, email)
  }

  /** Every row's id is below the id the next created row receives. */
  predicate IdsBelow(users: Table, nextId: UserId) {
    forall id :: id in users ==> id < nextId
  }

  /** No two rows share a username or an email. */
  predicate UniqueIdentities(users: Table) {
    forall i, j :: i in users && j in users && i != j ==>
      !Matches(users[j], users[i].username, users[i].email)
  }

  /** An update that does not write username or email keeps the identities unique. */
  lemma UpdateKeepsIdentities(users: Table, id: UserId, d: Data)
    requires UniqueIdentities(users) && id in users
    requires d.username.None? && d.email.None?
    ensures UniqueIdentities(users[id := ApplyUpdate(users[id], d)])
  {
    var users' := users[id := ApplyUpdate(users[id], d)];
    forall i, j | i in users' && j in users' && i != j
      ensures !Matches(users'[j], users'[i].username, users'[i].email)
    {
      assert users'[i].username == users[i].username && users'[i].email == users[i].email;
      assert users'[j].username == users[j].username && users'[j].email == users[j].email;
    }
  }
}
