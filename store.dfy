/**
 * The user table behind the ORM client: the queries the controller issues
 * (`create`, `update`, `findUnique`, `findFirst`) on an in-memory map.
 * `prisma.user` and `prisma.User` name this same table.
 */
module Store {
  import opened Wrappers
  import opened Errors
  import opened Jwt
  import opened Records

  class UserTable {
    var users: Table
    /** The id the next created row receives. */
    var nextId: UserId

    ghost predicate Valid()
      reads this
    {
      IdsBelow(users, nextId)
    }

    constructor ()
      ensures Valid() && users == map[] && nextId == 0
    {
      users := map[];
      nextId := 0;
    }

    /** `create({data})`: stores a new row under a fresh id and returns it. */
    method Create(data: Data, now: nat) returns (created: UserRecord, id: UserId)
      requires Valid()
      modifies this
      ensures Valid()
      ensures id == old(nextId) && id !in old(users) && nextId == id + 1
      ensures users == old(users)[id := NewRecord(data, now)] && created == users[id]
    {
      id := nextId;
      created := NewRecord(data, now);
      users := users[id := created];
      nextId := nextId + 1;
    }

    /** `update({where: {id}, data})`: rewrites the row, or throws when there is none. */
    method Update(id: UserId, data: Data) returns (r: Result<UserRecord, Error>)
      requires Valid()
      modifies this
      ensures Valid() && nextId == old(nextId)
      ensures id in old(users) ==> r == Success(ApplyUpdate(old(users)[id], data)) && users == old(users)[id := r.value]
      ensures id !in old(users) ==> r == Failure(Uncaught) && users == old(users)
    {
      if id !in users {
        return Failure(Uncaught);
      }
      var updated := ApplyUpdate(users[id], data);
      users := users[id := updated];
      r := Success(updated);
    }

    /** `findUnique({where: {id}})`. */
    method FindUnique(id: UserId) returns (r: Option<UserRecord>)
      ensures r.Some? <==> id in users
      ensures r.Some? ==> r.value == users[id]
    {
      r := if id in users then Some(users[id]) else None;
    }

    /** `findFirst({where: {OR: [{username}, {email}]}})`: some matching row, in no promised order. */
    method FindFirst(username: Option<string>, email: Option<string>) returns (found: Option<UserId>)
      ensures found.None? <==> !Taken(users, username, email)
      ensures found.Some? ==> found.value in users && Matches(users[found.value], username, email)
    {
      if Taken(users, username, email) {
        var id :| id in users && Matches(users[id], username, email);
        found := Some(id);
      } else {
        found := None;
      }
    }
  }
}
