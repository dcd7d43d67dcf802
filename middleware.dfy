/**
 * The query extension on the user table: before a `create` or an `update`
 * reaches the table, a truthy `args.data.password` is replaced in place by its
 * bcrypt digest; then the query runs once on the rewritten arguments.
 */
module UserMiddleware {
  import opened Wrappers
  import opened Errors
  import opened Text
  import opened Bcrypt
  import opened Jwt
  import opened Records
  import opened Store

  /** The hash-on-write rule as a function of the data object. */
  function HashOnWrite(d: Data): (h: Data)
    ensures Truthy(d.password) ==> h.password.Some? && Compare(d.password.value, h.password.value)
    ensures Truthy(d.password) ==> h.password.value != d.password.value
    ensures !Truthy(d.password) ==> h == d
    ensures h.(password := d.password) == d
  {
    HashIsNotPlain(if d.password.Some? then d.password.value else "");
    if Truthy(d.password) then d.(password := Some(Hash(d.password.value))) else d
  }

  /** The `args` object a hook receives; its `data` is rewritten in place. */
  class Args {
    var data: Data

    constructor (data: Data)
      ensures this.data == data
    {
      this.data := data;
    }
  }

  /** `userMiddleware.create({args, query})`. */
  method Create(args: Args, query: UserTable, now: nat) returns (created: UserRecord, id: UserId)
    requires query.Valid()
    modifies args, query
    ensures args.data == HashOnWrite(old(args.data))
    ensures query.Valid() && id == old(query.nextId) && id !in old(query.users) && query.nextId == id + 1
    ensures query.users == old(query.users)[id := NewRecord(args.data, now)] && created == query.users[id]
  {
    if Truthy(args.data.password) {
      args.data := args.data.(password := Some(Hash(args.data.password.value)));
    }
    created, id := query.Create(args.data, now);
  }

  /** `userMiddleware.update({args, query})`, `where` being the row's id. */
  method Update(args: Args, query: UserTable, where: UserId) returns (r: Result<UserRecord, Error>)
    requires query.Valid()
    modifies args, query
    ensures args.data == HashOnWrite(old(args.data))
    ensures query.Valid() && query.nextId == old(query.nextId)
    ensures where in old(query.users) ==>
      r == Success(ApplyUpdate(old(query.users)[where], args.data)) && query.users == old(query.users)[where := r.value]
    ensures where !in old(query.users) ==> r == Failure(Uncaught) && query.users == old(query.users)
  {
    if Truthy(args.data.password) {
      args.data := args.data.(password := Some(Hash(args.data.password.value)));
    }
    r := query.Update(where, args.data);
  }
}
