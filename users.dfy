/** The user record and the store it lives in: the `UserSource` interface of the engine
    and the map-backed store the demo application plugs into it. */
module Users {
  import opened Common

  /** A registered account. `password` holds the space-joined bcrypt hashes,
      `confirmationCode` the code mailed at registration (empty without a mail sender). */
  datatype User = User(email: Bytes, password: Bytes, confirmationCode: Bytes,
                       createdAt: Time, confirmedAt: Option<Time>)

  /** The four store operations, to say which of them a store fails. */
  datatype StoreOp = InsertOp | UpdateOp | DeleteOp | SelectOp

  /** The table after writing `u` under its e-mail address: the entry is overwritten if
      present, added otherwise; every other entry is kept. */
  function Put(users: map<Bytes, User>, u: User): (r: map<Bytes, User>)
    ensures r.Keys == users.Keys + {u.email}
    ensures u.email in r && r[u.email] == u
    ensures forall e :: e in users && e != u.email ==> r[e] == users[e]
  {
    users[u.email := u]
  }

  /** The table without `email`; the same table if it was not there. */
  function Remove(users: map<Bytes, User>, email: Bytes): (r: map<Bytes, User>)
    ensures r.Keys == users.Keys - {email}
    ensures forall e :: e in r ==> r[e] == users[e]
  {
    users - {email}
  }

  /** What `Select` finds: a copy of the entry, or nothing. */
  function Lookup(users: map<Bytes, User>, email: Bytes): (r: Option<User>)
    ensures r.Some? <==> email in users
    ensures r.Some? ==> r.value == users[email]
  {
    if email in users then Some(users[email]) else None
  }

  /** A stored user is found again under its own address. */
  lemma LookupAfterPut(users: map<Bytes, User>, u: User, e: Bytes)
    ensures Lookup(Put(users, u), e) == if e == u.email then Some(u) else Lookup(users, e)
  {
  }

  /** Writing the same user twice is writing it once. */
  lemma PutIdempotent(users: map<Bytes, User>, u: User)
    ensures Put(Put(users, u), u) == Put(users, u)
  {
  }

  /** After removal the address is unknown, and every other address is untouched. */
  lemma LookupAfterRemove(users: map<Bytes, User>, email: Bytes, e: Bytes)
    ensures Lookup(Remove(users, email), e) == if e == email then None else Lookup(users, e)
  {
  }

  /** Removing an address that is not there changes nothing. */
  lemma RemoveMissing(users: map<Bytes, User>, email: Bytes)
    requires email !in users
    ensures Remove(users, email) == users
  {
  }

  /** A store behind the `UserSource` interface. The `users` table is what it holds;
      `failures` says which operations report an error instead of acting. The store of
      the demo application is the one with no failures. */
  class UserSource {
    var users: map<Bytes, User>
    const failures: map<StoreOp, Error>

    /** `NewUserSource`: an empty table; no operation ever fails. */
    constructor ()
      ensures users == map[] && failures == map[]
    {
      users := map[];
      failures := map[];
    }

    /** Another implementation of the interface: it starts from `users` and answers each
        operation in `failures` with that error. */
    constructor Failing(users: map<Bytes, User>, failures: map<StoreOp, Error>)
      ensures this.users == users && this.failures == failures
    {
      this.users := users;
      this.failures := failures;
    }

    /** `Insert`: writes the user under its address, replacing any user already there. */
    method Insert(u: User) returns (err: Option<Error>)
      modifies this
      ensures InsertOp in failures ==> err == Some(failures[InsertOp]) && users == old(users)
      ensures InsertOp !in failures ==> err == None && users == Put(old(users), u)
    {
      if InsertOp in failures {
        return Some(failures[InsertOp]);
      }
      users := users[u.email := u];
      return None;
    }

    /** `Update`: the same write as `Insert`. */
    method Update(u: User) returns (err: Option<Error>)
      modifies this
      ensures UpdateOp in failures ==> err == Some(failures[UpdateOp]) && users == old(users)
      ensures UpdateOp !in failures ==> err == None && users == Put(old(users), u)
    {
      if UpdateOp in failures {
        return Some(failures[UpdateOp]);
      }
      users := users[u.email := u];
      return None;
    }

    /** `Delete`: drops the address; a missing address is no error. */
    method Delete(email: Bytes) returns (err: Option<Error>)
      modifies this
      ensures DeleteOp in failures ==> err == Some(failures[DeleteOp]) && users == old(users)
      ensures DeleteOp !in failures ==> err == None && users == Remove(old(users), email)
    {
      if DeleteOp in failures {
        return Some(failures[DeleteOp]);
      }
      users := users - {email};
      return None;
    }

    /** `Select`: a copy of the user under the address, or none; the table is not changed. */
    method Select(email: Bytes) returns (r: Result<Option<User>>)
      ensures SelectOp in failures ==> r == Err(failures[SelectOp])
      ensures SelectOp !in failures ==> r == Ok(Lookup(users, email))
    {
      if SelectOp in failures {
        return Err(failures[SelectOp]);
      }
      if email in users {
        return Ok(Some(users[email]));
      }
      return Ok(None);
    }
  }

  /** With the demo store, inserting and then selecting the same address gives the user
      back, and a second insert of the same address overwrites the first. */
  method InsertThenSelect(u: User, v: User) returns (first: Option<User>, second: Option<User>)
    requires u.email == v.email
    ensures first == Some(u) && second == Some(v)
  {
    var store := new UserSource();
    var err := store.Insert(u);
    var r := store.Select(u.email);
    first := r.value;
    err := store.Insert(v);
    r := store.Select(u.email);
    second := r.value;
  }
}
