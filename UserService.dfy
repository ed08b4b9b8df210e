/** The user service over the user table: create, the partial update of name
    and email, lookup, and delete. Both revisions of the service are the same
    code. */
module UserService {
  import opened Common
  import opened Domain
  import opened Store

  /** The fields of an update request; `None` is a field left null. */
  datatype UserPatch = UserPatch(name: Option<string>, email: Option<string>)

  /** The setters `update` applies to the stored user. */
  function ApplyPatch(user: User, patch: UserPatch): (r: User)
    ensures r.id == user.id
    ensures patch.name.Some? ==> r.name == patch.name.value
    ensures patch.name.None? ==> r.name == user.name
    ensures patch.email.Some? ==> r.email == patch.email.value
    ensures patch.email.None? ==> r.email == user.email
  {
    var named := if patch.name.Some? then user.(name := patch.name.value) else user;
    if patch.email.Some? then named.(email := patch.email.value) else named
  }

  /** Sending the same update twice has the effect of sending it once. */
  lemma PatchIdempotent(user: User, patch: UserPatch)
    ensures ApplyPatch(ApplyPatch(user, patch), patch) == ApplyPatch(user, patch)
  {
  }

  /** checkUserExistentAndGet / getById: the stored user, or NotFound. */
  function GetById(users: map<int, User>, id: int): (r: Result<User>)
    ensures r.Ok? <==> id in users
    ensures r.Ok? ==> r.value == users[id]
    ensures r.Err? ==> r.error == NotFound(UserEntity)
  {
    if id in users then Ok(users[id]) else Err(NotFound(UserEntity))
  }

  /** The user `update` saves: the lookup must succeed, then the non-null
      fields are copied onto the stored user. */
  function UpdateOutcome(users: map<int, User>, patch: UserPatch, id: int): (r: Result<User>)
    ensures r.Ok? <==> id in users
    ensures r.Err? ==> r.error == NotFound(UserEntity)
    ensures r.Ok? ==> r.value == ApplyPatch(users[id], patch)
  {
    match GetById(users, id)
    case Err(e) => Err(e)
    case Ok(old_user) => Ok(ApplyPatch(old_user, patch))
  }

  /** A successful update keeps the user under its own id: reading the user
      back gives the updated record. */
  lemma UpdateThenGet(users: map<int, User>, lastId: int, patch: UserPatch, id: int)
    requires UsersKeyed(users, lastId)
    requires UpdateOutcome(users, patch, id).Ok?
    ensures var updated := UpdateOutcome(users, patch, id).value;
      && updated.id == id
      && UsersKeyed(users[id := updated], lastId)
      && GetById(users[id := updated], id) == Ok(updated)
  {
  }

  /** The user `create` saves. The request body may carry an id, which the
      mapper copies onto the entity. `save` merges an entity whose id has a
      row into that row, drawing no identity value. An entity without an id,
      or with an id that has no row, is inserted under the next identity
      value. */
  function CreateOutcome(users: map<int, User>, lastId: int, id: Option<int>, name: string, email: string)
    : (u: User)
    requires lastId >= 0 && UsersKeyed(users, lastId)
    ensures u.name == name && u.email == email
    ensures id.Some? && id.value in users ==> u.id == id.value
    ensures id.None? || id.value !in users ==> u.id == lastId + 1 && u.id !in users
    ensures UsersKeyed(users[u.id := u], if u.id in users then lastId else lastId + 1)
  {
    if id.Some? && id.value in users then User(id.value, name, email)
    else User(lastId + 1, name, email)
  }

  /** A create whose body carries a stored user's id overwrites that user's
      name and email, exactly as an update that sets both fields. */
  lemma CreateWithStoredIdIsUpdate(users: map<int, User>, lastId: int, k: int, name: string, email: string)
    requires lastId >= 0 && UsersKeyed(users, lastId)
    requires k in users
    ensures UpdateOutcome(users, UserPatch(Some(name), Some(email)), k)
              == Ok(CreateOutcome(users, lastId, Some(k), name, email))
  {
  }

  /** Creating a user and then sending the returned record to create again
      leaves the table as the first create left it and returns the same user:
      the second call is a merge, not a second row. */
  lemma CreateAgainIsMerge(users: map<int, User>, lastId: int, name: string, email: string)
    requires lastId >= 0 && UsersKeyed(users, lastId)
    ensures var first := CreateOutcome(users, lastId, None, name, email);
      var stored := users[first.id := first];
      && first.id == lastId + 1
      && CreateOutcome(stored, lastId + 1, Some(first.id), first.name, first.email) == first
      && stored[first.id := first] == stored
  {
  }

  /** `create`: saves the user from the request body, merging into the row of
      a stored id and otherwise inserting under the next identity value. */
  method Create(db: Database, id: Option<int>, name: string, email: string) returns (user: User)
    requires db.Valid()
    modifies db
    ensures db.Valid()
    ensures user == CreateOutcome(old(db.users), old(db.lastUserId), id, name, email)
    ensures db.users == old(db.users)[user.id := user]
    ensures db.lastUserId == if user.id in old(db.users) then old(db.lastUserId) else user.id
    ensures db.items == old(db.items) && db.bookings == old(db.bookings)
    ensures db.requests == old(db.requests) && db.comments == old(db.comments)
  {
    if id.Some? && id.value in db.users {
      user := User(id.value, name, email);
    } else {
      db.lastUserId := db.lastUserId + 1;
      user := User(db.lastUserId, name, email);
    }
    db.users := db.users[user.id := user];
  }

  /** `update`: patches the stored user and saves it; an unknown id changes
      nothing. */
  method Update(db: Database, patch: UserPatch, id: int) returns (r: Result<User>)
    requires db.Valid()
    modifies db
    ensures db.Valid()
    ensures r == UpdateOutcome(old(db.users), patch, id)
    ensures db.users == if r.Ok? then old(db.users)[id := r.value] else old(db.users)
    ensures db.lastUserId == old(db.lastUserId) && db.items == old(db.items) && db.bookings == old(db.bookings)
    ensures db.requests == old(db.requests) && db.comments == old(db.comments)
  {
    if id !in db.users {
      return Err(NotFound(UserEntity));
    }
    var user := db.users[id];
    if patch.name.Some? {
      user := user.(name := patch.name.value);
    }
    if patch.email.Some? {
      user := user.(email := patch.email.value);
    }
    db.users := db.users[id := user];
    r := Ok(user);
  }

  /** What `delete` answers: the service does not look the id up itself, and
      the repository's deleteById fails on an id with no row. */
  function DeleteOutcome(users: map<int, User>, id: int): (r: Result<map<int, User>>)
    ensures r.Ok? <==> id in users
    ensures r.Err? ==> r.error == EmptyResult
    ensures r.Ok? ==> id !in r.value && |r.value| == |users| - 1
    ensures r.Ok? ==> forall k :: k in r.value <==> k in users && k != id
    ensures r.Ok? ==> forall k :: k in r.value ==> r.value[k] == users[k]
  {
    if id in users then Ok(users - {id}) else Err(EmptyResult)
  }

  /** `delete`: removes the row of the id; other users stay. On an id with no
      row deleteById throws and nothing changes. */
  method Delete(db: Database, id: int) returns (r: Result<()>)
    requires db.Valid()
    modifies db
    ensures db.Valid()
    ensures r.Err? <==> id !in old(db.users)
    ensures r.Err? ==> r.error == EmptyResult
    ensures db.users == old(db.users) - {id}
    ensures r.Ok? <==> DeleteOutcome(old(db.users), id) == Ok(db.users)
    ensures db.lastUserId == old(db.lastUserId) && db.items == old(db.items) && db.bookings == old(db.bookings)
    ensures db.requests == old(db.requests) && db.comments == old(db.comments)
  {
    if id !in db.users {
      return Err(EmptyResult);
    }
    db.users := db.users - {id};
    r := Ok(());
  }

  /** After delete the user is gone, every other user is still found, and the
      next identity value is unused, so a deleted id is never handed out
      again. */
  lemma DeleteThenGet(users: map<int, User>, lastId: int, id: int, other: int)
    requires UsersKeyed(users, lastId)
    requires other != id
    ensures GetById(users - {id}, id) == Err(NotFound(UserEntity))
    ensures GetById(users - {id}, other) == GetById(users, other)
    ensures UsersKeyed(users - {id}, lastId)
    ensures lastId + 1 !in users - {id}
  {
  }
}
