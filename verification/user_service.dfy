/** The user service: existence-checked create, patch, lookup and delete over
    the user store. */
module UserService {
  import opened Outcomes
  import opened Entities
  import Repo = UserRepository

  /** The body of a patch request: `null` fields are left as they are. */
  datatype UserDto = UserDto(id: int, name: Option<string>, email: Option<string>)

  /** The body of a create request once the gateway has checked that the
      name and email are present. The id is not constrained on create, so a
      client may send one. */
  datatype NewUser = NewUser(id: Option<int>, name: string, email: string)

  /** `checkUserExist`: `NotFound` unless a user has this id. */
  function CheckUserExist(users: Repo.Users, id: int): (r: Option<Error>)
    ensures r.None? <==> Repo.FindById(users, id).Some?
    ensures r.Some? ==> r.value == NotFound
  {
    if id in users.rows then None else Some(NotFound)
  }

  /** `createUser`: the mapper copies the body, id included, and `save`
      stamps a fresh id over it, so an id in the body never selects a stored
      user. Returns the stored record. */
  function CreateUser(users: Repo.Users, dto: NewUser): (o: (Repo.Users, User))
    ensures o.1.name == dto.name && o.1.email == dto.email
    ensures o.1.id == users.counter + 1
    ensures Repo.FindById(o.0, o.1.id) == Some(o.1)
    ensures forall k :: k != o.1.id ==> Repo.FindById(o.0, k) == Repo.FindById(users, k)
    ensures Repo.Keyed(users) ==> Repo.Keyed(o.0) && Repo.FindById(users, o.1.id) == None
  {
    var id := if dto.id.Some? then dto.id.value else 0;
    Repo.Save(users, User(id, dto.name, dto.email))
  }

  /** `updateUserFromDto`: copies the non-null fields of the patch onto the
      user and keeps the rest. The id is one of the copied fields; the service
      has looked the user up by that same id. */
  function ApplyPatch(u: User, dto: UserDto): User
  {
    User(
      dto.id,
      if dto.name.Some? then dto.name.value else u.name,
      if dto.email.Some? then dto.email.value else u.email)
  }

  /** A patch changes exactly the fields it carries: applying it twice is
      applying it once, an empty patch changes nothing, and every field the
      patch leaves `null` keeps its old value. */
  lemma PatchSemantics(u: User, dto: UserDto)
    ensures ApplyPatch(ApplyPatch(u, dto), dto) == ApplyPatch(u, dto)
    ensures dto.name.None? && dto.email.None? && dto.id == u.id ==> ApplyPatch(u, dto) == u
    ensures ApplyPatch(u, dto).id == dto.id
    ensures dto.name.None? ==> ApplyPatch(u, dto).name == u.name
    ensures dto.email.None? ==> ApplyPatch(u, dto).email == u.email
    ensures dto.name.Some? ==> ApplyPatch(u, dto).name == dto.name.value
    ensures dto.email.Some? ==> ApplyPatch(u, dto).email == dto.email.value
  {
  }

  /** `patchUser`: `NotFound` for an unknown id; otherwise the patched user
      replaces the stored one under the same id. */
  function PatchUser(users: Repo.Users, dto: UserDto): (o: Outcome<Repo.Users, User>)
    ensures dto.id !in users.rows <==> o.result == Err(NotFound)
    ensures o.result.Err? ==> o.state == users
    ensures o.result.Ok? ==> o.result.value == ApplyPatch(users.rows[dto.id], dto)
    ensures o.result.Ok? ==> Repo.FindById(o.state, dto.id) == Some(o.result.value)
    ensures forall k :: k != dto.id ==> Repo.FindById(o.state, k) == Repo.FindById(users, k)
    ensures Repo.Keyed(users) ==> Repo.Keyed(o.state)
  {
    match Repo.FindById(users, dto.id)
    case None => Outcome(users, Err(NotFound))
    case Some(found) =>
      var updated := Repo.Update(users, ApplyPatch(found, dto));
      Outcome(updated.0, Ok(updated.1))
  }

  /** `getUserById`: the stored user, or `NotFound`. */
  function GetUserById(users: Repo.Users, id: int): (r: Result<User>)
    ensures r.Ok? <==> id in users.rows
    ensures r.Ok? ==> r.value == users.rows[id]
    ensures r.Err? ==> r.error == NotFound
  {
    match Repo.FindById(users, id)
    case None => Err(NotFound)
    case Some(u) => Ok(u)
  }

  /** `getAllUsers`: every stored user, once per stored id. */
  function GetAllUsers(users: Repo.Users): (r: seq<User>)
    ensures |r| == |users.rows|
    ensures forall u :: u in r <==> exists k :: k in users.rows && users.rows[k] == u
  {
    Repo.FindAllListsStoredUsers(users);
    Repo.FindAll(users)
  }

  /** `deleteUserById`: `NotFound` and no change for an unknown id; otherwise
      exactly that user is removed. */
  function DeleteUserById(users: Repo.Users, id: int): (o: Outcome<Repo.Users, ()>)
    ensures id !in users.rows <==> o.result == Err(NotFound)
    ensures o.result.Err? ==> o.state == users
    ensures Repo.FindById(o.state, id) == None
    ensures forall k :: k != id ==> Repo.FindById(o.state, k) == Repo.FindById(users, k)
  {
    if id !in users.rows then Outcome(users, Err(NotFound))
    else Outcome(Repo.Delete(users, id), Ok(()))
  }

  /** The id a create body carries has no effect: creating with it or
      without it stores the same user under the same fresh id, and every
      user already stored is left as it was. */
  lemma CreateUserIgnoresBodyId(users: Repo.Users, dto: NewUser)
    ensures CreateUser(users, dto) == CreateUser(users, dto.(id := None))
    ensures Repo.Keyed(users) ==> forall k :: k in users.rows ==> Repo.FindById(CreateUser(users, dto).0, k) == Repo.FindById(users, k)
  {
  }

  /** A created user can be read back, and a deleted one cannot. */
  lemma CreateThenGetThenDelete(users: Repo.Users, dto: NewUser)
    ensures var (users', u) := CreateUser(users, dto);
      && GetUserById(users', u.id) == Ok(u)
      && DeleteUserById(users', u.id).result == Ok(())
      && GetUserById(DeleteUserById(users', u.id).state, u.id) == Err(NotFound)
  {
  }
}
