/** The in-memory user repository: a map from id to user plus a counter that
    `save` increments before stamping the new user. */
module UserRepository {
  import opened Outcomes
  import opened Entities
  import Stores

  type Users = Stores.Store<User>

  /** The repository's own invariant: every key was handed out by the counter
      and is the id of the user stored under it. */
  ghost predicate Keyed(s: Users)
  {
    && Stores.Valid(s)
    && forall k :: k in s.rows ==> s.rows[k].id == k
  }

  /** `findById`: the user stored under `id`, if any. */
  function FindById(s: Users, id: int): (r: Option<User>)
    ensures r.Some? <==> id in s.rows
    ensures r.Some? ==> r.value == s.rows[id]
  {
    Stores.Find(s, id)
  }

  /** `save`: discards the incoming id, stamps `++currentID` and stores the
      user under it. */
  function Save(s: Users, u: User): (r: (Users, User))
    ensures r.1.name == u.name && r.1.email == u.email
    ensures r.1.id == s.counter + 1 == r.0.counter
    ensures FindById(r.0, r.1.id) == Some(r.1)
    ensures forall k :: k != r.1.id ==> FindById(r.0, k) == FindById(s, k)
    ensures Keyed(s) ==> Keyed(r.0) && FindById(s, r.1.id) == None
  {
    var saved := u.(id := Stores.NextId(s));
    (Stores.Insert(s, saved), saved)
  }

  /** `update`: writes the user under its own id, whether or not that id is
      present. */
  function Update(s: Users, u: User): (r: (Users, User))
    ensures r.1 == u
    ensures FindById(r.0, u.id) == Some(u)
    ensures forall k :: k != u.id ==> FindById(r.0, k) == FindById(s, k)
    ensures r.0.counter == s.counter
    ensures Keyed(s) && u.id in s.rows ==> Keyed(r.0)
  {
    (Stores.Put(s, u.id, u), u)
  }

  /** `delete`: removes the entry at `id`; an absent id changes nothing. */
  function Delete(s: Users, id: int): (r: Users)
    ensures FindById(r, id) == None
    ensures forall k :: k != id ==> FindById(r, k) == FindById(s, k)
    ensures Keyed(s) ==> Keyed(r)
  {
    Stores.Remove(s, id)
  }

  function FindAll(s: Users): seq<User>
  {
    Stores.FindAll(s)
  }

  /** The first user in `xs` with the given email. */
  function FirstWithEmail(xs: seq<User>, email: string): (r: Option<User>)
    ensures r.None? <==> forall i :: 0 <= i < |xs| ==> xs[i].email != email
    ensures r.Some? ==> r.value in xs && r.value.email == email
  {
    if xs == [] then None
    else if xs[0].email == email then Some(xs[0])
    else FirstWithEmail(xs[1..], email)
  }

  /** `findByEmail`: some stored user with an equal email, if there is one.
      `findAny` may pick any match; the model picks the one with the least
      id. */
  function FindByEmail(s: Users, email: string): (r: Option<User>)
    ensures r.None? <==> forall k :: k in s.rows ==> s.rows[k].email != email
    ensures r.Some? ==> r.value.email == email
    ensures r.Some? ==> exists k :: k in s.rows && s.rows[k] == r.value
  {
    var all := FindAll(s);
    var r := FirstWithEmail(all, email);
    if r.Some? then
      Stores.FindAllExact(s, r.value);
      r
    else
      assert forall k :: k in s.rows ==> s.rows[k].email != email by {
        forall k | k in s.rows
          ensures s.rows[k].email != email
        {
          Stores.FindAllExact(s, s.rows[k]);
        }
      }
      r
  }

  /** `findAll` lists exactly the stored users, one element per stored id. */
  lemma FindAllStoredUsers(s: Users, u: User)
    ensures |FindAll(s)| == |s.rows|
    ensures u in FindAll(s) <==> exists k :: k in s.rows && s.rows[k] == u
  {
    Stores.FindAllExact(s, u);
  }

  /** `findAll` lists exactly the stored users, one entry per stored id. */
  lemma FindAllListsStoredUsers(s: Users)
    ensures |FindAll(s)| == |s.rows|
    ensures forall u :: u in FindAll(s) <==> exists k :: k in s.rows && s.rows[k] == u
  {
    FindAllStoredUsers(s, User(0, "", ""));
    forall u
      ensures u in FindAll(s) <==> exists k :: k in s.rows && s.rows[k] == u
    {
      FindAllStoredUsers(s, u);
    }
  }

  /** Ids handed out by successive saves strictly increase. */
  lemma SavesIncrease(s: Users, u: User, v: User)
    ensures Save(s, u).1.id < Save(Save(s, u).0, v).1.id
  {
  }
}
