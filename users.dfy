/**
 * User registration and listing over an in-memory user collection. The
 * password hash is a parameter: the salted library hash is not modelled.
 */
module UsersController {
  import opened Common
  import opened Store

  /** A registration body; each field may be absent, `undefined` or `null`. */
  datatype UserRequest = UserRequest(username: Option<string>, name: Option<string>, password: Option<string>)

  /** A stored user: the password itself is never kept, only its hash. */
  datatype User = User(username: string, name: Option<string>, passwordHash: string)

  /** What the registration handler answers. */
  datatype Reply =
    | Created(id: Id, user: User)   // 201, the saved user
    | Rejected(error: string)       // 400 with `{ error }`

  const RequiredError: string := "Username and password are required."
  const TooShortError: string := "Username and password should be minimum of 3 characters."
  const TakenError: string := "Username is already taken."

  /** The HTTP status each reply is sent with. */
  function StatusOf(reply: Reply): int
  {
    if reply.Created? then 201 else 400
  }

  /** `User.findOne({ username })` finds a user. */
  predicate UsernameTaken(users: map<Id, User>, username: string)
  {
    exists id | id in users :: users[id].username == username
  }

  /** No two stored users share a username. */
  ghost predicate UniqueUsernames(users: map<Id, User>)
  {
    forall i, j :: i in users && j in users && users[i].username == users[j].username ==> i == j
  }

  /**
   * The validation cascade, in source order: missing fields, then length,
   * then an existing username. The first check that fails gives the error;
   * `None` when all pass.
   */
  function Check(body: UserRequest, users: map<Id, User>): (r: Option<string>)
    ensures r == Some(RequiredError) <==> !Truthy(body.username) || !Truthy(body.password)
    ensures r == Some(TooShortError) <==>
      && Truthy(body.username) && Truthy(body.password)
      && (|body.username.value| < 3 || |body.password.value| < 3)
    ensures r == Some(TakenError) <==>
      && Truthy(body.username) && Truthy(body.password)
      && |body.username.value| >= 3 && |body.password.value| >= 3
      && UsernameTaken(users, body.username.value)
    ensures r.None? <==>
      && Truthy(body.username) && Truthy(body.password)
      && |body.username.value| >= 3 && |body.password.value| >= 3
      && forall id :: id in users ==> users[id].username != body.username.value
  {
    if !Truthy(body.password) || !Truthy(body.username) then Some(RequiredError)
    else if |body.username.value| < 3 || |body.password.value| < 3 then Some(TooShortError)
    else if UsernameTaken(users, body.username.value) then Some(TakenError)
    else None
  }

  /** The user collection. */
  class UserTable {
    /** The stored users by id. */
    var users: map<Id, User>
    /** The ids in the order `find({})` returns their users. */
    var order: seq<Id>

    ghost predicate Valid()
      reads this
    {
      Lists(order, users.Keys) && UniqueUsernames(users)
    }

    constructor ()
      ensures Valid() && users == map[] && order == []
    {
      users := map[];
      order := [];
    }

    /** GET `/`: every stored user once, with its id, in storage order. */
    method List() returns (r: seq<(Id, User)>)
      requires Valid()
      ensures r == Snapshot(order, users)
      ensures |r| == |users|
      ensures forall i :: 0 <= i < |r| ==> r[i].0 in users && r[i].1 == users[r[i].0]
      ensures forall id :: id in users ==> exists i :: 0 <= i < |r| && r[i].0 == id
    {
      r := Snapshot(order, users);
    }

    /**
     * POST `/`: a request the cascade refuses gets 400 with its message and
     * changes nothing; otherwise one user with the given username and name
     * and `hash(password)` is saved under the fresh id and returned with 201.
     * Usernames stay pairwise distinct.
     */
    method Register(body: UserRequest, hash: string -> string, newId: Id) returns (reply: Reply)
      requires Valid()
      requires newId !in users
      modifies this
      ensures Valid()
      ensures Check(body, old(users)).Some? ==>
        && reply == Rejected(Check(body, old(users)).value) && StatusOf(reply) == 400
        && users == old(users) && order == old(order)
      ensures Check(body, old(users)).None? ==>
        && StatusOf(reply) == 201
        && reply == Created(newId, User(body.username.value, body.name, hash(body.password.value)))
        && users == old(users)[newId := reply.user]
        && order == old(order) + [newId]
        && |users| == |old(users)| + 1
    {
      var error := Check(body, users);
      if error.Some? {
        return Rejected(error.value);
      }
      var passwordHash := hash(body.password.value);
      var user := User(body.username.value, body.name, passwordHash);
      users := users[newId := user];
      order := order + [newId];
      reply := Created(newId, user);
    }
  }

  /**
   * With `root` registered, a second registration as `root` is refused as
   * taken and a registration without username as incomplete; the collection
   * keeps its one user.
   */
  method DuplicateUsernameScenario(hash: string -> string) returns (first: Reply, again: Reply, anonymous: Reply, listing: seq<(Id, User)>)
    ensures first == Created(0, User("root", None, hash("salainen")))
    ensures again == Rejected(TakenError)
    ensures anonymous == Rejected(RequiredError)
    ensures |listing| == 1 && listing[0].1.username == "root"
  {
    var table := new UserTable();
    first := table.Register(UserRequest(Some("root"), None, Some("salainen")), hash, 0);
    again := table.Register(UserRequest(Some("root"), Some("Superuser"), Some("salainen")), hash, 1);
    anonymous := table.Register(UserRequest(None, Some("Test User"), Some("password")), hash, 1);
    listing := table.List();
  }
}
