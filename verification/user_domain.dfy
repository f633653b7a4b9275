/** The user entity and an abstract repository. The document store is a
    sequence of users in insertion order (a lookup returns the first match);
    which repository calls fail, and how, is an input (`Faults`), as are the
    id the store assigns, the password hasher and the queue client's verdict. */
module UserDomain {
  import opened Results
  import opened ObjectIds
  import opened EventTypes
  import opened InMemoryBus
  import opened Publishers

  datatype User = User(id: ObjectId, name: string, email: string, password: string)

  /** The repository's sentinel errors and any other driver error. */
  datatype RepoError = ErrUserNotFound | ErrUserAlreadyExists | DbError(msg: string)

  datatype RepoOp = CreateOp | FindByIdOp | FindByEmailOp | UpdateOp | DeleteOp

  /** The repository calls that fail, with the error each one returns. */
  type Faults = map<RepoOp, RepoError>

  datatype Store = Store(users: seq<User>)

  /** The errors the producers return: a repository error passed on as is,
      one wrapped with a context text (`fmt.Errorf("<context>: %w", err)`),
      a malformed id, or a failed hash. */
  datatype AppError =
    | Repo(err: RepoError)
    | Wrapped(context: string, cause: RepoError)
    | InvalidUserId
    | HashFailed

  /** The collaborators outside the model, as inputs. */
  datatype Env = Env(
    faults: Faults,
    newId: ObjectId,
    hash: string -> Option<string>,
    verdict: Outcome<string>)

  /** What one producer call did: the store and sinks afterwards, the
      repository and publisher calls it made in order, and its result. */
  datatype Run<T> = Run(
    store: Store,
    sinks: Sinks,
    repoCalls: seq<RepoOp>,
    publishCalls: seq<PublishCall>,
    result: Result<T, AppError>)

  /** The welcome-email task both producers enqueue for a new user, naming
      the user by the hex text of the id. */
  function WelcomeTask(u: User): PublishCall
  {
    PublishCall(HighImportance, SendWelcomeEmailTaskName, SendWelcomeEmailPayload(Hex(u.id), u.email, u.name))
  }

  /** The position of the first user `matches` accepts, or `|users|` when
      there is none: a `FindOne` over the collection in insertion order. */
  function FirstMatch(users: seq<User>, matches: User -> bool): (r: nat)
    ensures r <= |users|
    ensures r < |users| ==> matches(users[r])
    ensures forall k :: 0 <= k < r ==> !matches(users[k])
  {
    if users == [] then 0
    else if matches(users[0]) then 0
    else FirstMatch(users[1..], matches) + 1
  }

  predicate HasId(st: Store, id: ObjectId)
  {
    exists u :: u in st.users && u.id == id
  }

  /** The position of the first stored user with the id. */
  function PositionOfId(users: seq<User>, id: ObjectId): nat
  {
    FirstMatch(users, (v: User) => v.id == id)
  }

  /** The collection's unique `_id` index: no two stored users share an id. */
  predicate UniqueIds(st: Store)
  {
    forall i, j :: 0 <= i < j < |st.users| ==> st.users[i].id != st.users[j].id
  }

  /** `FindByID` / `GetUserByID`. */
  function GetById(st: Store, faults: Faults, id: ObjectId): (r: Result<User, RepoError>)
    ensures FindByIdOp !in faults ==> (r.Ok? <==> HasId(st, id))
    ensures FindByIdOp !in faults && r.Ok? ==> r.value in st.users && r.value.id == id
    ensures FindByIdOp !in faults && r.Err? ==> r.error == ErrUserNotFound
    ensures FindByIdOp in faults ==> r == Err(faults[FindByIdOp])
  {
    if FindByIdOp in faults then Err(faults[FindByIdOp])
    else
      var k := FirstMatch(st.users, (v: User) => v.id == id);
      if k < |st.users| then Ok(st.users[k]) else Err(ErrUserNotFound)
  }

  /** `FindByEmail` / `GetUserByEmail`. */
  function GetByEmail(st: Store, faults: Faults, email: string): (r: Result<User, RepoError>)
    ensures FindByEmailOp !in faults ==>
              (r.Ok? <==> exists u :: u in st.users && u.email == email)
    ensures FindByEmailOp !in faults && r.Ok? ==> r.value in st.users && r.value.email == email
    ensures FindByEmailOp !in faults && r.Err? ==> r.error == ErrUserNotFound
    ensures FindByEmailOp in faults ==> r == Err(faults[FindByEmailOp])
  {
    if FindByEmailOp in faults then Err(faults[FindByEmailOp])
    else
      var k := FirstMatch(st.users, (v: User) => v.email == email);
      if k < |st.users| then Ok(st.users[k]) else Err(ErrUserNotFound)
  }

  /** `Create` / `CreateUser`: stores the user under the id the store
      assigns; an id already taken is the duplicate-key write error, which
      the adapter reports as `ErrUserAlreadyExists`. */
  function Insert(st: Store, faults: Faults, u: User): (r: (Store, Result<User, RepoError>))
    ensures r.1.Err? ==> r.0 == st
    ensures r.1.Ok? ==> r.1.value == u && r.0.users == st.users + [u]
    ensures r.1.Ok? <==> CreateOp !in faults && !HasId(st, u.id)
    ensures CreateOp in faults ==> r.1 == Err(faults[CreateOp])
    ensures CreateOp !in faults && HasId(st, u.id) ==> r.1 == Err(ErrUserAlreadyExists)
    ensures UniqueIds(st) ==> UniqueIds(r.0)
  {
    if CreateOp in faults then (st, Err(faults[CreateOp]))
    else if PositionOfId(st.users, u.id) < |st.users| then (st, Err(ErrUserAlreadyExists))
    else (Store(st.users + [u]), Ok(u))
  }

  /** `Update(user)`: replaces the first stored user with the same id and
      leaves every other position as it was. */
  function Replace(st: Store, faults: Faults, u: User): (r: (Store, Result<User, RepoError>))
    ensures r.1.Err? ==> r.0 == st
    ensures r.1.Ok? <==> UpdateOp !in faults && HasId(st, u.id)
    ensures UpdateOp in faults ==> r.1 == Err(faults[UpdateOp])
    ensures UpdateOp !in faults && !HasId(st, u.id) ==> r.1 == Err(ErrUserNotFound)
    ensures r.1.Ok? ==>
              var k := PositionOfId(st.users, u.id);
              && r.1.value == u
              && k < |st.users| && st.users[k].id == u.id
              && r.0.users == st.users[k := u]
    ensures UniqueIds(st) ==> UniqueIds(r.0)
  {
    if UpdateOp in faults then (st, Err(faults[UpdateOp]))
    else
      var k := PositionOfId(st.users, u.id);
      if k < |st.users| then (Store(st.users[k := u]), Ok(u))
      else (st, Err(ErrUserNotFound))
  }

  /** `UpdateUser(id, updateMap)`: a `$set` of the fields named in the map
      on the first stored user with the id, returning the document after
      the update. The password and the other users are kept. */
  function ApplyUpdate(st: Store, faults: Faults, id: ObjectId, m: map<string, string>)
    : (r: (Store, Result<User, RepoError>))
    ensures r.1.Err? ==> r.0 == st
    ensures r.1.Ok? <==> UpdateOp !in faults && HasId(st, id)
    ensures UpdateOp in faults ==> r.1 == Err(faults[UpdateOp])
    ensures UpdateOp !in faults && !HasId(st, id) ==> r.1 == Err(ErrUserNotFound)
    ensures r.1.Ok? ==>
              var k := PositionOfId(st.users, id);
              && k < |st.users|
              && var was := st.users[k];
              && was.id == id
              && r.0.users == st.users[k := r.1.value]
              && r.1.value.id == id && r.1.value.password == was.password
              && ("name" in m ==> r.1.value.name == m["name"])
              && ("name" !in m ==> r.1.value.name == was.name)
              && ("email" in m ==> r.1.value.email == m["email"])
              && ("email" !in m ==> r.1.value.email == was.email)
    ensures UniqueIds(st) ==> UniqueIds(r.0)
  {
    if UpdateOp in faults then (st, Err(faults[UpdateOp]))
    else
      var k := PositionOfId(st.users, id);
      if k < |st.users| then
        var cur := st.users[k];
        var u := cur.(name := if "name" in m then m["name"] else cur.name,
                      email := if "email" in m then m["email"] else cur.email);
        (Store(st.users[k := u]), Ok(u))
      else (st, Err(ErrUserNotFound))
  }

  /** `Delete` / `DeleteUser`: removes the first stored user with the id,
      keeping the order of the rest; a missing id is not-found. */
  function Remove(st: Store, faults: Faults, id: ObjectId): (r: (Store, Outcome<RepoError>))
    ensures r.1.Fail? ==> r.0 == st
    ensures r.1.Pass? <==> DeleteOp !in faults && HasId(st, id)
    ensures DeleteOp in faults ==> r.1 == Fail(faults[DeleteOp])
    ensures DeleteOp !in faults && !HasId(st, id) ==> r.1 == Fail(ErrUserNotFound)
    ensures r.1.Pass? ==>
              var k := PositionOfId(st.users, id);
              && k < |st.users| && st.users[k].id == id
              && r.0.users == st.users[..k] + st.users[k + 1..]
    ensures UniqueIds(st) ==> UniqueIds(r.0)
  {
    if DeleteOp in faults then (st, Fail(faults[DeleteOp]))
    else
      var k := PositionOfId(st.users, id);
      if k < |st.users| then (Store(st.users[..k] + st.users[k + 1..]), Pass)
      else (st, Fail(ErrUserNotFound))
  }

  /** Cutting out the only user with the id keeps everyone else. */
  lemma CutKeepsOthers(users: seq<User>, k: nat, id: ObjectId)
    requires k < |users| && users[k].id == id
    requires UniqueIds(Store(users))
    ensures forall u :: u in users[..k] + users[k + 1..] ==> u in users && u.id != id
    ensures forall u :: u in users && u.id != id ==> u in users[..k] + users[k + 1..]
  {
    CutTakesNothingNew(users, k, id);
    CutDropsOnlyOne(users, k, id);
  }

  lemma CutTakesNothingNew(users: seq<User>, k: nat, id: ObjectId)
    requires k < |users| && users[k].id == id
    requires UniqueIds(Store(users))
    ensures forall u :: u in users[..k] + users[k + 1..] ==> u in users && u.id != id
  {
    var rest := users[..k] + users[k + 1..];
    forall u | u in rest
      ensures u in users && u.id != id
    {
      var i :| 0 <= i < |rest| && rest[i] == u;
      if i < k {
        assert users[i] == u;
      } else {
        assert users[i + 1] == u;
      }
    }
  }

  lemma CutDropsOnlyOne(users: seq<User>, k: nat, id: ObjectId)
    requires k < |users| && users[k].id == id
    ensures forall u :: u in users && u.id != id ==> u in users[..k] + users[k + 1..]
  {
    var rest := users[..k] + users[k + 1..];
    forall u | u in users && u.id != id
      ensures u in rest
    {
      var i :| 0 <= i < |users| && users[i] == u;
      if i < k {
        assert rest[i] == u;
      } else {
        assert rest[i - 1] == u;
      }
    }
  }

  /** With ids unique, a successful delete removes exactly the user with the
      id: no user with it is left, every other user is kept, and nobody is
      added. */
  lemma {:induction false} RemoveDeletesOnlyThatUser(st: Store, faults: Faults, id: ObjectId)
    requires UniqueIds(st)
    requires Remove(st, faults, id).1.Pass?
    ensures !HasId(Remove(st, faults, id).0, id)
    ensures forall u :: u in st.users && u.id != id ==> u in Remove(st, faults, id).0.users
    ensures forall u :: u in Remove(st, faults, id).0.users ==> u in st.users
  {
    var k := PositionOfId(st.users, id);
    CutKeepsOthers(st.users, k, id);
  }
}
