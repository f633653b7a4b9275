/** `UserUsecase`, the second producer. It refuses a duplicate email before
    creating, publishes only the welcome-email task (never an in-memory
    event), builds a partial update from the fields that actually change,
    and publishes nothing on update or delete. */
module UserUsecases {
  import opened Results
  import opened ObjectIds
  import opened EventTypes
  import opened InMemoryBus
  import opened Publishers
  import opened UserDomain

  /** How `UserUsecase.CreateUser` reports a failed create: the
      already-exists sentinel as itself, anything else wrapped. */
  function CreateError(e: RepoError): AppError
  {
    if e == ErrUserAlreadyExists then Repo(ErrUserAlreadyExists)
    else Wrapped("failed to save user to database", e)
  }

  /** `UserUsecase.CreateUser`. */
  function CreateUser(st: Store, sinks: Sinks, env: Env, data: User): (r: Run<User>)
    requires SinksValid(sinks)
    ensures SinksValid(r.sinks)
    ensures r.result.Err? ==> r.publishCalls == [] && r.sinks == sinks && r.store == st
    ensures GetByEmail(st, env.faults, data.email).Ok? ==>
              r.result == Err(Repo(ErrUserAlreadyExists)) && r.repoCalls == [FindByEmailOp]
    ensures CreateOp in r.repoCalls <==>
              GetByEmail(st, env.faults, data.email) == Err(ErrUserNotFound) &&
              env.hash(data.password).Some?
    ensures r.result.Ok? <==>
              && GetByEmail(st, env.faults, data.email) == Err(ErrUserNotFound)
              && env.hash(data.password).Some?
              && CreateOp !in env.faults
              && !HasId(st, env.newId)
    ensures GetByEmail(st, env.faults, data.email) == Err(ErrUserNotFound) &&
            env.hash(data.password).None? ==>
              r.result == Err(HashFailed) && r.repoCalls == [FindByEmailOp]
    ensures CreateOp in r.repoCalls && CreateOp in env.faults ==>
              r.result == Err(CreateError(env.faults[CreateOp]))
    ensures CreateOp in r.repoCalls && CreateOp !in env.faults && HasId(st, env.newId) ==>
              r.result == Err(Repo(ErrUserAlreadyExists))
    ensures (match GetByEmail(st, env.faults, data.email)
             case Err(e) => e != ErrUserNotFound
             case Ok(_) => false) ==>
              r.result == Err(Wrapped("error checking for existing user",
                                      GetByEmail(st, env.faults, data.email).error))
    ensures r.result.Ok? ==>
              var u := r.result.value;
              && env.hash(data.password).Some?
              && u == User(env.newId, data.name, data.email, env.hash(data.password).value)
              && r.store.users == st.users + [u]
              && r.repoCalls == [FindByEmailOp, CreateOp]
              && r.publishCalls == [WelcomeTask(u)]
              && r.sinks.bus == sinks.bus
    ensures UniqueIds(st) ==> UniqueIds(r.store)
  {
    match GetByEmail(st, env.faults, data.email)
    case Ok(_) => Run(st, sinks, [FindByEmailOp], [], Err(Repo(ErrUserAlreadyExists)))
    case Err(e) =>
      if e != ErrUserNotFound then
        Run(st, sinks, [FindByEmailOp], [], Err(Wrapped("error checking for existing user", e)))
      else
        match env.hash(data.password)
        case None => Run(st, sinks, [FindByEmailOp], [], Err(HashFailed))
        case Some(hashed) =>
          var (st1, created) := Insert(st, env.faults, data.(id := env.newId, password := hashed));
          match created
          case Err(ce) => Run(st1, sinks, [FindByEmailOp, CreateOp], [], Err(CreateError(ce)))
          case Ok(u) =>
            var call := WelcomeTask(u);
            Run(st1, Perform(sinks, call, env.verdict).0, [FindByEmailOp, CreateOp], [call], Ok(u))
  }

  /** The update map's name entry: present only for a non-empty name that
      differs from the stored one. */
  function NameEntry(existing: User, name: string): (m: map<string, string>)
    ensures "name" in m <==> name != "" && existing.name != name
    ensures "name" in m ==> m["name"] == name
    ensures "email" !in m
  {
    if name != "" && existing.name != name then map["name" := name] else map[]
  }

  /** Whether the email is to be written: non-empty and different. */
  predicate EmailChanges(existing: User, email: string)
  {
    email != "" && existing.email != email
  }

  /** How `UserUsecase` reports a repository error: not-found as the
      `ErrUserNotFound` sentinel itself, anything else wrapped with the
      step's context text. */
  function NotFoundOrWrapped(context: string, e: RepoError): AppError
  {
    if e == ErrUserNotFound then Repo(ErrUserNotFound) else Wrapped(context, e)
  }

  /** `UserUsecase.UpdateUser`. The lookup, the email check and the write
      each report their errors in their own way; nothing is published. */
  function UpdateUser(st: Store, sinks: Sinks, env: Env, idStr: string, name: string, email: string)
    : (r: Run<User>)
    ensures r.sinks == sinks && r.publishCalls == []
    ensures FromHex(idStr).None? ==> r.result == Err(InvalidUserId) && r.repoCalls == []
    ensures r.result.Err? ==> r.store == st
    ensures r.result.Ok? ==> FromHex(idStr) == Some(r.result.value.id)
    ensures FromHex(idStr).Some? && FindByIdOp in env.faults ==>
              && r.repoCalls == [FindByIdOp]
              && r.result == Err(NotFoundOrWrapped("error finding user for update", env.faults[FindByIdOp]))
    ensures FromHex(idStr).Some? && FindByIdOp !in env.faults && !HasId(st, FromHex(idStr).value) ==>
              r.result == Err(Repo(ErrUserNotFound)) && r.repoCalls == [FindByIdOp]
    ensures FromHex(idStr).Some? && GetById(st, env.faults, FromHex(idStr).value).Ok? &&
            EmailChanges(GetById(st, env.faults, FromHex(idStr).value).value, email) &&
            FindByEmailOp in env.faults && env.faults[FindByEmailOp] != ErrUserNotFound ==>
              && r.repoCalls == [FindByIdOp, FindByEmailOp]
              && r.result == Err(Wrapped("error checking new email", env.faults[FindByEmailOp]))
    ensures r.result.Err? && UpdateOp in r.repoCalls ==>
              UpdateOp in env.faults &&
              r.result.error == NotFoundOrWrapped("failed to update user", env.faults[UpdateOp])
    ensures r.result.Ok? && UpdateOp !in r.repoCalls ==> r.store == st
    ensures r.result.Ok? && UpdateOp in r.repoCalls ==>
              var u := r.result.value;
              var k := PositionOfId(st.users, u.id);
              && k < |st.users|
              && u.password == st.users[k].password
              && r.store.users == st.users[k := u]
    ensures UniqueIds(st) ==> UniqueIds(r.store)
  {
    match FromHex(idStr)
    case None => Run(st, sinks, [], [], Err(InvalidUserId))
    case Some(objId) =>
      match GetById(st, env.faults, objId)
      case Err(e) => Run(st, sinks, [FindByIdOp], [], Err(NotFoundOrWrapped("error finding user for update", e)))
      case Ok(existing) => UpdateFound(st, sinks, env, objId, existing, name, email)
  }

  /** `UpdateUser` once the stored user is found: builds the update map,
      checking a changed email against the other users first. */
  function UpdateFound(st: Store, sinks: Sinks, env: Env, objId: ObjectId, existing: User,
                       name: string, email: string): (r: Run<User>)
    requires GetById(st, env.faults, objId) == Ok(existing)
    ensures r.sinks == sinks && r.publishCalls == []
    ensures r.result.Err? ==> r.store == st
    ensures r.result.Ok? ==> r.result.value.id == objId
    ensures EmailChanges(existing, email) && FindByEmailOp in env.faults &&
            env.faults[FindByEmailOp] != ErrUserNotFound ==>
              && r.repoCalls == [FindByIdOp, FindByEmailOp]
              && r.result == Err(Wrapped("error checking new email", env.faults[FindByEmailOp]))
    ensures r.result.Err? && UpdateOp in r.repoCalls ==>
              UpdateOp in env.faults &&
              r.result.error == NotFoundOrWrapped("failed to update user", env.faults[UpdateOp])
    ensures r.result.Ok? && UpdateOp !in r.repoCalls ==> r.store == st
    ensures r.result.Ok? && UpdateOp in r.repoCalls ==>
              var u := r.result.value;
              var k := PositionOfId(st.users, objId);
              && k < |st.users|
              && u.password == st.users[k].password
              && r.store.users == st.users[k := u]
    ensures r.result.Ok? ==>
              var u := r.result.value;
              && (name != "" && name != existing.name ==> u.name == name)
              && (!(name != "" && name != existing.name) ==> u.name == existing.name)
              && (EmailChanges(existing, email) ==> u.email == email)
              && (!EmailChanges(existing, email) ==> u.email == existing.email)
    ensures UniqueIds(st) ==> UniqueIds(r.store)
  {
    var m0 := NameEntry(existing, name);
    if EmailChanges(existing, email) then
      var byEmail := GetByEmail(st, env.faults, email);
      if byEmail.Err? && byEmail.error != ErrUserNotFound then
        Run(st, sinks, [FindByIdOp, FindByEmailOp], [], Err(Wrapped("error checking new email", byEmail.error)))
      else if byEmail.Ok? && byEmail.value.id != objId then
        Run(st, sinks, [FindByIdOp, FindByEmailOp], [], Err(Repo(ErrUserAlreadyExists)))
      else
        var m := m0["email" := email];
        assert "name" in m <==> "name" in m0;
        assert "name" in m0 ==> m["name"] == m0["name"] == name;
        assert "email" in m && m["email"] == email;
        WriteUpdate(st, sinks, env, objId, existing, m, [FindByIdOp, FindByEmailOp])
    else
      WriteUpdate(st, sinks, env, objId, existing, m0, [FindByIdOp])
  }

  /** The tail of `UpdateUser`: an empty map returns the stored user without
      a repository write; otherwise the partial update is written. */
  function WriteUpdate(st: Store, sinks: Sinks, env: Env, objId: ObjectId, existing: User,
                       m: map<string, string>, calls: seq<RepoOp>): (r: Run<User>)
    requires GetById(st, env.faults, objId) == Ok(existing)
    ensures r.sinks == sinks && r.publishCalls == []
    ensures r.result.Err? ==> r.store == st
    ensures m == map[] ==> r == Run(st, sinks, calls, [], Ok(existing))
    ensures m != map[] ==> r.repoCalls == calls + [UpdateOp]
    ensures r.result.Ok? ==> r.result.value.id == objId
    ensures m != map[] && r.result.Ok? ==>
              var u := r.result.value;
              var k := PositionOfId(st.users, objId);
              && k < |st.users|
              && u.password == st.users[k].password
              && r.store.users == st.users[k := u]
              && ("name" in m ==> u.name == m["name"])
              && ("name" !in m ==> u.name == existing.name)
              && ("email" in m ==> u.email == m["email"])
              && ("email" !in m ==> u.email == existing.email)
    ensures m != map[] && UpdateOp in env.faults ==>
              r.result == Err(NotFoundOrWrapped("failed to update user", env.faults[UpdateOp]))
    ensures r.result.Err? ==> UpdateOp in env.faults
    ensures UniqueIds(st) ==> UniqueIds(r.store)
  {
    if m == map[] then Run(st, sinks, calls, [], Ok(existing))
    else
      var (st1, updated) := ApplyUpdate(st, env.faults, objId, m);
      match updated
      case Err(e) => Run(st1, sinks, calls + [UpdateOp], [], Err(NotFoundOrWrapped("failed to update user", e)))
      case Ok(u) => Run(st1, sinks, calls + [UpdateOp], [], Ok(u))
  }

  /** `UserUsecase.DeleteUser`: a malformed id fails before any repository
      call; not-found is passed on as the sentinel, other errors wrapped. */
  function DeleteUser(st: Store, sinks: Sinks, env: Env, idStr: string): (r: Run<()>)
    ensures r.sinks == sinks && r.publishCalls == []
    ensures FromHex(idStr).None? ==> r.result == Err(InvalidUserId) && r.repoCalls == [] && r.store == st
    ensures FromHex(idStr).Some? ==> r.repoCalls == [DeleteOp]
    ensures r.result.Ok? <==>
              FromHex(idStr).Some? && DeleteOp !in env.faults && HasId(st, FromHex(idStr).value)
    ensures FromHex(idStr).Some? && DeleteOp !in env.faults && !HasId(st, FromHex(idStr).value) ==>
              r.result == Err(Repo(ErrUserNotFound))
    ensures FromHex(idStr).Some? && DeleteOp in env.faults ==>
              r.result == Err(NotFoundOrWrapped("failed to delete user", env.faults[DeleteOp]))
    ensures r.result.Ok? ==>
              var id := FromHex(idStr).value;
              var k := PositionOfId(st.users, id);
              && k < |st.users| && st.users[k].id == id
              && r.store.users == st.users[..k] + st.users[k + 1..]
    ensures UniqueIds(st) ==> UniqueIds(r.store)
  {
    match FromHex(idStr)
    case None => Run(st, sinks, [], [], Err(InvalidUserId))
    case Some(objId) =>
      var (st1, deleted) := Remove(st, env.faults, objId);
      match deleted
      case Fail(e) => Run(st1, sinks, [DeleteOp], [], Err(NotFoundOrWrapped("failed to delete user", e)))
      case Pass => Run(st1, sinks, [DeleteOp], [], Ok(()))
  }

  /** With ids unique, a successful delete leaves no user with the parsed
      id and keeps every other user. */
  lemma {:induction false} DeleteUserRemovesOnlyThatUser(st: Store, sinks: Sinks, env: Env, idStr: string)
    requires UniqueIds(st)
    requires DeleteUser(st, sinks, env, idStr).result.Ok?
    ensures var r := DeleteUser(st, sinks, env, idStr);
            var id := FromHex(idStr).value;
            && !HasId(r.store, id)
            && (forall u :: u in st.users && u.id != id ==> u in r.store.users)
            && (forall u :: u in r.store.users ==> u in st.users)
  {
    var id := FromHex(idStr).value;
    CutKeepsOthers(st.users, PositionOfId(st.users, id), id);
  }

  // ---------------------------------------------------------------------
  // Properties of UpdateUser
  // ---------------------------------------------------------------------

  /** The update-map rule: each field is written exactly when its argument
      is non-empty and differs from the stored value; a written field takes
      the argument and an unwritten one keeps its stored value. With nothing to write, the stored user is returned
      and the repository is not asked to update. */
  lemma UpdateMapRule(st: Store, sinks: Sinks, env: Env, idStr: string, name: string, email: string)
    requires FromHex(idStr).Some?
    requires GetById(st, env.faults, FromHex(idStr).value).Ok?
    requires var existing := GetById(st, env.faults, FromHex(idStr).value).value;
             EmailChanges(existing, email) ==>
               GetByEmail(st, env.faults, email) == Err(ErrUserNotFound)
    ensures var existing := GetById(st, env.faults, FromHex(idStr).value).value;
            var r := UpdateUser(st, sinks, env, idStr, name, email);
            var writes := (name != "" && name != existing.name) || EmailChanges(existing, email);
            && (!writes ==> r.result == Ok(existing) && UpdateOp !in r.repoCalls)
            && (writes ==> UpdateOp in r.repoCalls)
            && (writes && r.result.Ok? ==>
                  && (name != "" && name != existing.name ==> r.result.value.name == name)
                  && (!(name != "" && name != existing.name) ==> r.result.value.name == existing.name)
                  && (EmailChanges(existing, email) ==> r.result.value.email == email)
                  && (!EmailChanges(existing, email) ==> r.result.value.email == existing.email))
  {
    var existing := GetById(st, env.faults, FromHex(idStr).value).value;
    var m0 := NameEntry(existing, name);
    assert "name" in m0 <==> name != "" && name != existing.name;
    if EmailChanges(existing, email) {
      assert "email" in m0["email" := email];
    }
  }

  /** An email already held by another user is refused with
      `ErrUserAlreadyExists` and nothing is written. */
  lemma UpdateRejectsTakenEmail(st: Store, sinks: Sinks, env: Env, idStr: string, name: string, email: string)
    requires FromHex(idStr).Some?
    requires GetById(st, env.faults, FromHex(idStr).value).Ok?
    requires EmailChanges(GetById(st, env.faults, FromHex(idStr).value).value, email)
    requires GetByEmail(st, env.faults, email).Ok?
    requires GetByEmail(st, env.faults, email).value.id != FromHex(idStr).value
    ensures UpdateUser(st, sinks, env, idStr, name, email).result == Err(Repo(ErrUserAlreadyExists))
    ensures UpdateOp !in UpdateUser(st, sinks, env, idStr, name, email).repoCalls
    ensures UpdateUser(st, sinks, env, idStr, name, email).store == st
  {
  }

  /** The queue client's verdict never changes what `CreateUser` returns. */
  lemma CreateUserIgnoresPublishOutcome(st: Store, sinks: Sinks, env: Env, v: Outcome<string>, data: User)
    requires SinksValid(sinks)
    ensures CreateUser(st, sinks, env, data).result == CreateUser(st, sinks, env.(verdict := v), data).result
    ensures CreateUser(st, sinks, env, data).store == CreateUser(st, sinks, env.(verdict := v), data).store
  {
  }
}
