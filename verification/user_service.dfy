/** `UserService`, the producer the user module wires in. After each
    successful repository write it publishes: created users go to both
    tiers (in-memory event first, welcome-email task second), updates and
    deletes to the in-memory tier only. A failed publish is only logged; a
    failed repository call publishes nothing. */
module UserServices {
  import opened Results
  import opened ObjectIds
  import opened EventTypes
  import opened InMemoryBus
  import opened Publishers
  import opened UserDomain

  function CreatedEvent(u: User): PublishCall
  {
    PublishCall(LowImportance, UserCreatedInMemoryEvent, UserCreatedPayload(u.id, u.name, u.email))
  }

  function UpdatedEvent(u: User): PublishCall
  {
    PublishCall(LowImportance, UserUpdatedInMemoryEvent, UserUpdatedPayload(u.id, u.name, u.email))
  }

  function DeletedEvent(id: ObjectId): PublishCall
  {
    PublishCall(LowImportance, UserDeletedInMemoryEvent, UserDeletedPayload(id))
  }

  /** Performs the calls in order, answering every high call with the same
      verdict; the outcomes are discarded, as the service only logs them. */
  function PublishIgnoringErrors(s: Sinks, cs: seq<PublishCall>, verdict: Outcome<string>): (r: Sinks)
    requires SinksValid(s)
    ensures SinksValid(r)
    decreases |cs|
  {
    if cs == [] then s else PublishIgnoringErrors(Perform(s, cs[0], verdict).0, cs[1..], verdict)
  }

  /** `UserService.CreateUser`. */
  function CreateUser(st: Store, sinks: Sinks, env: Env, name: string, email: string, password: string)
    : (r: Run<User>)
    requires SinksValid(sinks)
    ensures SinksValid(r.sinks)
    ensures r.result.Err? ==> r.publishCalls == [] && r.sinks == sinks && r.store == st
    ensures env.hash(password).None? ==> r.result == Err(HashFailed) && r.repoCalls == []
    ensures env.hash(password).Some? ==> r.repoCalls == [CreateOp]
    ensures r.result.Ok? <==>
              env.hash(password).Some? && CreateOp !in env.faults && !HasId(st, env.newId)
    ensures r.result.Ok? ==>
              var u := r.result.value;
              && u == User(env.newId, name, email, env.hash(password).value)
              && r.store.users == st.users + [u]
              && r.publishCalls == [CreatedEvent(u), WelcomeTask(u)]
    ensures env.hash(password).Some? && CreateOp in env.faults ==>
              r.result == Err(Wrapped("failed to save user to database", env.faults[CreateOp]))
    ensures env.hash(password).Some? && CreateOp !in env.faults && HasId(st, env.newId) ==>
              r.result == Err(Wrapped("failed to save user to database", ErrUserAlreadyExists))
    ensures UniqueIds(st) ==> UniqueIds(r.store)
  {
    match env.hash(password)
    case None => Run(st, sinks, [], [], Err(HashFailed))
    case Some(hashed) =>
      var (st1, created) := Insert(st, env.faults, User(env.newId, name, email, hashed));
      match created
      case Err(e) => Run(st1, sinks, [CreateOp], [], Err(Wrapped("failed to save user to database", e)))
      case Ok(u) =>
        var calls := [CreatedEvent(u), WelcomeTask(u)];
        Run(st1, PublishIgnoringErrors(sinks, calls, env.verdict), [CreateOp], calls, Ok(u))
  }

  /** `UserService.GetUserByID`: a malformed id fails before the repository
      is consulted; a repository error, the injected fault or not-found, is
      returned as is. */
  function GetUserById(st: Store, env: Env, idStr: string): (r: Result<User, AppError>)
    ensures FromHex(idStr).None? ==> r == Err(InvalidUserId)
    ensures FromHex(idStr).Some? && FindByIdOp in env.faults ==> r == Err(Repo(env.faults[FindByIdOp]))
    ensures FromHex(idStr).Some? && FindByIdOp !in env.faults && !HasId(st, FromHex(idStr).value) ==>
              r == Err(Repo(ErrUserNotFound))
    ensures r.Ok? ==> FromHex(idStr) == Some(r.value.id) && r.value in st.users
    ensures FromHex(idStr).Some? && FindByIdOp !in env.faults ==>
              (r.Ok? <==> HasId(st, FromHex(idStr).value))
  {
    match FromHex(idStr)
    case None => Err(InvalidUserId)
    case Some(id) =>
      match GetById(st, env.faults, id)
      case Err(e) => Err(Repo(e))
      case Ok(u) => Ok(u)
  }

  /** `UserService.UpdateUser`: name and email are overwritten with the
      arguments, empty or not, and the stored password is kept; the updated
      event follows a successful write. A lookup error is returned as is,
      a write error wrapped. */
  function UpdateUser(st: Store, sinks: Sinks, env: Env, idStr: string, name: string, email: string)
    : (r: Run<User>)
    requires SinksValid(sinks)
    ensures SinksValid(r.sinks)
    ensures FromHex(idStr).None? ==> r == Run(st, sinks, [], [], Err(InvalidUserId))
    ensures r.result.Err? ==> r.publishCalls == [] && r.sinks == sinks && r.store == st
    ensures FromHex(idStr).Some? && FindByIdOp in env.faults ==>
              r.result == Err(Repo(env.faults[FindByIdOp])) && r.repoCalls == [FindByIdOp]
    ensures FromHex(idStr).Some? && FindByIdOp !in env.faults && !HasId(st, FromHex(idStr).value) ==>
              r.result == Err(Repo(ErrUserNotFound)) && r.repoCalls == [FindByIdOp]
    ensures FromHex(idStr).Some? && FindByIdOp !in env.faults && HasId(st, FromHex(idStr).value) &&
            UpdateOp in env.faults ==>
              r.result == Err(Wrapped("failed to update user in database", env.faults[UpdateOp])) &&
              r.repoCalls == [FindByIdOp, UpdateOp]
    ensures r.result.Ok? <==>
              && FromHex(idStr).Some? && FindByIdOp !in env.faults && UpdateOp !in env.faults
              && HasId(st, FromHex(idStr).value)
    ensures r.result.Ok? ==>
              var u := r.result.value;
              var k := PositionOfId(st.users, u.id);
              && FromHex(idStr) == Some(u.id)
              && k < |st.users|
              && u == st.users[k].(name := name, email := email)
              && r.store.users == st.users[k := u]
              && r.repoCalls == [FindByIdOp, UpdateOp]
              && r.publishCalls == [UpdatedEvent(u)]
    ensures UniqueIds(st) ==> UniqueIds(r.store)
  {
    match FromHex(idStr)
    case None => Run(st, sinks, [], [], Err(InvalidUserId))
    case Some(id) =>
      match GetById(st, env.faults, id)
      case Err(e) => Run(st, sinks, [FindByIdOp], [], Err(Repo(e)))
      case Ok(existing) =>
        var (st1, updated) := Replace(st, env.faults, existing.(name := name, email := email));
        match updated
        case Err(e) =>
          Run(st1, sinks, [FindByIdOp, UpdateOp], [], Err(Wrapped("failed to update user in database", e)))
        case Ok(u) =>
          var calls := [UpdatedEvent(u)];
          Run(st1, PublishIgnoringErrors(sinks, calls, env.verdict), [FindByIdOp, UpdateOp], calls, Ok(u))
  }

  /** `UserService.DeleteUser`: the deleted event, carrying the parsed id,
      follows a successful delete only. */
  function DeleteUser(st: Store, sinks: Sinks, env: Env, idStr: string): (r: Run<()>)
    requires SinksValid(sinks)
    ensures SinksValid(r.sinks)
    ensures FromHex(idStr).None? ==> r == Run(st, sinks, [], [], Err(InvalidUserId))
    ensures r.result.Err? ==> r.publishCalls == [] && r.sinks == sinks && r.store == st
    ensures r.result.Ok? <==>
              FromHex(idStr).Some? && DeleteOp !in env.faults && HasId(st, FromHex(idStr).value)
    ensures FromHex(idStr).Some? && DeleteOp in env.faults ==>
              r.result == Err(Wrapped("failed to delete user from database", env.faults[DeleteOp]))
    ensures FromHex(idStr).Some? && DeleteOp !in env.faults && !HasId(st, FromHex(idStr).value) ==>
              r.result == Err(Wrapped("failed to delete user from database", ErrUserNotFound))
    ensures r.result.Ok? ==>
              var id := FromHex(idStr).value;
              var k := PositionOfId(st.users, id);
              && r.repoCalls == [DeleteOp]
              && r.publishCalls == [DeletedEvent(id)]
              && k < |st.users| && st.users[k].id == id
              && r.store.users == st.users[..k] + st.users[k + 1..]
    ensures UniqueIds(st) ==> UniqueIds(r.store)
  {
    match FromHex(idStr)
    case None => Run(st, sinks, [], [], Err(InvalidUserId))
    case Some(id) =>
      var (st1, deleted) := Remove(st, env.faults, id);
      match deleted
      case Fail(e) => Run(st1, sinks, [DeleteOp], [], Err(Wrapped("failed to delete user from database", e)))
      case Pass =>
        var calls := [DeletedEvent(id)];
        Run(st1, PublishIgnoringErrors(sinks, calls, env.verdict), [DeleteOp], calls, Ok(()))
  }

  // ---------------------------------------------------------------------
  // Properties across calls
  // ---------------------------------------------------------------------

  /** The queue client's verdict never changes what `CreateUser` returns or
      stores, nor which calls it makes: publish failures are only logged. */
  lemma CreateUserIgnoresPublishOutcome(st: Store, sinks: Sinks, env: Env, v: Outcome<string>,
                                        name: string, email: string, password: string)
    requires SinksValid(sinks)
    ensures var r1 := CreateUser(st, sinks, env, name, email, password);
            var r2 := CreateUser(st, sinks, env.(verdict := v), name, email, password);
            r1.result == r2.result && r1.store == r2.store &&
            r1.publishCalls == r2.publishCalls && r1.repoCalls == r2.repoCalls
  {
  }

  /** Every in-memory publish the service makes carries its topic's own
      payload type, so the low publisher's check always accepts it. */
  lemma ServiceEventsWellTyped(u: User, id: ObjectId)
    ensures WellTyped(CreatedEvent(u)) && WellTyped(WelcomeTask(u))
    ensures WellTyped(UpdatedEvent(u)) && WellTyped(DeletedEvent(id))
    ensures MatchesCatalog(CreatedEvent(u).destination, CreatedEvent(u).payload)
    ensures MatchesCatalog(UpdatedEvent(u).destination, UpdatedEvent(u).payload)
    ensures MatchesCatalog(DeletedEvent(id).destination, DeletedEvent(id).payload)
  {
  }

  /** With ids unique, a successful delete leaves no user with the parsed
      id and keeps every other user. */
  lemma {:induction false} DeleteUserRemovesOnlyThatUser(st: Store, sinks: Sinks, env: Env, idStr: string)
    requires SinksValid(sinks)
    requires UniqueIds(st)
    requires DeleteUser(st, sinks, env, idStr).result.Ok?
    ensures var r := DeleteUser(st, sinks, env, idStr);
            var id := FromHex(idStr).value;
            && !HasId(r.store, id)
            && (forall u :: u in st.users && u.id != id ==> u in r.store.users)
            && (forall u :: u in r.store.users ==> u in st.users)
  {
    var id := FromHex(idStr).value;
    CutKeepsOthers(st.users, PositionOfId(st.users, id), id);
  }

  lemma PublishTwo(s: Sinks, c1: PublishCall, c2: PublishCall, verdict: Outcome<string>)
    requires SinksValid(s)
    ensures PublishIgnoringErrors(s, [c1, c2], verdict) ==
              Perform(Perform(s, c1, verdict).0, c2, verdict).0
  {
    var s1 := Perform(s, c1, verdict).0;
    assert [c1, c2][1..] == [c2];
    assert PublishIgnoringErrors(s1, [c2], verdict) == PublishIgnoringErrors(Perform(s1, c2, verdict).0, [], verdict);
  }

  /** A successful `CreateUser` delivers the created event to every created
      listener inbox with room, and adds exactly the welcome-email request
      to the queue log, carrying the id's hexadecimal text. */
  lemma {:induction false} CreateUserEffects(st: Store, sinks: Sinks, env: Env,
                                             name: string, email: string, password: string)
    requires SinksValid(sinks)
    requires CreateUser(st, sinks, env, name, email, password).result.Ok?
    ensures var r := CreateUser(st, sinks, env, name, email, password);
            var u := r.result.value;
            && r.sinks.bus == Publish(sinks.bus, UserCreatedInMemoryEvent, UserCreatedPayload(u.id, u.name, u.email))
            && r.sinks.requests ==
                 sinks.requests + [EnqueueRequest(SendWelcomeEmailTaskName, SendWelcomeEmailPayload(Hex(u.id), email, name))]
            && FromHex(r.sinks.requests[|r.sinks.requests| - 1].payload.userIdHex) == Some(u.id)
  {
    var r := CreateUser(st, sinks, env, name, email, password);
    var u := r.result.value;
    var s1 := Perform(sinks, CreatedEvent(u), env.verdict).0;
    ServiceEventsWellTyped(u, u.id);
    assert s1.bus == Publish(sinks.bus, UserCreatedInMemoryEvent, UserCreatedPayload(u.id, u.name, u.email));
    var s2 := Perform(s1, WelcomeTask(u), env.verdict).0;
    PublishTwo(sinks, CreatedEvent(u), WelcomeTask(u), env.verdict);
    assert r.sinks == s2;
    HexRoundTrip(u.id);
  }
}
