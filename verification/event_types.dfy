/** The event catalog: the closed set of in-memory topics and queue task
    names, and the payload records that travel on them. Go's `interface{}`
    payload becomes a tagged union with one constructor per payload struct
    and `Other` for any value of a type outside the catalog. */
module EventTypes {
  import opened Results
  import opened ObjectIds

  /** A topic of the in-memory bus; any string is a topic to the bus itself. */
  type Topic = string

  const UserCreatedInMemoryEvent: Topic := "user.created.inmemory"
  const UserUpdatedInMemoryEvent: Topic := "user.updated.inmemory"
  const UserDeletedInMemoryEvent: Topic := "user.deleted.inmemory"

  const SendWelcomeEmailTaskName: string := "user:send_welcome_email"
  const UserDeletedHighImportance: string := "user:deleted_high_importance"

  const InMemoryTopics: set<Topic> :=
    {UserCreatedInMemoryEvent, UserUpdatedInMemoryEvent, UserDeletedInMemoryEvent}

  const TaskNames: set<string> := {SendWelcomeEmailTaskName, UserDeletedHighImportance}

  /** A payload value. The in-memory payloads carry the id itself; the
      welcome-email task carries the id's hexadecimal text. `Other` stands
      for a value of any other dynamic type, named as `%T` would print it. */
  datatype Payload =
    | UserCreatedPayload(userId: ObjectId, name: string, email: string)
    | UserUpdatedPayload(userId: ObjectId, name: string, email: string)
    | UserDeletedPayload(userId: ObjectId)
    | SendWelcomeEmailPayload(userIdHex: string, email: string, name: string)
    | Other(typeName: string)

  /** The payload that a receive from a closed, drained channel yields. */
  const NilPayload: Payload := Other("<nil>")

  datatype PayloadKind = CreatedKind | UpdatedKind | DeletedKind | WelcomeEmailKind | OtherKind

  function KindOf(p: Payload): PayloadKind
  {
    match p
    case UserCreatedPayload(_, _, _) => CreatedKind
    case UserUpdatedPayload(_, _, _) => UpdatedKind
    case UserDeletedPayload(_) => DeletedKind
    case SendWelcomeEmailPayload(_, _, _) => WelcomeEmailKind
    case Other(_) => OtherKind
  }

  /** The dynamic type name of a payload, as `%T` prints it: the catalog's
      structs are named inside package `event`. */
  function TypeName(p: Payload): (r: string)
    ensures p.Other? ==> r == p.typeName
    ensures !p.Other? ==> |r| > 6 && r[..6] == "event."
  {
    match p
    case UserCreatedPayload(_, _, _) => "event.UserCreatedPayload"
    case UserUpdatedPayload(_, _, _) => "event.UserUpdatedPayload"
    case UserDeletedPayload(_) => "event.UserDeletedPayload"
    case SendWelcomeEmailPayload(_, _, _) => "event.SendWelcomeEmailPayload"
    case Other(n) => n
  }

  /** The payload type each in-memory topic carries; None off the catalog. */
  function ExpectedKind(topic: Topic): (r: Option<PayloadKind>)
    ensures r.Some? ==> r.value in {CreatedKind, UpdatedKind, DeletedKind}
  {
    if topic == UserCreatedInMemoryEvent then Some(CreatedKind)
    else if topic == UserUpdatedInMemoryEvent then Some(UpdatedKind)
    else if topic == UserDeletedInMemoryEvent then Some(DeletedKind)
    else None
  }

  /** The catalog lookup knows exactly the three in-memory topics. */
  lemma ExpectedKindDomain(topic: Topic)
    ensures ExpectedKind(topic).Some? <==> topic in InMemoryTopics
  {
  }

  /** A payload is acceptable on a topic when its type is the catalog's one. */
  predicate MatchesCatalog(topic: Topic, p: Payload)
  {
    ExpectedKind(topic) == Some(KindOf(p))
  }

  /** The three topic strings are pairwise distinct. */
  lemma TopicsDistinct()
    ensures |InMemoryTopics| == 3
  {
    assert UserCreatedInMemoryEvent[5] != UserUpdatedInMemoryEvent[5];
    assert UserCreatedInMemoryEvent[5] != UserDeletedInMemoryEvent[5];
    assert UserUpdatedInMemoryEvent[5] != UserDeletedInMemoryEvent[5];
  }

  /** The task names differ from each other and from every topic, so a
      destination names at most one tier. */
  lemma CatalogDisjoint()
    ensures |TaskNames| == 2
    ensures InMemoryTopics !! TaskNames
  {
    assert SendWelcomeEmailTaskName[5] != UserDeletedHighImportance[5];
    forall t | t in InMemoryTopics ensures t !in TaskNames {
      assert t[4] == '.';
    }
  }

  /** The four catalog structs print four different type names. */
  lemma TypeNamesDistinct(p: Payload, q: Payload)
    requires !p.Other? && !q.Other? && KindOf(p) != KindOf(q)
    ensures TypeName(p) != TypeName(q)
  {
    assert TypeName(p)[10] != TypeName(q)[10] || TypeName(p)[11] != TypeName(q)[11];
  }

  /** Each topic accepts exactly one payload type, and distinct topics accept
      distinct types, so a payload that fits one topic fits no other. */
  lemma OneTypePerTopic(t1: Topic, t2: Topic, p: Payload)
    requires MatchesCatalog(t1, p) && MatchesCatalog(t2, p)
    ensures t1 == t2
  {
  }

  /** No queue-task payload and no foreign value fits an in-memory topic. */
  lemma OnlyBusPayloadsMatch(topic: Topic, p: Payload)
    requires p.SendWelcomeEmailPayload? || p.Other?
    ensures !MatchesCatalog(topic, p)
  {
  }
}
