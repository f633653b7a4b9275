# mingkwan-api event layer, in Dafny

A model of the event layer of the mingkwan-api user service, with proofs about it. It also covers the code that produces and consumes the events, and the validation-error formatter.

- **Event catalog.** There are three in-memory topics (`user.created.inmemory`, `user.updated.inmemory`, `user.deleted.inmemory`) and two queue task names. Each topic accepts exactly one payload type. Go's `interface{}` payload is the datatype `EventTypes.Payload`: one constructor per payload struct, plus `Other` for a value of any other dynamic type.
- **In-memory bus** (`InMemPubSub`). A topic maps to an ordered list of inbox ids. An inbox is a buffered channel of capacity 10: its items plus a closed flag. Channels are compared by identity, so each new channel gets a fresh id from a counter. Subscribe, publish and unsubscribe are atomic transitions. Subscribe and unsubscribe hold the write lock for the whole call. A publish holds only the read lock (internal/shared/event/inmemory_bus.go:33), so in Go two publishes can interleave; the model runs them one after the other (see "## Left out").
  - A publish is a non-blocking send to each registered inbox. A full inbox drops the event.
  - An unsubscribe removes the first occurrence of the inbox and closes it.
  - The invariant `InMemoryBus.Valid`: every registered inbox exists, is open, and appears once, under a single topic; no inbox holds more than 10 items.
- **Publishers.** The low-importance publisher checks the (topic, payload type) pair against the catalog before it fans out. The high-importance publisher forwards to the queue client's `EnqueueTask`. That client's answer is an input (`verdict`), and each call is recorded in a request log.
- **Subscriber loops.** Each of the three listeners is a small state machine: `Starting → Listening → (Processing → Listening)* → Stopped`. The system steps by a nondeterministic relation (`Subscribers.Next`). When an item and cancellation are both ready, either `select` case may fire.
- **Producers.** `UserService` (user_service.go) and `UserUsecase` (user_usecase.go) are functions of:
  - an abstract store, i.e. a sequence of users;
  - the sinks, i.e. the bus and the request log;
  - an `Env` holding the repository faults, the id the store assigns, the password hasher and the queue client's verdict.

  Each returns the new store and sinks, the repository and publish calls it made in order, and its result. So "nothing published on failure" and "no repository call" can be stated directly.
- **Validation-error formatting.** This part covers:
  - `toSnakeCase`: each regular-expression replacement becomes an explicit leftmost, non-overlapping scanner;
  - `getErrorMessage`: the tag switch, modelled as a `Tag` datatype;
  - `FormatValidationErrors`: the grouping loop, as a method with a loop invariant. It is checked against a reference definition, `Validator.MessagesFor`.

Object ids are 12 bytes. `Hex()` gives 24 lower-case hexadecimal digits. `ObjectIDFromHex` accepts exactly 24 hexadecimal digits of either case; it comes from the MongoDB driver and is modelled from that driver's documented behaviour.

Note on `toSnakeCase`:
- The doc comment at internal/shared/utils/validator.go:62 says `Categories[0].TrendsListNo` becomes `categories.0.trends_list_no`. The code does not compute that.
- Line 69 turns each `.` into `__DOT__`. The pass at line 72 splits `DOT`, and line 73 lower-cases everything. The restore at line 76 therefore never matches (`SnakeCase.MarkerNeverRestored`).
- So the key for `Categories[0].TrendsListNo` is `categories_d_ot_0_d_ot__trendslist_no`, and no key ever contains a dot (`SnakeCase.ToSnakeCase`).
- The model follows the code.

## Model

| member | source | states |
|---|---|---|
| EventTypes.ExpectedKind | internal/shared/event/publisher.go:40-55 | a topic accepts a payload type only if it is one of the three in-memory topics, and that type is one of the three user payload kinds |
| EventTypes.ExpectedKindDomain | internal/shared/event/event_types.go:14-18 | the catalog knows a payload type for a topic exactly when the topic is one of the three in-memory topics |
| EventTypes.TopicsDistinct | internal/shared/event/event_types.go:14-18 | the three topic strings are pairwise distinct |
| EventTypes.CatalogDisjoint | internal/shared/event/event_types.go:14-24 | the two task names differ from each other and from every topic, so a destination string names at most one tier |
| EventTypes.OneTypePerTopic | internal/shared/event/publisher.go:40-52 | a payload accepted on two topics forces the two topics to be equal |
| EventTypes.OnlyBusPayloadsMatch | internal/shared/event/publisher.go:40-56 | the welcome-email payload and any foreign value are accepted on no topic |
| EventTypes.TypeName | internal/shared/event/publisher.go:43-51 | the `%T` text of a foreign value is its own type name, and each catalog struct is named inside package `event` |
| EventTypes.TypeNamesDistinct | internal/shared/event/publisher.go:43-51 | the four catalog structs print four different type names, so the invalid-payload error names the offending type |
| InMemoryBus.EmptyBusValid | internal/shared/event/inmemory_bus.go:23-25 | the freshly made bus, with an empty registry, satisfies the bus invariant |
| InMemoryBus.NewInMemoryBus | internal/shared/event/inmemory_bus.go:21-29 | the first call creates an empty bus and stores it in the package variable; a later call returns the stored bus unchanged |
| InMemoryBus.NewInMemoryBusIdempotent | internal/shared/event/inmemory_bus.go:21-29 | any number of repeated calls returns the instance the first call made, and never resets its registry |
| InMemoryBus.Subscribe | internal/shared/event/inmemory_bus.go:50-58 | the returned inbox id is new; it is added empty and open at the end of the topic's list; other topics' lists are unchanged; the invariant is kept |
| InMemoryBus.SubscribeKeepsValid | internal/shared/event/inmemory_bus.go:54-55 | registering a new channel keeps every registered inbox present, open, unique and under one topic |
| InMemoryBus.FreshIdUnregistered | internal/shared/event/inmemory_bus.go:54 | the channel a subscribe makes exists in no topic's list and in no inbox before the call |
| InMemoryBus.Offer | internal/shared/event/inmemory_bus.go:41-45 | a non-blocking send never closes the channel or loses a buffered item; it adds one item exactly when the buffer has room, and that item is the payload, at the tail |
| InMemoryBus.Deliver | internal/shared/event/inmemory_bus.go:40-46 | every listed inbox receives one non-blocking send; every other inbox is untouched; no inbox is created |
| InMemoryBus.Publish | internal/shared/event/inmemory_bus.go:32-47 | the registry and the id counter are unchanged; no inbox is created; a topic with no subscribers leaves the bus exactly as it was; the invariant is kept |
| InMemoryBus.PublishOffers | internal/shared/event/inmemory_bus.go:40-46 | a registered inbox with fewer than 10 items gets the payload at its tail; a full one is unchanged (the event is dropped); an inbox of another topic is unchanged |
| InMemoryBus.IndexOf | internal/shared/event/inmemory_bus.go:68-69 | the scan stops at the first occurrence of the channel, and reaches the end exactly when the channel is absent |
| InMemoryBus.Unsubscribe | internal/shared/event/inmemory_bus.go:63-76 | an inbox not registered under the topic leaves the bus exactly as it was (nothing is closed); the invariant is kept |
| InMemoryBus.UnsubscribeRemovesFirst | internal/shared/event/inmemory_bus.go:67-74 | for a registered inbox: its first occurrence is cut out and the rest keep their order; it is no longer registered; it is closed with its buffered items kept; other topics are unchanged |
| InMemoryBus.RemovedValid | internal/shared/event/inmemory_bus.go:70-71 | cutting an inbox out of the list and then closing it keeps every registered inbox open, so a publish never sends on a closed channel |
| InMemoryBus.RemovePreservesNoDuplicates | internal/shared/event/inmemory_bus.go:70 | cutting one element out of a list without duplicates leaves a list without duplicates that holds every other element |
| InMemoryBus.UnsubscribeTwiceIsNoOp | internal/shared/event/inmemory_bus.go:68-76 | a second unsubscribe of the same inbox changes nothing, so a channel is never closed twice |
| InMemoryBus.Receive | internal/user/delivery/user_inmemory_subscribers.go:39-40 | a receive blocks exactly when the channel is empty and open; otherwise it yields the oldest item, or the nil value from a closed, drained channel; the invariant is kept |
| InMemoryBus.PublishAll | internal/shared/event/inmemory_bus.go:32-47 | successive publishes keep the invariant, the registry and the set of inboxes |
| InMemoryBus.PublishAllFifo | internal/shared/event/inmemory_bus.go:40-46 | after publishes of `ps` to a topic, each registered inbox holds its old items followed by the longest prefix of `ps` that fitted; inboxes of other topics are unchanged |
| InMemoryBus.PublishAllAppends | internal/shared/event/inmemory_bus.go:40-46 | a registered inbox keeps its old items in front and receives the published payloads in call order, up to its capacity |
| InMemoryBus.OfferAllFifo | internal/shared/event/inmemory_bus.go:42-45 | repeated non-blocking sends to one channel append the longest prefix of the sent values that fits in the buffer |
| InMemoryBus.PublishAllOffers | internal/shared/event/inmemory_bus.go:40-46 | publishing a sequence to a topic is, for each registered inbox, one non-blocking send per payload, in order |
| InMemoryBus.PublishAllElsewhere | internal/shared/event/inmemory_bus.go:40 | an inbox not registered under the topic is untouched by any number of publishes |
| InMemoryBus.Apply | internal/shared/event/inmemory_bus.go:14-16 | every atomic bus operation, and every receive, keeps the invariant |
| InMemoryBus.ReachableBusesValid | internal/shared/event/inmemory_bus.go:50-74 | every bus reachable from the fresh one keeps the invariant: no inbox ever holds more than 10 items, and every registered inbox is open |
| InMemoryBus.ApplyAllValid | internal/shared/event/inmemory_bus.go:50-74 | any sequence of bus operations keeps the invariant |
| Publishers.LowPublish | internal/shared/event/publisher.go:34-61 | an unknown topic fails with the unsupported-topic error and leaves the bus unchanged; a known topic with the wrong payload type fails with the invalid-payload error and leaves the bus unchanged; the call succeeds exactly when topic and type match, and then performs exactly one bus publish |
| Publishers.RejectedPublishDeliversNothing | internal/shared/event/publisher.go:40-56 | a rejected publish fails, and every inbox stays as it was |
| Publishers.HighPublish | internal/shared/event/publisher.go:83-91 | exactly one enqueue request is made, with the task type and payload unchanged; the call succeeds exactly when the queue client does, and otherwise returns the enqueue-failed error wrapping the client's error |
| Publishers.Perform | internal/shared/event/event_types.go:55-57 | a call through the `Publisher` interface: the low publisher touches only the bus, the high publisher only the request log |
| Publishers.PerformAll | internal/shared/event/event_types.go:55-57 | a sequence of interface calls gives one outcome per call and keeps the bus invariant |
| Publishers.WellTypedLowCallsSucceed | internal/shared/event/publisher.go:40-60 | when every call matches the catalog, each low-tier call succeeds, and each high-tier call succeeds exactly when its verdict does |
| Publishers.RequestsMirrorHighCalls | internal/shared/event/publisher.go:83-86 | the request log grows by exactly the high-tier calls, in call order, whatever the verdicts |
| Publishers.RequestsStep | internal/shared/event/publisher.go:86 | one interface call adds its own enqueue request to the log when it is high-tier, and nothing otherwise |
| Publishers.Message | internal/shared/event/publisher.go:43-87 | each error text ends with what went wrong: the unknown topic, the payload's type name, or the queue client's error |
| Subscribers.NewListener | internal/user/delivery/user_inmemory_subscribers.go:33-36 | a listener expects the payload type its topic carries in the catalog |
| Subscribers.StartAllSubscribers | internal/user/delivery/user_inmemory_subscribers.go:27-31 | exactly three listeners start, one for each in-memory topic, none yet subscribed; each expects its topic's payload type |
| Subscribers.RegisteredInboxExists | internal/user/delivery/user_inmemory_subscribers.go:35 | a listener's inbox is one of the bus's inboxes |
| Subscribers.Next | internal/user/delivery/user_inmemory_subscribers.go:38-55 | a step keeps the system invariant and the number of listeners |
| Subscribers.PublishStep | internal/shared/event/publisher.go:58 | a producer's publish changes only the bus |
| Subscribers.BeginStep | internal/user/delivery/user_inmemory_subscribers.go:35 | a starting listener subscribes and starts listening; every other listener is unchanged |
| Subscribers.TakeStep | internal/user/delivery/user_inmemory_subscribers.go:40-48 | a received payload of the expected type moves the listener to processing it; any other payload is logged as skipped and the listener keeps listening |
| Subscribers.SubscribeOnlyAtStart | internal/user/delivery/user_inmemory_subscribers.go:33-38 | only a starting listener's begin step changes the registry, and it adds one inbox under that listener's own topic; no listener ever returns to starting |
| Subscribers.MismatchSkipped | internal/user/delivery/user_inmemory_subscribers.go:41-45 | a buffered payload of the wrong type is taken out of the inbox and skipped, and the listener keeps listening |
| Subscribers.ProcessingIsSynchronous | internal/user/delivery/user_inmemory_subscribers.go:46-48 | while a payload is being processed the listener receives nothing; finishing records the payload and returns to listening without touching the bus |
| Subscribers.CancelStopsWithoutDraining | internal/user/delivery/user_inmemory_subscribers.go:49-54 | after cancellation a listening listener can stop, leaving the bus, and so its buffered items, untouched |
| Subscribers.SelectIsNondeterministic | internal/user/delivery/user_inmemory_subscribers.go:39-54 | when an item is buffered and the context is cancelled, both `select` cases are enabled |
| Subscribers.StoppedIsFinal | internal/user/delivery/user_inmemory_subscribers.go:49-53 | no step changes a stopped listener, and its inbox stays registered because a stopping listener never unsubscribes |
| Subscribers.StepKeepsLog | internal/user/delivery/user_inmemory_subscribers.go:38-55 | one step keeps a listener's topic and expected type, and only extends its processed log with payloads of the expected type |
| Subscribers.Run | internal/user/delivery/user_inmemory_subscribers.go:38-55 | any schedule keeps the system invariant and the number of listeners |
| Subscribers.HandledOnlyGrows | internal/user/delivery/user_inmemory_subscribers.go:38-55 | along any schedule a listener's processed log only grows, holds only payloads of its topic's type, and a stopped listener never changes |
| UserDomain.FirstMatch | internal/user/adapters/mongo_user_repository.go:72 | the position found is the first user the filter accepts, or the end when no user is accepted |
| UserDomain.GetById | internal/user/adapters/mongo_user_repository.go:70-80 | without a fault, the lookup succeeds exactly when a stored user has the id and returns that user, and otherwise returns the not-found error; an injected fault is returned as is |
| UserDomain.GetByEmail | internal/user/adapters/mongo_user_repository.go:82-92 | the same as `GetById`, for lookup by email |
| UserDomain.Insert | internal/user/adapters/mongo_user_repository.go:44-56 | an insert succeeds exactly without a fault and with an unused id, and then appends the user; an injected fault is returned as is; a taken id is the duplicate-key error, reported as `ErrUserAlreadyExists`; a failed insert leaves the store unchanged; ids stay unique |
| UserDomain.Replace | internal/user/domain/user_repository.go:13 | a replace succeeds exactly without a fault and when the id is stored; it then overwrites the first user with that id and keeps every other position; an injected fault is returned as is and a missing id is not-found, both leaving the store unchanged; ids stay unique |
| UserDomain.ApplyUpdate | internal/user/adapters/mongo_user_repository.go:108-123 | an update succeeds exactly without a fault and when the id is stored; it then rewrites only the first user with that id, setting each field the map names to the map's value and keeping the id, the password and every field the map does not name; a fault is returned as is and a missing id is not-found, both leaving the store unchanged; ids stay unique |
| UserDomain.Remove | internal/user/adapters/mongo_user_repository.go:125-134 | a delete succeeds exactly without a fault and when the id is stored; it then cuts out the first user with that id, keeping the others in order; a fault is returned as is and a missing id is not-found, both leaving the store unchanged; ids stay unique |
| UserDomain.RemoveDeletesOnlyThatUser | internal/user/adapters/mongo_user_repository.go:125-134 | with unique ids, a successful delete leaves no user with the id, keeps every other user, and adds nobody |
| UserDomain.CutKeepsOthers | internal/user/adapters/mongo_user_repository.go:126 | cutting out the only user with an id keeps exactly the users with other ids |
| UserServices.PublishIgnoringErrors | internal/user/usecase/user_service.go:62-76 | publishing with errors only logged keeps the bus invariant |
| UserServices.CreateUser | internal/user/usecase/user_service.go:39-80 | a failed hash fails before any repository call; otherwise exactly one create is made, and a create fault, or a taken id reported as already-exists, comes back wrapped as "failed to save user to database"; the call succeeds exactly when the hash and the create do; on success the new user holds the hashed password and is appended, and the created event and then the welcome task are published; on failure nothing is published or stored; ids stay unique |
| UserServices.GetUserById | internal/user/usecase/user_service.go:83-90 | malformed id text fails with the invalid-id error; otherwise the repository's error is returned as is: the injected fault, or not-found when no user has the id; a success is a stored user with that id |
| UserServices.UpdateUser | internal/user/usecase/user_service.go:99-130 | malformed id text fails with no repository call; a lookup error (fault or not-found) is returned as is after the lookup alone; an update fault comes back wrapped as "failed to update user in database"; the call succeeds exactly when the id is stored and neither call fails; on success the first user with the id is overwritten with exactly the given name and email, even empty ones, keeping its id and password, every other user is kept, and exactly one updated event follows; on failure nothing is published or stored; ids stay unique |
| UserServices.DeleteUser | internal/user/usecase/user_service.go:133-154 | malformed id text fails with no repository call; a delete fault, and a missing id, come back wrapped as "failed to delete user from database"; the call succeeds exactly when the id is stored and the delete does not fail; on success the first user with the parsed id is cut out, the others kept in order, and exactly one deleted event, carrying the parsed id, is published; on failure nothing is published; ids stay unique |
| UserServices.DeleteUserRemovesOnlyThatUser | internal/user/usecase/user_service.go:140-143 | with unique ids, a successful delete leaves no user with the parsed id and keeps every other user |
| UserServices.CreateUserIgnoresPublishOutcome | internal/user/usecase/user_service.go:62-79 | the queue client's verdict changes neither the result, nor the store, nor the calls made |
| UserServices.ServiceEventsWellTyped | internal/user/usecase/user_service.go:61-69 | every in-memory event the service publishes has its topic's own payload type, so the low publisher always accepts it |
| UserServices.CreateUserEffects | internal/user/usecase/user_service.go:59-79 | a successful create leaves the bus as one created-event publish would, and adds exactly the welcome-email request, whose hexadecimal id parses back to the user's id |
| UserUsecases.CreateUser | internal/user/usecase/user_usecase.go:36-73 | an existing email fails with already-exists after a single lookup; a lookup error other than not-found fails wrapped; a failed hash fails after that lookup alone; a create happens exactly when the email is free and the hash succeeds; the call succeeds exactly when, in addition, the create has no fault and the id is unused; a create error is the already-exists sentinel for already-exists (a taken id included) and is wrapped as "failed to save user to database" otherwise; on success the user holds the hashed password, only the welcome task is published, and the bus is untouched; on failure nothing is published or stored; ids stay unique |
| UserUsecases.UpdateUser | internal/user/usecase/user_usecase.go:111-168 | malformed id text fails with no repository call; a lookup fault comes back as the not-found sentinel when it is not-found and wrapped as "error finding user for update" otherwise, and a missing id is the sentinel, each after the lookup alone; an email-check fault other than not-found is wrapped as "error checking new email"; a failed write is the sentinel for not-found and wrapped as "failed to update user" otherwise; a success with a write rewrites the first user with the id and keeps its password and every other user, and one without a write leaves the store unchanged; nothing is ever published; a failure leaves the store unchanged; ids stay unique |
| UserUsecases.UpdateFound | internal/user/usecase/user_usecase.go:128-168 | with the stored user found: a failing email check other than not-found is wrapped as "error checking new email" after the two lookups; a failed write is reported as not-found or wrapped as "failed to update user"; a written success keeps the password and every other user; on success a field takes its argument when that is non-empty and differs from the stored value, and keeps the stored value otherwise |
| UserUsecases.WriteUpdate | internal/user/usecase/user_usecase.go:149-167 | an empty update map returns the stored user with no further call; otherwise exactly one update is made; a success takes each field the map names from the map, keeps every field it does not name, keeps the password, and rewrites only the first user with the id; an update fault is the not-found sentinel for not-found and is wrapped as "failed to update user" otherwise |
| UserUsecases.DeleteUser | internal/user/usecase/user_usecase.go:170-187 | malformed id text fails with no repository call; otherwise exactly one delete is made; the call succeeds exactly when the id is stored and the delete does not fail; a missing id, or a not-found fault, returns the not-found sentinel, and any other fault is wrapped as "failed to delete user"; on success the first user with the id is cut out and the others kept in order; nothing is published; ids stay unique |
| UserUsecases.DeleteUserRemovesOnlyThatUser | internal/user/usecase/user_usecase.go:177-186 | with unique ids, a successful delete leaves no user with the parsed id and keeps every other user |
| UserUsecases.UpdateMapRule | internal/user/usecase/user_usecase.go:128-152 | a field is written exactly when its argument is non-empty and differs from the stored value: a written field takes the argument and an unwritten one keeps its stored value; with nothing to write, the stored user is returned without an update call |
| UserUsecases.NameEntry | internal/user/usecase/user_usecase.go:128-133 | the map has a name entry exactly when the name is non-empty and differs from the stored one, and then holds that name; it never has an email entry |
| UserUsecases.UpdateRejectsTakenEmail | internal/user/usecase/user_usecase.go:134-144 | a new email held by another user fails with already-exists, with no update call and the store unchanged |
| UserUsecases.CreateUserIgnoresPublishOutcome | internal/user/usecase/user_usecase.go:64-72 | the queue client's verdict changes neither the result nor the store |
| ObjectIds.Hex | internal/user/usecase/user_service.go:68 | an id's text is 24 lower-case hexadecimal digits |
| ObjectIds.FromHex | internal/user/usecase/user_service.go:84-87 | text parses as an id exactly when it is 24 characters long and every character is a hexadecimal digit of either case |
| ObjectIds.DecodeEncode | internal/user/usecase/user_service.go:68 | decoding the hexadecimal text of any bytes gives those bytes back |
| ObjectIds.EncodeDecode | internal/user/usecase/user_service.go:84 | text that decodes is the lower-cased encoding of what it decodes to |
| ObjectIds.HexRoundTrip | internal/user/usecase/user_service.go:68 | every id parses back from its own text |
| ObjectIds.FromHexCanonical | internal/user/usecase/user_service.go:84 | text accepted as an id is that id's text up to letter case |
| Text.LowerString | internal/shared/utils/validator.go:73 | lower-casing keeps the length, maps each character on its own, and leaves no capital letter |
| SnakeCase.BracketMatch | internal/shared/utils/validator.go:59 | a match is `[`, a non-empty run of digits, then `]` |
| SnakeCase.BracketIndices | internal/shared/utils/validator.go:66 | the index rewrite never lengthens the text, and every character it yields is the input's or the dot it puts in front of the digits |
| SnakeCase.ReplaceAll | internal/shared/utils/validator.go:69-79 | every character of a `strings.ReplaceAll` result comes from the text or from the replacement |
| SnakeCase.FirstCap | internal/shared/utils/validator.go:71 | the first case-splitting pass never shortens the text, and every character it yields is the input's or an inserted underscore |
| SnakeCase.AllCap | internal/shared/utils/validator.go:72 | the second case-splitting pass never shortens the text, and every character it yields is the input's or an inserted underscore |
| SnakeCase.Trim | internal/shared/utils/validator.go:80 | the result is a slice of the input that neither starts nor ends with an underscore, and everything cut off on either side is underscores |
| SnakeCase.ToSnakeCase | internal/shared/utils/validator.go:63-83 | the result has no capital letter, no dot, and does not start or end with an underscore |
| SnakeCase.ToSnakeCaseKeepsContent | internal/shared/utils/validator.go:63-83 | for a name without dots and brackets, the key holds exactly the name's characters other than underscores, in order and lower-cased: the conversion only inserts, collapses and trims underscores |
| SnakeCase.LoweredHasNoDot | internal/shared/utils/validator.go:66-73 | once the dot marker is in place and everything is lower-cased, the text has no dot and no capital letter |
| SnakeCase.CleanupKeeps | internal/shared/utils/validator.go:79 | collapsing double underscores brings back neither dots nor capital letters |
| SnakeCase.TrimKeeps | internal/shared/utils/validator.go:80 | trimming underscores brings back neither dots nor capital letters |
| SnakeCase.DotsReplaced | internal/shared/utils/validator.go:69 | replacing every dot by the marker leaves no dot |
| SnakeCase.ReplaceAllRemoves | internal/shared/utils/validator.go:69 | replacing a character by text that lacks it removes it everywhere |
| SnakeCase.ReplaceAllKeeps | internal/shared/utils/validator.go:76-79 | a character class that holds of the text and of the replacement holds of the result |
| SnakeCase.FirstCapKeeps | internal/shared/utils/validator.go:71 | the first case-splitting pass adds only underscores, so it keeps any character class that admits the underscore |
| SnakeCase.AllCapKeeps | internal/shared/utils/validator.go:72 | the second case-splitting pass adds only underscores, so it keeps any character class that admits the underscore |
| SnakeCase.ReplaceAllAbsent | internal/shared/utils/validator.go:76 | a pattern containing a character the text lacks is never found, and the text is returned unchanged |
| SnakeCase.MarkerNeverRestored | internal/shared/utils/validator.go:73-76 | on text without capitals the marker-to-dot replacement changes nothing |
| SnakeCase.FirstCapOnlyInsertsUnderscores | internal/shared/utils/validator.go:71 | deleting all underscores from the first pass's output gives the input with its underscores deleted |
| SnakeCase.AllCapOnlyInsertsUnderscores | internal/shared/utils/validator.go:72 | deleting all underscores from the second pass's output gives the input with its underscores deleted |
| SnakeCase.EraseLower | internal/shared/utils/validator.go:73 | lower-casing neither makes nor removes an underscore, so it commutes with deleting underscores |
| SnakeCase.EraseReplaceUnderscores | internal/shared/utils/validator.go:79 | collapsing `__` into `_` changes nothing once underscores are deleted |
| SnakeCase.EraseTrim | internal/shared/utils/validator.go:80 | trimming changes nothing once underscores are deleted |
| SnakeCase.BracketIndexRewritten | internal/shared/utils/validator.go:66 | a bracketed run of digits becomes a dot followed by the same digits |
| SnakeCase.DigitRunOfDigits | internal/shared/utils/validator.go:59 | the digit run of digits followed by a non-digit is exactly those digits |
| SnakeCase.NoBracketUnchanged | internal/shared/utils/validator.go:66 | text without an opening bracket passes the index rewrite unchanged |
| Validator.Classify | internal/shared/utils/validator.go:92-137 | the tag the switch picks is spelled exactly as the input tag |
| Validator.ClassifyTagName | internal/shared/utils/validator.go:92-133 | every listed tag is reached by its own spelling: no case is shadowed by another |
| Validator.Requirement | internal/shared/utils/validator.go:92-133 | a tag has its own sentence exactly when it is one of the listed tags, and that sentence follows the field name after a space |
| Validator.GetErrorMessage | internal/shared/utils/validator.go:86-137 | a listed tag's message is the snake_case field name followed by its requirement sentence, which starts with a space; any other tag's message is "Validation failed for ", the snake_case field name, " on tag " and the tag |
| Validator.FallbackIffUnknownTag | internal/shared/utils/validator.go:134-136 | a message is never empty, and starts with a capital letter exactly when its tag is unlisted |
| Validator.MessageIgnoresNamespace | internal/shared/utils/validator.go:87-89 | the message names the field by its own name: its path in the structure does not change the message |
| Validator.KindOnlyAddsUnits | internal/shared/utils/validator.go:97-106 | for `min` and `max`, a string field's message is the other kinds' message followed by " characters long"; for every other tag the kind is irrelevant |
| Validator.OneOfListHead | internal/shared/utils/validator.go:110 | the choice list is no shorter than the parameter and does not start with a space |
| Validator.OneOfListRoundTrip | internal/shared/utils/validator.go:110 | turning ", " back into " " in the choice list gives the parameter back |
| Validator.OneOfMessageKeepsChoices | internal/shared/utils/validator.go:109-110 | the `oneof` message is the field name, " must be one of ", and a list from which the parameter can be read back |
| Validator.KeyShape | internal/shared/utils/validator.go:44 | no key contains a dot, and no key equals the key a non-validation error is filed under |
| Validator.Collect | internal/shared/utils/validator.go:41-51 | a key never receives more messages than there are failures |
| Validator.CollectSnoc | internal/shared/utils/validator.go:50 | a failure added at the end appends its message to its own key's list, and to no other |
| Validator.CollectNonEmpty | internal/shared/utils/validator.go:50 | a key has messages exactly when some failure is filed under it |
| Validator.MessagesForSnoc | internal/shared/utils/validator.go:41-51 | appending a failure appends exactly one message, under its key, and changes no other key's list |
| Validator.MessagesForNonEmpty | internal/shared/utils/validator.go:41-51 | a key's message list is non-empty exactly when some failure's namespace snake-cases to it |
| Validator.FileMessage | internal/shared/utils/validator.go:50 | one iteration files under the item's key and keeps every key already present |
| Validator.GroupedSnoc | internal/shared/utils/validator.go:41-51 | one loop iteration keeps the map equal to the reference grouping of the items seen so far |
| Validator.GroupedKeys | internal/shared/utils/validator.go:41-51 | the keys of a grouping are exactly the keys of the items |
| Validator.GroupBy | internal/shared/utils/validator.go:40-51 | for any keying and wording, the loop's map has a key exactly when some item is filed under it, and each key holds that key's messages in the order of the items |
| Validator.GroupMessages | internal/shared/utils/validator.go:40-51 | the loop's map has a key exactly when some failure is filed under it, and each key holds that key's messages, in the order the failures were reported |
| Validator.FormatValidationErrors | internal/shared/utils/validator.go:27-54 | no error gives no map; an error of another type gives the single key `_error_` holding its text; validation failures give the grouping of all their messages by snake_case namespace |

## Left out

- HTTP handlers, module wiring, `main`, configuration and logging are left out. Every log line (including `fmt.Println` at internal/shared/utils/validator.go:45) is a no-op.
- The MongoDB repository is an abstract store: a sequence of users, where a lookup finds the first match. Which call fails, and with which error, is an input. Timestamps are not modelled.
- UserDomain.Insert: does not model the adapter's own email-duplicate check before the insert. The use case already makes that check, and the service relies on the store. Only the id is a unique key in the model, so a duplicate-key error (code 11000) arises from a taken id alone.
- `UserUsecase.GetUserByID`, `GetUserByEmail` and `GetAllUsers`, and `UserService.GetAllUsers`, are not modelled: they publish nothing and only pass on, or wrap, a repository answer.
- bcrypt is a function input (`Env.hash`); a `None` answer is a hashing failure. The id the store assigns is an input too.
- The asynq client and the task handlers are not modelled. `EnqueueTask` is an oracle whose answer is the `verdict` input.
- `ObjectIDFromHex` and `ObjectID.Hex` come from the MongoDB driver, which is not part of this model. They are modelled from that library's documented behaviour.
- Concurrent publishes are serialised in the model. In Go they hold only the read lock, so two publishes to one topic may interleave their per-inbox sends: two inboxes may receive the same two events in different orders, or drop different ones. The FIFO lemmas (`InMemoryBus.PublishAllFifo` and the others) hold for publishes that do not overlap.
- Concurrency is not modelled directly: no goroutines, locks, timeouts or `time.Sleep`. Bus operations are atomic steps, and a listener's `select` is a nondeterministic choice. Real-time bounds are not modelled.
- `SetGlobalValidator` and `GetGlobalValidator` are not modelled: they are global state, and they panic on `nil`. The validation library's own rule checking is not modelled either. Its output, the list of field errors, is the input to `FormatValidationErrors`.
- Text.LowerString: lower-cases ASCII letters only, whereas Go's `strings.ToLower` also maps non-ASCII capitals.
- Validator.GroupMessages: shows that each failure adds exactly one message under exactly one key (`Validator.MessagesForSnoc`). It does not state the sum of the list lengths over all keys as one number.
- Error texts are modelled as error constructors with their arguments. `Publishers.Message` gives the publisher's formatted texts. The producers' wrapped errors keep the context text and the cause.
