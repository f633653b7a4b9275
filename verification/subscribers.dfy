/** The user feature's in-memory listeners. Each runs
    Starting -> Listening -> (Processing -> Listening)* -> Stopped:
    it subscribes once when it starts, then waits on its inbox and on the
    parent context. When both are ready Go's `select` picks either, so the
    model is a nondeterministic step relation: the scheduler chooses the
    action, and an action that is not enabled yields None. */
module Subscribers {
  import opened Results
  import opened EventTypes
  import opened InMemoryBus

  datatype Phase = Starting | Listening | Processing(payload: Payload) | Stopped

  /** One listener loop: its topic, the payload type it expects, its phase,
      the inbox it obtained when it started, and the payloads it handled or
      logged and skipped. */
  datatype Listener = Listener(
    topic: Topic,
    expected: PayloadKind,
    phase: Phase,
    inbox: Option<InboxId>,
    handled: seq<Payload>,
    skipped: seq<Payload>)

  /** The bus, the listeners and whether the parent context is cancelled. */
  datatype Sys = Sys(bus: Bus, listeners: seq<Listener>, cancelled: bool)

  /** The two ready cases of the listener's `select`. */
  datatype Choice = Item | Cancel

  datatype Action =
    | Begin(i: nat)                        // the goroutine subscribes
    | Select(i: nat, choice: Choice)       // one `select` case fires
    | Finish(i: nat)                       // the side effect completes
    | EnvPublish(topic: Topic, payload: Payload)  // some producer publishes
    | EnvCancel                            // the parent context is cancelled

  function NewListener(t: Topic): (l: Listener)
    requires ExpectedKind(t).Some?
    ensures Some(l.expected) == ExpectedKind(t)
  {
    Listener(t, ExpectedKind(t).value, Starting, None, [], [])
  }

  /** `StartAllSubscribers`: three listeners, one per in-memory topic, none
      of them subscribed yet. */
  function StartAllSubscribers(b: Bus): (s: Sys)
    requires Valid(b)
    ensures SysValid(s)
    ensures |s.listeners| == 3
    ensures forall t :: t in InMemoryTopics <==> exists i :: 0 <= i < 3 && s.listeners[i].topic == t
    ensures forall i, j :: 0 <= i < j < 3 ==> s.listeners[i].topic != s.listeners[j].topic
    ensures forall i :: 0 <= i < 3 ==> s.listeners[i].phase == Starting
    ensures forall i :: 0 <= i < 3 ==> Some(s.listeners[i].expected) == ExpectedKind(s.listeners[i].topic)
    ensures s.bus == b && !s.cancelled
  {
    TopicsDistinct();
    var s := Sys(b, [NewListener(UserCreatedInMemoryEvent),
                     NewListener(UserUpdatedInMemoryEvent),
                     NewListener(UserDeletedInMemoryEvent)], false);
    assert s.listeners[0].topic == UserCreatedInMemoryEvent;
    assert s.listeners[1].topic == UserUpdatedInMemoryEvent;
    assert s.listeners[2].topic == UserDeletedInMemoryEvent;
    s
  }

  /** The state invariant of a running feature. */
  ghost predicate ListenerValid(s: Sys, l: Listener)
  {
    && (l.phase == Starting <==> l.inbox.None?)
    && (l.inbox.Some? ==> l.inbox.value in SubscribersOf(s.bus, l.topic))
    && (l.phase.Processing? ==> KindOf(l.phase.payload) == l.expected)
    && (l.phase == Stopped ==> s.cancelled)
  }

  ghost predicate SysValid(s: Sys)
  {
    && Valid(s.bus)
    && forall i :: 0 <= i < |s.listeners| ==> ListenerValid(s, s.listeners[i])
  }

  lemma RegisteredInboxExists(s: Sys, l: Listener)
    requires Valid(s.bus) && ListenerValid(s, l) && l.inbox.Some?
    ensures l.inbox.value in s.bus.inboxes
  {
    assert l.topic in s.bus.subscribers;
  }

  /** One step of the system; None when the action is not enabled. */
  function Next(s: Sys, a: Action): (r: Option<Sys>)
    requires SysValid(s)
    ensures r.Some? ==> SysValid(r.value)
    ensures r.Some? ==> |r.value.listeners| == |s.listeners|
  {
    match a
    case EnvPublish(t, p) =>
      Some(PublishStep(s, t, p))
    case EnvCancel =>
      Some(s.(cancelled := true))
    case Begin(i) =>
      if i < |s.listeners| && s.listeners[i].phase == Starting then Some(BeginStep(s, i))
      else None
    case Finish(i) =>
      if i < |s.listeners| && s.listeners[i].phase.Processing? then
        var l := s.listeners[i];
        var l' := l.(phase := Listening, handled := l.handled + [l.phase.payload]);
        Some(s.(listeners := s.listeners[i := l']))
      else None
    case Select(i, Cancel) =>
      if i < |s.listeners| && s.listeners[i].phase == Listening && s.cancelled then
        Some(s.(listeners := s.listeners[i := s.listeners[i].(phase := Stopped)]))
      else None
    case Select(i, Item) =>
      if i < |s.listeners| && s.listeners[i].phase == Listening then
        var l := s.listeners[i];
        RegisteredInboxExists(s, l);
        match Receive(s.bus, l.inbox.value)
        case None => None
        case Some((b', p)) => Some(TakeStep(s, i, b', p))
      else None
  }

  /** A producer publishes: only the bus changes. */
  function PublishStep(s: Sys, t: Topic, p: Payload): (r: Sys)
    requires SysValid(s)
    ensures SysValid(r)
    ensures r.listeners == s.listeners && r.cancelled == s.cancelled
  {
    var s' := s.(bus := Publish(s.bus, t, p));
    assert forall i :: 0 <= i < |s.listeners| ==> ListenerValid(s', s.listeners[i]);
    s'
  }

  /** The goroutine of listener `i` starts and subscribes to its topic. */
  function BeginStep(s: Sys, i: nat): (r: Sys)
    requires SysValid(s) && i < |s.listeners| && s.listeners[i].phase == Starting
    ensures SysValid(r)
    ensures |r.listeners| == |s.listeners| && r.cancelled == s.cancelled
    ensures r.listeners == s.listeners[i := s.listeners[i].(phase := Listening, inbox := r.listeners[i].inbox)]
  {
    var l := s.listeners[i];
    var (b', id) := Subscribe(s.bus, l.topic);
    var l' := l.(phase := Listening, inbox := Some(id));
    var s' := Sys(b', s.listeners[i := l'], s.cancelled);
    assert forall j :: 0 <= j < |s.listeners| ==> ListenerValid(s', s'.listeners[j]) by {
      forall j | 0 <= j < |s.listeners| ensures ListenerValid(s', s'.listeners[j]) {
        if j != i {
          var lj := s.listeners[j];
          if lj.inbox.Some? {
            assert lj.inbox.value in SubscribersOf(s.bus, lj.topic);
            if lj.topic != l.topic {
              assert SubscribersOf(b', lj.topic) == SubscribersOf(s.bus, lj.topic);
            }
          }
        }
      }
    }
    s'
  }

  /** Listener `i` takes `p` from its inbox, leaving the bus `b'`: a
      payload of its type starts processing, any other is skipped. */
  function TakeStep(s: Sys, i: nat, b': Bus, p: Payload): (r: Sys)
    requires SysValid(s) && i < |s.listeners| && s.listeners[i].phase == Listening
    requires s.listeners[i].inbox.Some?
    requires Receive(s.bus, s.listeners[i].inbox.value) == Some((b', p))
    ensures SysValid(r)
    ensures |r.listeners| == |s.listeners| && r.cancelled == s.cancelled
    ensures var l := s.listeners[i];
      r.listeners == s.listeners[i := if KindOf(p) == l.expected then l.(phase := Processing(p))
                                      else l.(skipped := l.skipped + [p])]
  {
    var l := s.listeners[i];
    var l' := if KindOf(p) == l.expected then l.(phase := Processing(p))
              else l.(skipped := l.skipped + [p]);
    var s' := Sys(b', s.listeners[i := l'], s.cancelled);
    assert forall j :: 0 <= j < |s.listeners| ==> ListenerValid(s', s'.listeners[j]);
    s'
  }

  /** The step relation: some action takes `s` to `s'`. */
  ghost predicate Step(s: Sys, s': Sys)
    requires SysValid(s)
  {
    exists a :: Next(s, a) == Some(s')
  }

  /** Only a starting listener's `Begin` changes the registry, and it adds
      one inbox under that listener's own topic; it happens once, because no
      action returns a listener to Starting. */
  lemma SubscribeOnlyAtStart(s: Sys, a: Action, i: nat)
    requires SysValid(s) && Next(s, a).Some? && i < |s.listeners|
    ensures Next(s, a).value.listeners[i].phase == Starting ==> s.listeners[i].phase == Starting
    ensures !a.Begin? ==> Next(s, a).value.bus.subscribers == s.bus.subscribers
    ensures a.Begin? ==>
              && s.listeners[a.i].phase == Starting
              && Next(s, a).value.listeners[a.i].phase == Listening
              && var t := s.listeners[a.i].topic;
                 var id := Next(s, a).value.listeners[a.i].inbox.value;
                 && SubscribersOf(Next(s, a).value.bus, t) == SubscribersOf(s.bus, t) + [id]
                 && forall t' :: t' != t ==> SubscribersOf(Next(s, a).value.bus, t') == SubscribersOf(s.bus, t')
  {
  }

  /** A payload of the wrong type is logged and skipped: the listener keeps
      listening and its side effect does not run. */
  lemma MismatchSkipped(s: Sys, i: nat)
    requires SysValid(s) && i < |s.listeners|
    requires Next(s, Select(i, Item)).Some?
    requires var l := s.listeners[i];
             KindOf(s.bus.inboxes[l.inbox.value].items[0]) != l.expected
    requires s.bus.inboxes[s.listeners[i].inbox.value].items != []
    ensures var l := s.listeners[i];
            var l' := Next(s, Select(i, Item)).value.listeners[i];
            && l'.phase == Listening
            && l'.handled == l.handled
            && l'.skipped == l.skipped + [s.bus.inboxes[l.inbox.value].items[0]]
  {
    RegisteredInboxExists(s, s.listeners[i]);
  }

  /** While a matching payload is processed the listener receives nothing
      and does not observe cancellation; only `Finish` moves it on, leaving
      the bus alone and recording the payload as handled. */
  lemma ProcessingIsSynchronous(s: Sys, i: nat, c: Choice)
    requires SysValid(s) && i < |s.listeners| && s.listeners[i].phase.Processing?
    ensures Next(s, Select(i, c)).None?
    ensures Next(s, Finish(i)).Some?
    ensures Next(s, Finish(i)).value.bus == s.bus
    ensures Next(s, Finish(i)).value.listeners[i].phase == Listening
    ensures Next(s, Finish(i)).value.listeners[i].handled ==
              s.listeners[i].handled + [s.listeners[i].phase.payload]
  {
  }

  /** Cancellation stops a listening listener without draining its inbox:
      the bus, buffered items included, is unchanged. */
  lemma CancelStopsWithoutDraining(s: Sys, i: nat)
    requires SysValid(s) && i < |s.listeners|
    requires s.listeners[i].phase == Listening && s.cancelled
    ensures Next(s, Select(i, Cancel)).Some?
    ensures Next(s, Select(i, Cancel)).value.bus == s.bus
    ensures Next(s, Select(i, Cancel)).value.listeners[i].phase == Stopped
  {
  }

  /** When an item is buffered and the context is cancelled, both cases of
      the `select` are enabled: the listener may still take the item. */
  lemma SelectIsNondeterministic(s: Sys, i: nat)
    requires SysValid(s) && i < |s.listeners|
    requires s.listeners[i].phase == Listening && s.cancelled
    requires s.bus.inboxes[s.listeners[i].inbox.value].items != []
    ensures Next(s, Select(i, Item)).Some?
    ensures Next(s, Select(i, Cancel)).Some?
  {
    RegisteredInboxExists(s, s.listeners[i]);
  }

  /** Stopped is final: no action changes a stopped listener, so its side
      effect never runs again, and its inbox stays registered in the bus
      because it never unsubscribes. */
  lemma StoppedIsFinal(s: Sys, a: Action, i: nat)
    requires SysValid(s) && i < |s.listeners| && s.listeners[i].phase == Stopped
    requires Next(s, a).Some?
    ensures Next(s, a).value.listeners[i] == s.listeners[i]
    ensures s.listeners[i].inbox.value in SubscribersOf(Next(s, a).value.bus, s.listeners[i].topic)
  {
  }

  /** One step changes a listener's log at most by appending the payload
      it was processing, which has the listener's type; a stopped listener
      is left alone. */
  lemma StepKeepsLog(s: Sys, a: Action, i: nat)
    requires SysValid(s) && Next(s, a).Some? && i < |s.listeners|
    ensures var l, l' := s.listeners[i], Next(s, a).value.listeners[i];
      && l'.topic == l.topic && l'.expected == l.expected
      && l.handled <= l'.handled
      && (forall p :: p in l'.handled ==> p in l.handled || KindOf(p) == l.expected)
      && (l.phase == Stopped ==> l' == l)
  {
    var l := s.listeners[i];
    assert ListenerValid(s, l);
    match a
    case EnvPublish(t, p) =>
    case EnvCancel =>
    case Begin(j) =>
    case Finish(j) =>
    case Select(j, Cancel) =>
    case Select(j, Item) =>
      var lj := s.listeners[j];
      RegisteredInboxExists(s, lj);
      var (b', p) := Receive(s.bus, lj.inbox.value).value;
      assert Next(s, a).value == TakeStep(s, j, b', p);
  }

  /** Runs a schedule of actions, skipping those that are not enabled. */
  function Run(s: Sys, schedule: seq<Action>): (r: Sys)
    requires SysValid(s)
    ensures SysValid(r)
    ensures |r.listeners| == |s.listeners|
    decreases |schedule|
  {
    if schedule == [] then s
    else
      var s1 := match Next(s, schedule[0]) case Some(s') => s' case None => s;
      Run(s1, schedule[1..])
  }

  /** Along any schedule each listener's handled log only grows, every
      payload in it has the listener's expected type, and once a listener
      has stopped its log never changes again. */
  lemma {:induction false} HandledOnlyGrows(s: Sys, schedule: seq<Action>, i: nat)
    requires SysValid(s) && i < |s.listeners|
    requires forall p :: p in s.listeners[i].handled ==> KindOf(p) == s.listeners[i].expected
    ensures s.listeners[i].handled <= Run(s, schedule).listeners[i].handled
    ensures forall p :: p in Run(s, schedule).listeners[i].handled ==>
              KindOf(p) == s.listeners[i].expected
    ensures s.listeners[i].phase == Stopped ==> Run(s, schedule).listeners[i] == s.listeners[i]
    decreases |schedule|
  {
    if schedule != [] {
      var s1 := match Next(s, schedule[0]) case Some(s') => s' case None => s;
      if Next(s, schedule[0]).Some? {
        StepKeepsLog(s, schedule[0], i);
      }
      HandledOnlyGrows(s1, schedule[1..], i);
      assert Run(s, schedule) == Run(s1, schedule[1..]);
    }
  }
}
