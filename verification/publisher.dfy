/** The two `Publisher` implementations. The low-importance one checks the
    (topic, payload) pair against the catalog before any fan-out and then
    publishes on the in-memory bus; the high-importance one hands the task
    to the external queue client once, unchanged, and reports its verdict. */
module Publishers {
  import opened Results
  import opened EventTypes
  import opened InMemoryBus

  datatype PublishError =
    | UnsupportedTopic(topic: string)
    | InvalidPayloadType(topic: string, typeName: string)
    | EnqueueFailed(taskType: string, cause: string)

  /** The error text the Go code formats; it ends with the offending topic,
      type name or cause. */
  function Message(e: PublishError): (m: string)
    ensures var tail := match e
              case UnsupportedTopic(t) => t
              case InvalidPayloadType(_, n) => n
              case EnqueueFailed(_, c) => c;
            |m| > |tail| && m[|m| - |tail|..] == tail
  {
    match e
    case UnsupportedTopic(t) => "unsupported in-memory event topic: " + t
    case InvalidPayloadType(t, n) => "invalid payload type for " + t + ": " + n
    case EnqueueFailed(t, c) => "failed to enqueue Asynq task " + t + ": " + c
  }

  /** `LowImportancePublisher.Publish`. An unknown topic and a payload of the
      wrong type are rejected with the bus untouched; a valid pair causes
      exactly one `PublishEvent` and succeeds however many inboxes dropped it. */
  function LowPublish(b: Bus, topic: string, p: Payload): (r: (Bus, Outcome<PublishError>))
    requires Valid(b)
    ensures Valid(r.0)
    ensures ExpectedKind(topic).None? ==> r == (b, Fail(UnsupportedTopic(topic)))
    ensures ExpectedKind(topic).Some? && !MatchesCatalog(topic, p) ==>
              r == (b, Fail(InvalidPayloadType(topic, TypeName(p))))
    ensures r.1.Pass? <==> MatchesCatalog(topic, p)
    ensures r.1.Pass? ==> r.0 == Publish(b, topic, p)
  {
    match ExpectedKind(topic)
    case None => (b, Fail(UnsupportedTopic(topic)))
    case Some(k) =>
      if KindOf(p) != k then (b, Fail(InvalidPayloadType(topic, TypeName(p))))
      else (Publish(b, topic, p), Pass)
  }

  /** A rejected publish delivers nothing: every inbox is as it was. */
  lemma RejectedPublishDeliversNothing(b: Bus, topic: string, p: Payload)
    requires Valid(b)
    requires !MatchesCatalog(topic, p)
    ensures LowPublish(b, topic, p).1.Fail?
    ensures forall id :: id in b.inboxes ==> LowPublish(b, topic, p).0.inboxes[id] == b.inboxes[id]
  {
  }

  /** A call to the queue client's `EnqueueTask`. */
  datatype EnqueueRequest = EnqueueRequest(taskType: string, payload: Payload)

  /** `HighImportancePublisher.Publish`. `verdict` is what the queue client
      answers (Pass, or Fail with its error text); the publisher makes exactly
      one request with the task type and payload unchanged, does not validate
      or retry, and wraps a failure. */
  function HighPublish(taskType: string, p: Payload, verdict: Outcome<string>)
    : (r: (seq<EnqueueRequest>, Outcome<PublishError>))
    ensures r.0 == [EnqueueRequest(taskType, p)]
    ensures r.1.Pass? <==> verdict.Pass?
    ensures verdict.Fail? ==> r.1 == Fail(EnqueueFailed(taskType, verdict.error))
  {
    var request := [EnqueueRequest(taskType, p)];
    match verdict
    case Pass => (request, Pass)
    case Fail(cause) => (request, Fail(EnqueueFailed(taskType, cause)))
  }

  /** The two implementations behind the `Publisher` interface. */
  datatype Publisher = LowImportance | HighImportance

  /** Everything a publish can affect: the bus and the requests made to the
      queue client so far. */
  datatype Sinks = Sinks(bus: Bus, requests: seq<EnqueueRequest>)

  ghost predicate SinksValid(s: Sinks)
  {
    Valid(s.bus)
  }

  /** One `Publish(ctx, destination, payload)` call through the interface. */
  datatype PublishCall = PublishCall(via: Publisher, destination: string, payload: Payload)

  /** Performs one interface call. The low publisher leaves the request log
      alone; the high publisher leaves the bus alone. */
  function Perform(s: Sinks, c: PublishCall, verdict: Outcome<string>)
    : (r: (Sinks, Outcome<PublishError>))
    requires SinksValid(s)
    ensures SinksValid(r.0)
    ensures c.via == LowImportance ==>
              && r.0.requests == s.requests
              && r.0.bus == LowPublish(s.bus, c.destination, c.payload).0
              && (r.1.Pass? <==> MatchesCatalog(c.destination, c.payload))
              && (r.1.Fail? ==> r.0 == s)
    ensures c.via == HighImportance ==>
              r.0 == Sinks(s.bus, s.requests + [EnqueueRequest(c.destination, c.payload)]) &&
              (r.1.Pass? <==> verdict.Pass?)
  {
    match c.via
    case LowImportance =>
      var (b', out) := LowPublish(s.bus, c.destination, c.payload);
      (Sinks(b', s.requests), out)
    case HighImportance =>
      var (reqs, out) := HighPublish(c.destination, c.payload, verdict);
      (Sinks(s.bus, s.requests + reqs), out)
  }

  /** A low-tier call the catalog accepts: the topic's own payload type. */
  predicate WellTyped(c: PublishCall)
  {
    c.via == LowImportance ==> MatchesCatalog(c.destination, c.payload)
  }

  /** Applies a sequence of interface calls in order; each high call is
      answered by the next verdict of the queue client. Returns the final
      sinks and the outcome of every call. */
  function PerformAll(s: Sinks, cs: seq<PublishCall>, verdicts: seq<Outcome<string>>)
    : (r: (Sinks, seq<Outcome<PublishError>>))
    requires SinksValid(s)
    requires |verdicts| == |cs|
    ensures SinksValid(r.0)
    ensures |r.1| == |cs|
    decreases |cs|
  {
    if cs == [] then (s, [])
    else
      var (s1, o) := Perform(s, cs[0], verdicts[0]);
      var (s2, os) := PerformAll(s1, cs[1..], verdicts[1..]);
      (s2, [o] + os)
  }

  /** Low-tier calls that are well typed never fail; only the queue
      client's verdict can make a call of a sequence fail. */
  lemma {:induction false} WellTypedLowCallsSucceed(s: Sinks, cs: seq<PublishCall>, verdicts: seq<Outcome<string>>)
    requires SinksValid(s) && |verdicts| == |cs|
    requires forall i :: 0 <= i < |cs| ==> WellTyped(cs[i])
    ensures forall i :: 0 <= i < |cs| && cs[i].via == LowImportance ==>
              PerformAll(s, cs, verdicts).1[i].Pass?
    ensures forall i :: 0 <= i < |cs| && cs[i].via == HighImportance ==>
              (PerformAll(s, cs, verdicts).1[i].Pass? <==> verdicts[i].Pass?)
    decreases |cs|
  {
    if cs != [] {
      var s1 := Perform(s, cs[0], verdicts[0]).0;
      PerformAllCons(s, cs, verdicts);
      WellTypedLowCallsSucceed(s1, cs[1..], verdicts[1..]);
      var os := PerformAll(s, cs, verdicts).1;
      var rest := PerformAll(s1, cs[1..], verdicts[1..]).1;
      forall i | 0 < i < |cs|
        ensures os[i] == rest[i - 1] && cs[i] == cs[1..][i - 1] && verdicts[i] == verdicts[1..][i - 1]
      {
      }
    }
  }

  /** One step of `PerformAll`: the first call, then the rest from the
      sinks it leaves. */
  lemma PerformAllCons(s: Sinks, cs: seq<PublishCall>, verdicts: seq<Outcome<string>>)
    requires SinksValid(s) && |verdicts| == |cs| && cs != []
    ensures var (s1, o) := Perform(s, cs[0], verdicts[0]);
            var rest := PerformAll(s1, cs[1..], verdicts[1..]);
            PerformAll(s, cs, verdicts) == (rest.0, [o] + rest.1)
  {
  }

  /** The request log records the high-tier calls exactly, in call order,
      whatever the verdicts were. */
  lemma {:induction false} RequestsMirrorHighCalls(s: Sinks, cs: seq<PublishCall>, verdicts: seq<Outcome<string>>)
    requires SinksValid(s) && |verdicts| == |cs|
    ensures PerformAll(s, cs, verdicts).0.requests == s.requests + HighRequests(cs)
    decreases |cs|
  {
    if cs != [] {
      var s1 := Perform(s, cs[0], verdicts[0]).0;
      PerformAllCons(s, cs, verdicts);
      RequestsMirrorHighCalls(s1, cs[1..], verdicts[1..]);
      RequestsStep(s, cs[0], verdicts[0]);
      HighRequestsCons(cs);
      var a, b, c := s.requests, HighRequests([cs[0]]), HighRequests(cs[1..]);
      assert (a + b) + c == a + (b + c);
    }
  }

  lemma HighRequestsCons(cs: seq<PublishCall>)
    requires cs != []
    ensures HighRequests(cs) == HighRequests([cs[0]]) + HighRequests(cs[1..])
  {
    assert [cs[0]][1..] == [];
  }

  lemma RequestsStep(s: Sinks, c: PublishCall, verdict: Outcome<string>)
    requires SinksValid(s)
    ensures Perform(s, c, verdict).0.requests == s.requests + HighRequests([c])
  {
    assert [c][1..] == [];
  }

  /** The enqueue requests a call sequence makes, by construction. */
  function HighRequests(cs: seq<PublishCall>): seq<EnqueueRequest>
  {
    if cs == [] then []
    else (if cs[0].via == HighImportance then [EnqueueRequest(cs[0].destination, cs[0].payload)] else [])
         + HighRequests(cs[1..])
  }
}
