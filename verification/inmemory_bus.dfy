/** The process-wide in-memory bus: each topic maps to an ordered list of
    bounded inboxes, publishing offers the payload to each of them without
    blocking, and an inbox that is full drops that one event. Channels are
    compared by identity, so inboxes are named by ids handed out from a
    counter; every operation is one atomic transition (the lock). */
module InMemoryBus {
  import opened Results
  import opened EventTypes

  /** The buffer size of every subscriber channel. */
  const InboxCapacity: nat := 10

  type InboxId = nat

  /** A subscriber channel: its buffered payloads and whether it is closed. */
  datatype Inbox = Inbox(items: seq<Payload>, closed: bool)

  datatype Bus = Bus(
    subscribers: map<Topic, seq<InboxId>>,
    inboxes: map<InboxId, Inbox>,
    nextId: InboxId)

  const EmptyBus: Bus := Bus(map[], map[], 0)

  /** The inboxes registered under a topic; a missing key reads as empty. */
  function SubscribersOf(b: Bus, t: Topic): seq<InboxId>
  {
    if t in b.subscribers then b.subscribers[t] else []
  }

  predicate NoDuplicates(s: seq<InboxId>)
  {
    forall i, j :: 0 <= i < j < |s| ==> s[i] != s[j]
  }

  /** The invariant every reachable bus keeps: registered inboxes exist and
      are open, each is registered once under one topic, ids come from the
      counter, and no inbox holds more than its capacity. */
  ghost predicate Valid(b: Bus)
  {
    && (forall t, id :: t in b.subscribers && id in b.subscribers[t] ==>
          id in b.inboxes && !b.inboxes[id].closed)
    && (forall t :: t in b.subscribers ==> NoDuplicates(b.subscribers[t]))
    && (forall t1, t2, id ::
          (t1 in b.subscribers && t2 in b.subscribers &&
           id in b.subscribers[t1] && id in b.subscribers[t2]) ==> t1 == t2)
    && (forall id :: id in b.inboxes ==>
          id < b.nextId && |b.inboxes[id].items| <= InboxCapacity)
  }

  lemma EmptyBusValid()
    ensures Valid(EmptyBus)
  {
  }

  /** `NewInMemoryBus`: the first call creates the bus, later calls return
      the existing one untouched. `global` is the package variable. */
  function NewInMemoryBus(global: Option<Bus>): (r: (Option<Bus>, Bus))
    ensures r.0 == Some(r.1)
    ensures global.Some? ==> r.1 == global.value
    ensures global.None? ==> r.1 == EmptyBus
  {
    match global
    case Some(b) => (global, b)
    case None => (Some(EmptyBus), EmptyBus)
  }

  /** Repeated construction yields one instance and never resets it. */
  lemma {:induction false} NewInMemoryBusIdempotent(global: Option<Bus>, n: nat)
    ensures RepeatNew(global, n + 1).1 == NewInMemoryBus(global).1
    ensures RepeatNew(global, n + 1).0 == NewInMemoryBus(global).0
  {
    if n > 0 {
      NewInMemoryBusIdempotent(global, n - 1);
    }
  }

  /** `n` calls of `NewInMemoryBus` in a row; the state and the last instance. */
  function RepeatNew(global: Option<Bus>, n: nat): (Option<Bus>, Bus)
    requires n > 0
  {
    if n == 1 then NewInMemoryBus(global)
    else NewInMemoryBus(RepeatNew(global, n - 1).0)
  }

  // ---------------------------------------------------------------------
  // SubscribeEvent
  // ---------------------------------------------------------------------

  /** `SubscribeEvent`: a fresh, empty, open inbox appended to the topic. */
  function Subscribe(b: Bus, t: Topic): (r: (Bus, InboxId))
    requires Valid(b)
    ensures Valid(r.0)
    ensures r.1 !in b.inboxes
    ensures r.0.inboxes == b.inboxes[r.1 := Inbox([], false)]
    ensures SubscribersOf(r.0, t) == SubscribersOf(b, t) + [r.1]
    ensures forall t' :: t' != t ==> SubscribersOf(r.0, t') == SubscribersOf(b, t')
  {
    FreshIdUnregistered(b);
    SubscribeKeepsValid(b, t);
    (Registered(b, t), b.nextId)
  }

  /** The bus after registering the counter's next id under `t`. */
  function Registered(b: Bus, t: Topic): Bus
  {
    Bus(b.subscribers[t := SubscribersOf(b, t) + [b.nextId]],
        b.inboxes[b.nextId := Inbox([], false)],
        b.nextId + 1)
  }

  lemma SubscribeKeepsValid(b: Bus, t: Topic)
    requires Valid(b)
    ensures Valid(Registered(b, t))
  {
    var b' := Registered(b, t);
    var id := b.nextId;
    FreshIdUnregistered(b);
    assert NoDuplicates(SubscribersOf(b, t) + [id]);
    forall t1, t2, x | t1 in b'.subscribers && t2 in b'.subscribers &&
                       x in b'.subscribers[t1] && x in b'.subscribers[t2]
      ensures t1 == t2
    {
      if x == id {
        assert x !in SubscribersOf(b, t1) && x !in SubscribersOf(b, t2);
      }
    }
  }

  lemma FreshIdUnregistered(b: Bus)
    requires Valid(b)
    ensures b.nextId !in b.inboxes
    ensures forall t :: b.nextId !in SubscribersOf(b, t)
  {
    assert forall t, i :: i in SubscribersOf(b, t) ==> i in b.inboxes;
  }

  // ---------------------------------------------------------------------
  // PublishEvent
  // ---------------------------------------------------------------------

  /** A non-blocking send: appended when there is room, dropped otherwise. */
  function Offer(ib: Inbox, p: Payload): (r: Inbox)
    ensures r.closed == ib.closed
    ensures ib.items <= r.items
    ensures |r.items| == |ib.items| + 1 <==> |ib.items| < InboxCapacity
    ensures |r.items| == |ib.items| || r.items[|ib.items|] == p
  {
    if |ib.items| < InboxCapacity then ib.(items := ib.items + [p]) else ib
  }

  /** Offers the payload to each listed inbox in turn. */
  function Deliver(inboxes: map<InboxId, Inbox>, ids: seq<InboxId>, p: Payload)
    : (r: map<InboxId, Inbox>)
    requires NoDuplicates(ids)
    ensures r.Keys == inboxes.Keys
    ensures forall id :: id in inboxes && id !in ids ==> r[id] == inboxes[id]
    ensures forall id :: id in inboxes && id in ids ==> r[id] == Offer(inboxes[id], p)
    decreases |ids|
  {
    if ids == [] then inboxes
    else
      var id := ids[0];
      assert forall k :: 0 <= k < |ids[1..]| ==> ids[1..][k] != id;
      var next := if id in inboxes then inboxes[id := Offer(inboxes[id], p)] else inboxes;
      Deliver(next, ids[1..], p)
  }

  /** `PublishEvent`: each inbox registered under the topic that has room
      receives the payload at its tail; full inboxes drop it; nothing else
      changes. Registered inboxes are open, so no send hits a closed one. */
  function Publish(b: Bus, t: Topic, p: Payload): (r: Bus)
    requires Valid(b)
    ensures Valid(r)
    ensures r.subscribers == b.subscribers && r.nextId == b.nextId
    ensures r.inboxes.Keys == b.inboxes.Keys
    ensures SubscribersOf(b, t) == [] ==> r == b
  {
    b.(inboxes := Deliver(b.inboxes, SubscribersOf(b, t), p))
  }

  /** What `PublishEvent` does to each inbox: a registered inbox with room
      gets the payload at its tail and stays open, a full one drops it, and
      an inbox of another topic is untouched. */
  lemma PublishOffers(b: Bus, t: Topic, p: Payload, id: InboxId)
    requires Valid(b) && id in b.inboxes
    ensures var r := Publish(b, t, p);
      && (id in SubscribersOf(b, t) && |b.inboxes[id].items| < InboxCapacity ==>
            r.inboxes[id] == Inbox(b.inboxes[id].items + [p], false))
      && (id in SubscribersOf(b, t) && |b.inboxes[id].items| >= InboxCapacity ==>
            r.inboxes[id] == b.inboxes[id])
      && (id !in SubscribersOf(b, t) ==> r.inboxes[id] == b.inboxes[id])
  {
    if id in SubscribersOf(b, t) {
      assert t in b.subscribers;
    }
  }

  // ---------------------------------------------------------------------
  // UnsubscribeEvent
  // ---------------------------------------------------------------------

  /** The position of the first occurrence of `x`, or `|s|` when absent. */
  function IndexOf(s: seq<InboxId>, x: InboxId): (r: nat)
    ensures r <= |s|
    ensures r < |s| ==> s[r] == x
    ensures x !in s[..r]
    ensures r == |s| <==> x !in s
  {
    if s == [] then 0
    else if s[0] == x then 0
    else
      var k := IndexOf(s[1..], x);
      assert s[..k + 1] == [s[0]] + s[1..][..k];
      k + 1
  }

  /** `UnsubscribeEvent`: the first occurrence of the inbox is removed from
      the topic's list, the rest keep their order, and the inbox is closed
      (its buffered items stay readable). An inbox not registered under the
      topic leaves the bus exactly as it was. */
  function Unsubscribe(b: Bus, t: Topic, id: InboxId): (r: Bus)
    requires Valid(b)
    ensures Valid(r)
    ensures id !in SubscribersOf(b, t) ==> r == b
  {
    var s := SubscribersOf(b, t);
    var i := IndexOf(s, id);
    if i == |s| then b
    else
      RemovedValid(b, t, i);
      Removed(b, t, i)
  }

  /** What `UnsubscribeEvent` does to a registered inbox: its first
      occurrence leaves the topic's list, the others keep their order, no
      occurrence remains, the inbox is closed with its buffer intact, and
      every other topic is untouched. */
  lemma UnsubscribeRemovesFirst(b: Bus, t: Topic, id: InboxId)
    requires Valid(b) && id in SubscribersOf(b, t)
    ensures var s, r := SubscribersOf(b, t), Unsubscribe(b, t, id);
      && (exists i :: 0 <= i < |s| && s[i] == id && id !in s[..i] &&
                      SubscribersOf(r, t) == s[..i] + s[i + 1..])
      && id !in SubscribersOf(r, t)
      && r.inboxes == b.inboxes[id := Inbox(b.inboxes[id].items, true)]
      && forall t' :: t' != t ==> SubscribersOf(r, t') == SubscribersOf(b, t')
  {
    var s := SubscribersOf(b, t);
    var i := IndexOf(s, id);
    RemovePreservesNoDuplicates(s, i);
    assert t in b.subscribers;
    var r := Unsubscribe(b, t, id);
    assert r == Removed(b, t, i);
    assert SubscribersOf(r, t) == s[..i] + s[i + 1..];
  }

  /** The bus with the `i`-th inbox of `t` taken off the list and closed. */
  function Removed(b: Bus, t: Topic, i: nat): Bus
    requires Valid(b) && i < |SubscribersOf(b, t)|
  {
    var s := SubscribersOf(b, t);
    assert s[i] in b.inboxes by { assert t in b.subscribers; }
    Bus(b.subscribers[t := s[..i] + s[i + 1..]],
        b.inboxes[s[i] := Inbox(b.inboxes[s[i]].items, true)],
        b.nextId)
  }

  lemma RemovedValid(b: Bus, t: Topic, i: nat)
    requires Valid(b) && i < |SubscribersOf(b, t)|
    ensures Valid(Removed(b, t, i))
  {
    var s := SubscribersOf(b, t);
    var id := s[i];
    var rest := s[..i] + s[i + 1..];
    var r := Removed(b, t, i);
    RemovePreservesNoDuplicates(s, i);
    assert t in b.subscribers;
    forall t', x | t' in r.subscribers && x in r.subscribers[t']
      ensures x in r.inboxes && !r.inboxes[x].closed
    {
      if t' == t {
        assert x in s && x != id;
      } else {
        assert x in b.subscribers[t'];
        assert x != id;
      }
    }
  }

  lemma RemovePreservesNoDuplicates(s: seq<InboxId>, i: nat)
    requires NoDuplicates(s) && i < |s|
    ensures NoDuplicates(s[..i] + s[i + 1..])
    ensures forall x :: x in s[..i] + s[i + 1..] <==> x in s && x != s[i]
  {
    var rest := s[..i] + s[i + 1..];
    forall x | x in s && x != s[i] ensures x in rest {
      var k :| 0 <= k < |s| && s[k] == x;
      if k < i { assert rest[k] == x; } else { assert rest[k - 1] == x; }
    }
  }

  /** A second unsubscribe of the same inbox is a no-op: it never closes twice. */
  lemma UnsubscribeTwiceIsNoOp(b: Bus, t: Topic, id: InboxId)
    requires Valid(b)
    ensures Unsubscribe(Unsubscribe(b, t, id), t, id) == Unsubscribe(b, t, id)
  {
  }

  // ---------------------------------------------------------------------
  // Receiving (the consumer end of a channel)
  // ---------------------------------------------------------------------

  /** A receive from an inbox: the oldest buffered item, Go's nil value from
      a closed and drained channel, or None when the receive would block. */
  function Receive(b: Bus, id: InboxId): (r: Option<(Bus, Payload)>)
    requires Valid(b) && id in b.inboxes
    ensures r.None? <==> b.inboxes[id].items == [] && !b.inboxes[id].closed
    ensures r.Some? ==> Valid(r.value.0)
    ensures r.Some? ==> r.value.0.subscribers == b.subscribers
    ensures r.Some? && b.inboxes[id].items != [] ==>
              r.value.1 == b.inboxes[id].items[0] &&
              r.value.0.inboxes == b.inboxes[id := b.inboxes[id].(items := b.inboxes[id].items[1..])]
    ensures r.Some? && b.inboxes[id].items == [] ==> r.value == (b, NilPayload)
  {
    var ib := b.inboxes[id];
    if ib.items != [] then
      Some((b.(inboxes := b.inboxes[id := ib.(items := ib.items[1..])]), ib.items[0]))
    else if ib.closed then Some((b, NilPayload))
    else None
  }

  // ---------------------------------------------------------------------
  // Properties over sequences of operations
  // ---------------------------------------------------------------------

  /** Successive publishes of `ps` to one topic. */
  function PublishAll(b: Bus, t: Topic, ps: seq<Payload>): (r: Bus)
    requires Valid(b)
    ensures Valid(r)
    ensures r.subscribers == b.subscribers && r.inboxes.Keys == b.inboxes.Keys
    decreases |ps|
  {
    if ps == [] then b else PublishAll(Publish(b, t, ps[0]), t, ps[1..])
  }

  function Min(a: int, b: int): int { if a < b then a else b }

  /** FIFO per subscriber: after publishing `ps` in order, each inbox of the
      topic holds its old items followed by the longest prefix of `ps` that
      fits; the events after it were dropped. Other inboxes are untouched. */
  lemma PublishAllFifo(b: Bus, t: Topic, ps: seq<Payload>, id: InboxId)
    requires Valid(b) && id in b.inboxes
    ensures id in SubscribersOf(b, t) ==>
              PublishAll(b, t, ps).inboxes[id].items ==
                b.inboxes[id].items + ps[..Min(|ps|, InboxCapacity - |b.inboxes[id].items|)]
    ensures id !in SubscribersOf(b, t) ==> PublishAll(b, t, ps).inboxes[id] == b.inboxes[id]
  {
    if id in SubscribersOf(b, t) {
      PublishAllAppends(b, t, ps, id);
    } else {
      PublishAllElsewhere(b, t, ps, id);
    }
  }

  lemma PublishAllAppends(b: Bus, t: Topic, ps: seq<Payload>, id: InboxId)
    requires Valid(b) && id in SubscribersOf(b, t)
    ensures id in b.inboxes
    ensures PublishAll(b, t, ps).inboxes[id].items ==
              b.inboxes[id].items + ps[..Min(|ps|, InboxCapacity - |b.inboxes[id].items|)]
  {
    assert t in b.subscribers;
    PublishAllOffers(b, t, ps, id);
    OfferAllFifo(b.inboxes[id], ps);
  }

  /** Offering the payloads one after another to a single inbox. */
  function OfferAll(ib: Inbox, ps: seq<Payload>): Inbox
    decreases |ps|
  {
    if ps == [] then ib else OfferAll(Offer(ib, ps[0]), ps[1..])
  }

  /** Successive offers keep the oldest items and append the longest prefix
      of the offered payloads that fits. */
  lemma {:induction false} OfferAllFifo(ib: Inbox, ps: seq<Payload>)
    requires |ib.items| <= InboxCapacity
    ensures OfferAll(ib, ps).items == ib.items + ps[..Min(|ps|, InboxCapacity - |ib.items|)]
    decreases |ps|
  {
    if ps == [] {
      assert ps[..0] == [];
    } else {
      var ib1 := Offer(ib, ps[0]);
      OfferAllFifo(ib1, ps[1..]);
      FifoStep(ib.items, ps, OfferAll(ib1, ps[1..]).items, InboxCapacity);
    }
  }

  /** The arithmetic of one FIFO step: offering the head of `ps` and then
      the rest amounts to offering the longest prefix of `ps` that fits. */
  lemma FifoStep(items: seq<Payload>, ps: seq<Payload>, tail: seq<Payload>, cap: nat)
    requires ps != [] && |items| <= cap
    requires var items1 := if |items| < cap then items + [ps[0]] else items;
             tail == items1 + ps[1..][..Min(|ps| - 1, cap - |items1|)]
    ensures tail == items + ps[..Min(|ps|, cap - |items|)]
  {
    if |items| < cap {
      PrefixStep(items, ps, cap);
    } else {
      assert ps[..0] == [] && ps[1..][..0] == [];
    }
  }

  /** Publishing `ps` to the topic offers each of them, in order, to every
      registered inbox. */
  lemma {:induction false} PublishAllOffers(b: Bus, t: Topic, ps: seq<Payload>, id: InboxId)
    requires Valid(b) && id in SubscribersOf(b, t) && id in b.inboxes
    ensures PublishAll(b, t, ps).inboxes[id] == OfferAll(b.inboxes[id], ps)
    decreases |ps|
  {
    if ps != [] {
      var b1 := Publish(b, t, ps[0]);
      PublishOffers(b, t, ps[0], id);
      assert b1.inboxes[id] == Offer(b.inboxes[id], ps[0]);
      assert SubscribersOf(b1, t) == SubscribersOf(b, t);
      PublishAllOffers(b1, t, ps[1..], id);
    }
  }

  lemma {:induction false} PublishAllElsewhere(b: Bus, t: Topic, ps: seq<Payload>, id: InboxId)
    requires Valid(b) && id in b.inboxes && id !in SubscribersOf(b, t)
    ensures PublishAll(b, t, ps).inboxes[id] == b.inboxes[id]
    decreases |ps|
  {
    if ps != [] {
      var b1 := Publish(b, t, ps[0]);
      assert PublishAll(b, t, ps) == PublishAll(b1, t, ps[1..]);
      assert SubscribersOf(b1, t) == SubscribersOf(b, t);
      PublishOffers(b, t, ps[0], id);
      PublishAllElsewhere(b1, t, ps[1..], id);
    }
  }

  lemma PrefixStep(items: seq<Payload>, ps: seq<Payload>, cap: nat)
    requires |items| < cap && ps != []
    ensures var k := Min(|ps| - 1, cap - |items| - 1);
            (items + [ps[0]]) + ps[1..][..k] == items + ps[..Min(|ps|, cap - |items|)]
  {
    var k := Min(|ps| - 1, cap - |items| - 1);
    assert ps[1..][..k] == ps[1..k + 1];
    assert [ps[0]] + ps[1..k + 1] == ps[..k + 1];
  }

  /** The operations that can be applied to the bus. */
  datatype BusOp =
    | SubscribeOp(topic: Topic)
    | PublishOp(topic: Topic, payload: Payload)
    | UnsubscribeOp(topic: Topic, inbox: InboxId)
    | ReceiveOp(inbox: InboxId)

  /** One atomic transition; a receive that would block, or from an inbox
      that never existed, changes nothing. */
  function Apply(b: Bus, op: BusOp): (r: Bus)
    requires Valid(b)
    ensures Valid(r)
  {
    match op
    case SubscribeOp(t) => Subscribe(b, t).0
    case PublishOp(t, p) => Publish(b, t, p)
    case UnsubscribeOp(t, id) => Unsubscribe(b, t, id)
    case ReceiveOp(id) =>
      if id in b.inboxes then
        match Receive(b, id)
        case Some((b', _)) => b'
        case None => b
      else b
  }

  function ApplyAll(b: Bus, ops: seq<BusOp>): (r: Bus)
    requires Valid(b)
    decreases |ops|
  {
    if ops == [] then b else ApplyAll(Apply(b, ops[0]), ops[1..])
  }

  /** Every bus reachable from the fresh one is valid: no inbox ever holds
      more than ten items, and every inbox a publish can reach is open. */
  lemma {:induction false} ReachableBusesValid(ops: seq<BusOp>)
    ensures Valid(ApplyAll(EmptyBus, ops))
    ensures forall t, id :: id in SubscribersOf(ApplyAll(EmptyBus, ops), t) ==>
              !ApplyAll(EmptyBus, ops).inboxes[id].closed
  {
    ApplyAllValid(EmptyBus, ops);
  }

  lemma {:induction false} ApplyAllValid(b: Bus, ops: seq<BusOp>)
    requires Valid(b)
    ensures Valid(ApplyAll(b, ops))
    decreases |ops|
  {
    if ops != [] {
      ApplyAllValid(Apply(b, ops[0]), ops[1..]);
    }
  }
}
