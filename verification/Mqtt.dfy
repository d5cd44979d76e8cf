/**
 The MQTT publish and reconnect machine: an offline queue, a map of publishes in flight and
 the subscriptions to renew. Handlers run one at a time, so each is one atomic step.
 */
module Mqtt {
  import opened Bytes

  const AT_MOST_ONCE := 0
  const AT_LEAST_ONCE := 1
  const EXACTLY_ONCE := 2

  const ACCEPTED := 0

  datatype ConnectionState = Disconnected | Connecting | Connected

  /** callback stands for the closure that reports the result to the caller. */
  datatype Item = Item(topic: string, message: string, qos: nat, retain: bool, callback: nat)

  type Topic = (string, nat)

  /** A call of the client's acquired_async_publish. */
  datatype Handed = Handed(item: Item, id: nat)

  /** A call of an item's callback. */
  datatype Completed = Completed(item: Item, success: bool)

  /** The wrapper's own fields come first; then what it did to the client and to its callers:
      acquired packet ids, publishes and subscribes handed over, publishes whose callback the
      client holds, callbacks run, timers started, connects. The last three are histories:
      everything given to SafePublish, the items whose packet id was taken over by a later
      item, and how many subscribe calls came before the last accepted connection. */
  datatype Wrapper = Wrapper(
    state: ConnectionState,
    queue: seq<Item>,
    inProgress: map<nat, Item>,
    subscriptions: set<Topic>,
    acquired: nat,
    handed: seq<Handed>,
    subscribed: seq<set<Topic>>,
    direct: seq<Item>,
    completed: seq<Completed>,
    timers: nat,
    connects: nat,
    submitted: seq<Item>,
    overwritten: seq<Item>,
    mark: nat
  )

  const INITIAL := Wrapper(Disconnected, [], map[], {}, 0, [], [], [], [], 0, 1, [], [], 0)

  datatype Event =
    | Publish(item: Item)
    | Subscribe(topics: set<Topic>)
    | ConnAck(code: nat)
    | Error
    | Finish
    | ReconnectTimer(cancelled: bool, failed: bool)
    | DirectCallback(index: nat, failed: bool)
    | AsyncPublishCallback(id: nat, failed: bool)
    | PublishAcknowledged(id: nat)
    | PublishCompleted(id: nat)

  /** ids is the client's choice of packet ids, in the order in which it hands them out. */
  type Ids = nat -> nat

  function Published(ids: Ids, s: Wrapper, item: Item): Wrapper {
    if s.state != Connected then s.(queue := s.queue + [item])
    else if item.qos == AT_MOST_ONCE then
      s.(handed := s.handed + [Handed(item, 0)], direct := s.direct + [item])
    else
      var id := ids(s.acquired);
      s.(acquired := s.acquired + 1,
         inProgress := s.inProgress[id := item],
         handed := s.handed + [Handed(item, id)],
         overwritten := s.overwritten + (if id in s.inProgress then [s.inProgress[id]] else []))
  }

  function PublishAll(ids: Ids, s: Wrapper, items: seq<Item>): Wrapper
    decreases |items|
  {
    if items == [] then s else PublishAll(ids, Published(ids, s, items[0]), items[1..])
  }

  /** The connection is up, with every subscription renewed and the queue taken away. */
  function Opened(s: Wrapper): Wrapper {
    s.(state := Connected, queue := [], mark := |s.subscribed|,
       subscribed := s.subscribed + (if s.subscriptions != {} then [s.subscriptions] else []))
  }

  /** Acknowledgements of the other kind, and for unknown packet ids, are ignored. */
  function Acknowledge(s: Wrapper, id: nat, qos: nat): Wrapper {
    if id !in s.inProgress || s.inProgress[id].qos != qos then s
    else s.(inProgress := s.inProgress - {id}, completed := s.completed + [Completed(s.inProgress[id], true)])
  }

  function Step(ids: Ids, s: Wrapper, e: Event): Wrapper {
    match e
    case Publish(item) => Published(ids, s, item).(submitted := s.submitted + [item])
    case Subscribe(topics) =>
      var next := s.(subscriptions := s.subscriptions + topics);
      if s.state == Connected then next.(subscribed := s.subscribed + [topics]) else next
    case ConnAck(code) =>
      if code != ACCEPTED then s
      else PublishAll(ids, Opened(s), s.queue)
    case Error => s.(state := Disconnected, timers := s.timers + 1)
    case Finish => s.(state := Disconnected, timers := s.timers + 1)
    case ReconnectTimer(cancelled, failed) =>
      if cancelled || failed || s.state != Disconnected then s else s.(connects := s.connects + 1)
    case DirectCallback(index, failed) =>
      if index >= |s.direct| then s
      else s.(direct := s.direct[..index] + s.direct[index + 1..],
              completed := s.completed + [Completed(s.direct[index], !failed)])
    case AsyncPublishCallback(id, failed) =>
      if !failed || id !in s.inProgress then s
      else s.(inProgress := s.inProgress - {id}, completed := s.completed + [Completed(s.inProgress[id], false)])
    case PublishAcknowledged(id) => Acknowledge(s, id, AT_LEAST_ONCE)
    case PublishCompleted(id) => Acknowledge(s, id, EXACTLY_ONCE)
  }

  /** The state after all of events, the last one last. */
  function Run(ids: Ids, events: seq<Event>): Wrapper {
    if events == [] then INITIAL else Step(ids, Run(ids, events[..|events| - 1]), events[|events| - 1])
  }

  // ----- Order -----

  function Items(handed: seq<Handed>): (items: seq<Item>)
    ensures |items| == |handed|
  {
    if handed == [] then [] else Items(handed[..|handed| - 1]) + [handed[|handed| - 1].item]
  }

  lemma ItemsAppend(handed: seq<Handed>, h: Handed)
    ensures Items(handed + [h]) == Items(handed) + [h.item]
  {
    assert (handed + [h])[..|handed|] == handed;
  }

  /** The publishes asked for over a run. */
  function Asked(events: seq<Event>): seq<Item> {
    if events == [] then []
    else
      var e := events[|events| - 1];
      Asked(events[..|events| - 1]) + (if e.Publish? then [e.item] else [])
  }

  ghost predicate Ordered(s: Wrapper) {
    Items(s.handed) + s.queue == s.submitted && (s.state == Connected ==> s.queue == [])
  }

  lemma PublishedHandsOver(ids: Ids, s: Wrapper, item: Item)
    requires s.state == Connected
    ensures var next := Published(ids, s, item);
      && Items(next.handed) == Items(s.handed) + [item]
      && next.state == Connected && next.queue == s.queue && next.submitted == s.submitted
      && next.subscriptions == s.subscriptions && next.subscribed == s.subscribed && next.mark == s.mark
      && next.connects == s.connects && next.timers == s.timers && next.completed == s.completed
  {
    ItemsAppend(s.handed, Published(ids, s, item).handed[|s.handed|]);
  }

  lemma {:induction false} PublishAllHandsOver(ids: Ids, s: Wrapper, items: seq<Item>)
    requires s.state == Connected
    ensures var next := PublishAll(ids, s, items);
      && Items(next.handed) == Items(s.handed) + items
      && next.state == Connected && next.queue == s.queue && next.submitted == s.submitted
      && next.subscriptions == s.subscriptions && next.subscribed == s.subscribed && next.mark == s.mark
      && next.connects == s.connects && next.timers == s.timers && next.completed == s.completed
    decreases |items|
  {
    hide Items, Published;
    if items == [] {
      assert Items(s.handed) + [] == Items(s.handed);
    } else {
      var item, rest := items[0], items[1..];
      var next := Published(ids, s, item);
      PublishedHandsOver(ids, s, item);
      PublishAllHandsOver(ids, next, rest);
      assert (Items(s.handed) + [item]) + rest == Items(s.handed) + ([item] + rest);
      assert [item] + rest == items;
    }
  }

  lemma StepKeepsOrder(ids: Ids, s: Wrapper, e: Event)
    requires Ordered(s)
    ensures Ordered(Step(ids, s, e))
    ensures Step(ids, s, e).submitted == s.submitted + (if e.Publish? then [e.item] else [])
  {
    hide Items, PublishAll;
    match e
    case Publish(item) =>
      var next := Published(ids, s, item);
      if s.state == Connected {
        ItemsAppend(s.handed, next.handed[|s.handed|]);
        assert Items(s.handed) + [] == Items(s.handed);
        assert Items(next.handed) + [] == Items(next.handed);
      } else {
        assert Items(s.handed) + (s.queue + [item]) == (Items(s.handed) + s.queue) + [item];
      }
      assert s.submitted + [item] == Step(ids, s, e).submitted;
    case ConnAck(code) =>
      if code == ACCEPTED {
        PublishAllHandsOver(ids, Opened(s), s.queue);
        assert Items(s.handed) + s.queue + [] == Items(s.handed) + s.queue;
      }
      assert s.submitted + [] == s.submitted;
    case _ =>
      assert s.submitted + [] == s.submitted;
  }

  /** Main result. Across any number of disconnects, the publishes handed to the client
      followed by the offline queue are the publishes that were asked for, in that order; and
      nothing waits in the queue while the connection is up. */
  lemma {:induction false} PublishesKeepTheirOrder(ids: Ids, events: seq<Event>)
    ensures var s := Run(ids, events);
      && s.submitted == Asked(events)
      && Items(s.handed) + s.queue == Asked(events)
      && (s.state == Connected ==> s.queue == [])
  {
    if events != [] {
      PublishesKeepTheirOrder(ids, events[..|events| - 1]);
      StepKeepsOrder(ids, Run(ids, events[..|events| - 1]), events[|events| - 1]);
    }
  }

  // ----- Connections and subscriptions, read off the events alone -----

  /** Whether the last accepted connection has neither failed nor finished. */
  predicate Up(events: seq<Event>) {
    events != []
    && var e := events[|events| - 1];
       e == ConnAck(0) || (!e.Error? && !e.Finish? && Up(events[..|events| - 1]))
  }

  /** All topics ever asked for. */
  function Topics(events: seq<Event>): set<Topic> {
    if events == [] then {}
    else
      var e := events[|events| - 1];
      Topics(events[..|events| - 1]) + (if e.Subscribe? then e.topics else {})
  }

  /** The subscribe calls due: all topics known, if any, on each accepted connection, and each
      subscription that is asked for while it is up. */
  function CallsDue(events: seq<Event>): seq<set<Topic>> {
    if events == [] then []
    else
      var before, e := events[..|events| - 1], events[|events| - 1];
      CallsDue(before)
      + (if e == ConnAck(0) && Topics(before) != {} then [Topics(before)]
         else if e.Subscribe? && Up(before) then [e.topics] else [])
  }

  /** Connection attempts: the first, and one for each expiry of the timer while down. */
  function ConnectsDue(events: seq<Event>): nat {
    if events == [] then 1
    else
      ConnectsDue(events[..|events| - 1])
      + (if events[|events| - 1] == ReconnectTimer(false, false) && !Up(events[..|events| - 1]) then 1 else 0)
  }

  /** The timer is started each time a connection fails or finishes. */
  function TimersDue(events: seq<Event>): nat {
    if events == [] then 0
    else
      TimersDue(events[..|events| - 1])
      + (if events[|events| - 1].Error? || events[|events| - 1].Finish? then 1 else 0)
  }

  ghost predicate Follows(s: Wrapper, events: seq<Event>) {
    && (s.state == if Up(events) then Connected else Disconnected)
    && s.subscriptions == Topics(events) && s.subscribed == CallsDue(events)
    && s.connects == ConnectsDue(events) && s.timers == TimersDue(events)
  }

  /** Main result. Over every run: the connection state, the subscribe calls made with their
      topics and in their order, the connection attempts and the timers started are those the
      events call for. */
  lemma {:induction false} CallsAreThoseDue(ids: Ids, events: seq<Event>)
    ensures Follows(Run(ids, events), events)
  {
    if events != [] {
      var before, e := events[..|events| - 1], events[|events| - 1];
      var s := Run(ids, before);
      CallsAreThoseDue(ids, before);
      StepFollows(ids, s, before, e);
      assert before + [e] == events;
    }
  }

  lemma StepFollows(ids: Ids, s: Wrapper, before: seq<Event>, e: Event)
    requires Follows(s, before)
    ensures Follows(Step(ids, s, e), before + [e])
  {
    hide PublishAll, Published;
    assert (before + [e])[..|before|] == before;
    match e
    case Publish(item) => PublishedKeeps(ids, s, item);
    case ConnAck(code) =>
      if code == ACCEPTED {
        PublishAllHandsOver(ids, Opened(s), s.queue);
      }
    case _ =>
  }

  lemma PublishedKeeps(ids: Ids, s: Wrapper, item: Item)
    ensures var next := Published(ids, s, item);
      && next.state == s.state && next.subscriptions == s.subscriptions && next.subscribed == s.subscribed
      && next.connects == s.connects && next.timers == s.timers && next.mark == s.mark
      && next.completed == s.completed
  {
  }

  function Union(calls: seq<set<Topic>>): set<Topic> {
    if calls == [] then {} else Union(calls[..|calls| - 1]) + calls[|calls| - 1]
  }

  lemma UnionAppend(calls: seq<set<Topic>>, topics: set<Topic>)
    ensures Union(calls + [topics]) == Union(calls) + topics
  {
    assert (calls + [topics])[..|calls|] == calls;
  }

  /** The subscribe calls of the current connection cover all topics ever asked for. */
  ghost predicate Renewed(s: Wrapper) {
    s.mark <= |s.subscribed| && (s.state == Connected ==> Union(s.subscribed[s.mark..]) == s.subscriptions)
  }

  lemma StepRenews(ids: Ids, s: Wrapper, e: Event)
    requires Renewed(s)
    ensures Renewed(Step(ids, s, e))
  {
    hide Union, PublishAll;
    match e
    case Subscribe(topics) =>
      if s.state == Connected {
        UnionAppend(s.subscribed[s.mark..], topics);
        assert (s.subscribed + [topics])[s.mark..] == s.subscribed[s.mark..] + [topics];
      }
    case ConnAck(code) =>
      if code == ACCEPTED {
        PublishAllHandsOver(ids, Opened(s), s.queue);
        OneCall(s.subscriptions);
        assert Opened(s).subscribed[|s.subscribed|..] == if s.subscriptions != {} then [s.subscriptions] else [];
      }
    case Publish(item) => PublishedKeeps(ids, s, item);
    case _ =>
  }

  lemma OneCall(topics: set<Topic>)
    ensures Union([topics]) == topics && Union([]) == {}
  {
    assert [topics][..0] == [];
  }

  /** While the connection is up, the subscribe calls made on it are for all topics that were
      ever asked for. */
  lemma {:induction false} SubscriptionsAreRenewed(ids: Ids, events: seq<Event>)
    ensures var s := Run(ids, events);
      && s.mark <= |s.subscribed|
      && (s.state == Connected ==> Union(s.subscribed[s.mark..]) == Topics(events))
  {
    CallsAreThoseDue(ids, events);
    RunRenews(ids, events);
  }

  lemma {:induction false} RunRenews(ids: Ids, events: seq<Event>)
    ensures Renewed(Run(ids, events))
  {
    if events != [] {
      RunRenews(ids, events[..|events| - 1]);
      StepRenews(ids, Run(ids, events[..|events| - 1]), events[|events| - 1]);
    }
  }

  // ----- Conservation -----

  function Count(items: seq<Item>, c: nat): nat {
    if items == [] then 0
    else Count(items[..|items| - 1], c) + (if items[|items| - 1].callback == c then 1 else 0)
  }

  function CountCompleted(completed: seq<Completed>, c: nat): nat {
    if completed == [] then 0
    else
      CountCompleted(completed[..|completed| - 1], c)
      + (if completed[|completed| - 1].item.callback == c then 1 else 0)
  }

  ghost function Holding(inProgress: map<nat, Item>, c: nat): set<nat> {
    set id | id in inProgress && inProgress[id].callback == c
  }

  lemma CountAppend(items: seq<Item>, x: Item, c: nat)
    ensures Count(items + [x], c) == Count(items, c) + (if x.callback == c then 1 else 0)
  {
    assert (items + [x])[..|items|] == items;
  }

  lemma CountCompletedAppend(completed: seq<Completed>, x: Completed, c: nat)
    ensures CountCompleted(completed + [x], c) == CountCompleted(completed, c) + (if x.item.callback == c then 1 else 0)
  {
    assert (completed + [x])[..|completed|] == completed;
  }

  lemma {:induction false} CountConcat(a: seq<Item>, b: seq<Item>, c: nat)
    ensures Count(a + b, c) == Count(a, c) + Count(b, c)
  {
    if b == [] {
      assert a + b == a;
    } else {
      CountConcat(a, b[..|b| - 1], c);
      assert (a + b)[..|a + b| - 1] == a + b[..|b| - 1];
    }
  }

  lemma CountWithout(items: seq<Item>, i: nat, c: nat)
    requires i < |items|
    ensures Count(items, c) == Count(items[..i] + items[i + 1..], c) + (if items[i].callback == c then 1 else 0)
  {
    hide Count;
    var a, x, b := items[..i], items[i], items[i + 1..];
    CountConcat(a, b, c);
    CountConcat(a + [x], b, c);
    CountAppend(a, x, c);
    assert items == (a + [x]) + b;
  }

  lemma HoldingUpdate(m: map<nat, Item>, id: nat, x: Item, c: nat)
    ensures |Holding(m[id := x], c)| + (if id in m && m[id].callback == c then 1 else 0)
         == |Holding(m, c)| + (if x.callback == c then 1 else 0)
  {
    var rest := Holding(m, c) - {id};
    assert Holding(m[id := x], c) == if x.callback == c then rest + {id} else rest;
  }

  lemma HoldingRemove(m: map<nat, Item>, id: nat, c: nat)
    requires id in m
    ensures |Holding(m, c)| == |Holding(m - {id}, c)| + (if m[id].callback == c then 1 else 0)
  {
    assert Holding(m - {id}, c) == Holding(m, c) - {id};
  }

  /** Every place an item can be in that has callback c, and the histories it left. */
  ghost function Places(s: Wrapper, c: nat): nat {
    Count(s.queue, c) + |Holding(s.inProgress, c)| + Count(s.direct, c)
    + CountCompleted(s.completed, c) + Count(s.overwritten, c)
  }

  lemma SafePublishCounts(ids: Ids, s: Wrapper, item: Item, c: nat)
    ensures Places(Published(ids, s, item), c) == Places(s, c) + (if item.callback == c then 1 else 0)
  {
    if s.state != Connected {
      CountAppend(s.queue, item, c);
    } else if item.qos == AT_MOST_ONCE {
      CountAppend(s.direct, item, c);
    } else {
      var id := ids(s.acquired);
      HoldingUpdate(s.inProgress, id, item, c);
      if id in s.inProgress {
        CountAppend(s.overwritten, s.inProgress[id], c);
      } else {
        assert s.overwritten + [] == s.overwritten;
      }
    }
  }

  lemma {:induction false} PublishAllCounts(ids: Ids, s: Wrapper, items: seq<Item>, c: nat)
    ensures Places(PublishAll(ids, s, items), c) == Places(s, c) + Count(items, c)
    decreases |items|
  {
    if items != [] {
      SafePublishCounts(ids, s, items[0], c);
      PublishAllCounts(ids, Published(ids, s, items[0]), items[1..], c);
      CountConcat([items[0]], items[1..], c);
      CountAppend([], items[0], c);
      assert [] + [items[0]] == [items[0]] && [items[0]] + items[1..] == items;
    }
  }

  lemma StepConserves(ids: Ids, s: Wrapper, e: Event, c: nat)
    requires Places(s, c) == Count(s.submitted, c)
    ensures var next := Step(ids, s, e); Places(next, c) == Count(next.submitted, c)
  {
    hide Count, CountCompleted, Holding;
    match e
    case Publish(item) =>
      SafePublishCounts(ids, s, item, c);
      CountAppend(s.submitted, item, c);
    case ConnAck(code) =>
      if code == ACCEPTED {
        var next := Opened(s);
        PublishAllCounts(ids, next, s.queue, c);
        PublishAllHandsOver(ids, next, s.queue);
        CountConcat([], [], c);
        assert [] + [] == next.queue;
      }
    case DirectCallback(index, failed) =>
      if index < |s.direct| {
        CountWithout(s.direct, index, c);
        CountCompletedAppend(s.completed, Completed(s.direct[index], !failed), c);
      }
    case AsyncPublishCallback(id, failed) =>
      if failed && id in s.inProgress {
        HoldingRemove(s.inProgress, id, c);
        CountCompletedAppend(s.completed, Completed(s.inProgress[id], false), c);
      }
    case PublishAcknowledged(id) => AcknowledgeConserves(s, id, AT_LEAST_ONCE, c);
    case PublishCompleted(id) => AcknowledgeConserves(s, id, EXACTLY_ONCE, c);
    case _ =>
  }

  lemma AcknowledgeConserves(s: Wrapper, id: nat, qos: nat, c: nat)
    ensures Places(Acknowledge(s, id, qos), c) == Places(s, c)
  {
    if id in s.inProgress && s.inProgress[id].qos == qos {
      HoldingRemove(s.inProgress, id, c);
      CountCompletedAppend(s.completed, Completed(s.inProgress[id], true), c);
    }
  }

  /** Whatever the packet ids, each publish asked for is at all times in exactly one place:
      queued, in flight, handed to the client at most once, completed, or displaced by a
      later publish with its packet id. */
  lemma {:induction false} Conservation(ids: Ids, events: seq<Event>, c: nat)
    ensures var s := Run(ids, events);
      Count(s.queue, c) + |Holding(s.inProgress, c)| + Count(s.direct, c)
      + CountCompleted(s.completed, c) + Count(s.overwritten, c) == Count(s.submitted, c)
  {
    if events != [] {
      Conservation(ids, events[..|events| - 1], c);
      StepConserves(ids, Run(ids, events[..|events| - 1]), events[|events| - 1], c);
    } else {
      assert Holding(map[], c) == {};
    }
  }

  /** Nothing is completed, or displaced, that was not first handed to the client. */
  lemma HandedAreAccounted(ids: Ids, events: seq<Event>, c: nat)
    ensures var s := Run(ids, events);
      |Holding(s.inProgress, c)| + Count(s.direct, c) + CountCompleted(s.completed, c) + Count(s.overwritten, c)
      == Count(Items(s.handed), c)
  {
    var s := Run(ids, events);
    Conservation(ids, events, c);
    PublishesKeepTheirOrder(ids, events);
    CountConcat(Items(s.handed), s.queue, c);
  }

  /** The publish last handed over with packet id id. */
  function Latest(handed: seq<Handed>, id: nat): Option<Item> {
    if handed == [] then None
    else
      var h := handed[|handed| - 1];
      if h.id == id && h.item.qos != AT_MOST_ONCE then Some(h.item) else Latest(handed[..|handed| - 1], id)
  }

  ghost predicate Tracked(s: Wrapper) {
    && (forall id | id in s.inProgress :: Latest(s.handed, id) == Some(s.inProgress[id]))
    && (forall x | x in s.direct :: x.qos == AT_MOST_ONCE)
  }

  lemma LatestAppend(handed: seq<Handed>, h: Handed, id: nat)
    ensures Latest(handed + [h], id)
         == if h.id == id && h.item.qos != AT_MOST_ONCE then Some(h.item) else Latest(handed, id)
  {
    assert (handed + [h])[..|handed|] == handed;
  }

  lemma SafePublishTracks(ids: Ids, s: Wrapper, item: Item)
    requires Tracked(s)
    ensures Tracked(Published(ids, s, item))
  {
    var next := Published(ids, s, item);
    if s.state == Connected {
      var h := next.handed[|s.handed|];
      forall id | id in next.inProgress
        ensures Latest(next.handed, id) == Some(next.inProgress[id])
      {
        LatestAppend(s.handed, h, id);
      }
    }
  }

  lemma {:induction false} PublishAllTracks(ids: Ids, s: Wrapper, items: seq<Item>)
    requires Tracked(s)
    ensures Tracked(PublishAll(ids, s, items))
    decreases |items|
  {
    if items != [] {
      SafePublishTracks(ids, s, items[0]);
      PublishAllTracks(ids, Published(ids, s, items[0]), items[1..]);
    }
  }

  lemma StepTracks(ids: Ids, s: Wrapper, e: Event)
    requires Tracked(s)
    ensures Tracked(Step(ids, s, e))
  {
    if e.Publish? {
      SafePublishTracks(ids, s, e.item);
    } else if e == ConnAck(ACCEPTED) {
      PublishAllTracks(ids, Opened(s), s.queue);
    }
  }

  /** At all times an in-flight packet id stands for the publish last handed over with it, so
      an acknowledgement completes that one; items with no packet id are at most once. */
  lemma {:induction false} InFlightIsLatest(ids: Ids, events: seq<Event>)
    ensures Tracked(Run(ids, events))
  {
    if events != [] {
      InFlightIsLatest(ids, events[..|events| - 1]);
      StepTracks(ids, Run(ids, events[..|events| - 1]), events[|events| - 1]);
    }
  }

  // ----- Packet ids and completions -----

  /** How many of the publishes need a packet id. */
  function Numbered(items: seq<Item>): nat {
    if items == [] then 0
    else Numbered(items[..|items| - 1]) + (if items[|items| - 1].qos == 0 then 0 else 1)
  }

  /** The hand-overs of publishes in order: id 0 for those at most once, and for the others the
      client's ids one after the other. */
  function WithIds(ids: Ids, items: seq<Item>): seq<Handed> {
    if items == [] then []
    else
      var before, x := items[..|items| - 1], items[|items| - 1];
      WithIds(ids, before) + [Handed(x, if x.qos == 0 then 0 else ids(Numbered(before)))]
  }

  ghost predicate IdsInOrder(ids: Ids, s: Wrapper) {
    s.handed == WithIds(ids, Items(s.handed)) && s.acquired == Numbered(Items(s.handed))
  }

  lemma WithIdsAppend(ids: Ids, items: seq<Item>, x: Item)
    ensures WithIds(ids, items + [x])
         == WithIds(ids, items) + [Handed(x, if x.qos == 0 then 0 else ids(Numbered(items)))]
    ensures Numbered(items + [x]) == Numbered(items) + (if x.qos == 0 then 0 else 1)
  {
    assert (items + [x])[..|items|] == items;
  }

  lemma PublishedKeepsIds(ids: Ids, s: Wrapper, item: Item)
    requires IdsInOrder(ids, s)
    ensures IdsInOrder(ids, Published(ids, s, item))
  {
    hide Items, WithIds, Numbered;
    if s.state == Connected {
      var id := if item.qos == 0 then 0 else ids(s.acquired);
      ItemsAppend(s.handed, Handed(item, id));
      WithIdsAppend(ids, Items(s.handed), item);
    }
  }

  lemma {:induction false} PublishAllKeepsIds(ids: Ids, s: Wrapper, items: seq<Item>)
    requires IdsInOrder(ids, s)
    ensures IdsInOrder(ids, PublishAll(ids, s, items))
    decreases |items|
  {
    hide Published, IdsInOrder;
    if items != [] {
      PublishedKeepsIds(ids, s, items[0]);
      PublishAllKeepsIds(ids, Published(ids, s, items[0]), items[1..]);
    }
  }

  lemma StepKeepsIds(ids: Ids, s: Wrapper, e: Event)
    requires IdsInOrder(ids, s)
    ensures IdsInOrder(ids, Step(ids, s, e))
  {
    hide Published, PublishAll, Items, WithIds, Numbered;
    match e
    case Publish(item) => PublishedKeepsIds(ids, s, item);
    case ConnAck(code) => PublishAllKeepsIds(ids, Opened(s), s.queue);
    case _ =>
  }

  /** Over every run each publish is handed over with the next of the client's packet ids, or
      with 0 if it needs none. */
  lemma {:induction false} IdsAreTheNext(ids: Ids, events: seq<Event>)
    ensures var s := Run(ids, events);
      s.handed == WithIds(ids, Items(s.handed)) && s.acquired == Numbered(Items(s.handed))
  {
    hide Step;
    if events != [] {
      IdsAreTheNext(ids, events[..|events| - 1]);
      StepKeepsIds(ids, Run(ids, events[..|events| - 1]), events[|events| - 1]);
    }
  }

  /** The events that may complete a publish in this way. */
  predicate Justifies(e: Event, c: Completed) {
    match e
    case PublishAcknowledged(_) => c.success && c.item.qos == 1
    case PublishCompleted(_) => c.success && c.item.qos == 2
    case DirectCallback(_, failed) => c.success == !failed && c.item.qos == 0
    case AsyncPublishCallback(_, failed) => failed && !c.success
    case _ => false
  }

  /** What e completes: the publish last handed over with the id it names, if that is still in
      flight. */
  predicate Settles(e: Event, id: nat, qos: nat) {
    (e == PublishAcknowledged(id) && qos == 1) || (e == PublishCompleted(id) && qos == 2)
    || e == AsyncPublishCallback(id, true)
  }

  /** In every reachable state an event completes at most one publish, and only in the way it
      may; and one that names a publish in flight, in a way that fits it, completes just that. */
  lemma CompletionsFit(ids: Ids, events: seq<Event>, e: Event)
    ensures var s := Run(ids, events); var next := Step(ids, s, e);
      && s.completed <= next.completed && |next.completed| <= |s.completed| + 1
      && (|next.completed| > |s.completed| ==> Justifies(e, next.completed[|s.completed|]))
    ensures var s := Run(ids, events); var next := Step(ids, s, e);
      forall id | id in s.inProgress && Settles(e, id, s.inProgress[id].qos) ::
        && Latest(s.handed, id).Some?
        && next.completed == s.completed + [Completed(Latest(s.handed, id).value, !e.AsyncPublishCallback?)]
        && next.inProgress == s.inProgress - {id}
  {
    var s := Run(ids, events);
    InFlightIsLatest(ids, events);
    hide Run, PublishAll, Published, Latest;
    match e
    case Publish(item) => PublishedKeeps(ids, s, item);
    case ConnAck(code) =>
      if code == ACCEPTED {
        PublishAllHandsOver(ids, Opened(s), s.queue);
      }
    case DirectCallback(index, failed) =>
      if index < |s.direct| {
        assert s.direct[index] in s.direct;
      }
    case _ =>
  }

  // ----- When nothing is displaced -----

  function NeedIds(items: seq<Item>): nat {
    if items == [] then 0 else (if items[0].qos != AT_MOST_ONCE then 1 else 0) + NeedIds(items[1..])
  }

  /** The next n packet ids differ from each other and from those in flight. */
  ghost predicate FreshIds(ids: Ids, s: Wrapper, n: nat) {
    && (forall i :: s.acquired <= i < s.acquired + n ==> ids(i) !in s.inProgress)
    && (forall i, j :: s.acquired <= i < j < s.acquired + n ==> ids(i) != ids(j))
  }

  lemma {:induction false} PublishAllOverwrites(ids: Ids, s: Wrapper, items: seq<Item>)
    requires s.state == Connected
    ensures var next := PublishAll(ids, s, items);
      && s.overwritten <= next.overwritten
      && (next.overwritten == s.overwritten <==> FreshIds(ids, s, NeedIds(items)))
    decreases |items|
  {
    if items != [] {
      var next := Published(ids, s, items[0]);
      PublishAllOverwrites(ids, next, items[1..]);
      var n := NeedIds(items[1..]);
      if items[0].qos != AT_MOST_ONCE {
        FreshFirst(ids, s, items[0], n);
        assert next.overwritten == s.overwritten <==> ids(s.acquired) !in s.inProgress;
        if ids(s.acquired) in s.inProgress {
          assert |PublishAll(ids, s, items).overwritten| > |s.overwritten|;
        }
      }
    }
  }

  lemma FreshFirst(ids: Ids, s: Wrapper, item: Item, n: nat)
    requires s.state == Connected && item.qos != AT_MOST_ONCE
    ensures FreshIds(ids, s, n + 1)
       <==> ids(s.acquired) !in s.inProgress && FreshIds(ids, Published(ids, s, item), n)
  {
    var next, k := Published(ids, s, item), s.acquired;
    if FreshIds(ids, s, n + 1) {
      assert ids(k) !in s.inProgress;
    }
    if ids(k) !in s.inProgress && FreshIds(ids, next, n) {
      forall j | k < j < k + n + 1
        ensures ids(j) != ids(k) && ids(j) !in s.inProgress
      {
        assert ids(j) !in next.inProgress;
      }
    }
  }

  lemma PublishNone(ids: Ids, s: Wrapper)
    ensures PublishAll(ids, s, []) == s
  {
  }

  lemma RunPrefix(ids: Ids, events: seq<Event>, k: nat)
    requires k < |events|
    ensures Run(ids, events[..k + 1]) == Step(ids, Run(ids, events[..k]), events[k])
    ensures Run(ids, events[..0]) == INITIAL
  {
    assert events[..k + 1][..k] == events[..k];
  }

  lemma PublishOne(ids: Ids, s: Wrapper, item: Item)
    ensures PublishAll(ids, s, [item]) == Published(ids, s, item)
  {
    assert [item][1..] == [];
  }

  /** The packet ids that e makes the wrapper acquire are new. */
  ghost predicate FreshFor(ids: Ids, s: Wrapper, e: Event) {
    match e
    case Publish(item) => s.state == Connected ==> FreshIds(ids, s, NeedIds([item]))
    case ConnAck(code) => code == ACCEPTED ==> FreshIds(ids, s, NeedIds(s.queue))
    case _ => true
  }

  ghost predicate FreshRun(ids: Ids, events: seq<Event>) {
    events == []
    || (FreshRun(ids, events[..|events| - 1])
        && FreshFor(ids, Run(ids, events[..|events| - 1]), events[|events| - 1]))
  }

  lemma StepOverwrites(ids: Ids, s: Wrapper, e: Event)
    ensures var next := Step(ids, s, e);
      s.overwritten <= next.overwritten && (next.overwritten == s.overwritten <==> FreshFor(ids, s, e))
  {
    match e
    case Publish(item) =>
      if s.state == Connected {
        PublishAllOverwrites(ids, s, [item]);
        PublishOne(ids, s, item);
      }
    case ConnAck(code) =>
      if code == ACCEPTED {
        var next := Opened(s);
        PublishAllOverwrites(ids, next, s.queue);
      }
    case _ =>
  }

  lemma {:induction false} OverwrittenIffNotFresh(ids: Ids, events: seq<Event>)
    ensures Run(ids, events).overwritten == [] <==> FreshRun(ids, events)
  {
    if events != [] {
      var before := events[..|events| - 1];
      OverwrittenIffNotFresh(ids, before);
      StepOverwrites(ids, Run(ids, before), events[|events| - 1]);
    }
  }

  /** Main result. No publish is ever displaced exactly when every packet id acquired is new
      with respect to those in flight; and then each callback that was given once is held in
      exactly one of the queue, the in-flight map, the client and the completed ones, so it
      is run at most once. */
  lemma NothingIsLost(ids: Ids, events: seq<Event>, c: nat)
    requires Count(Run(ids, events).submitted, c) == 1
    ensures var s := Run(ids, events);
      && (s.overwritten == [] <==> FreshRun(ids, events))
      && CountCompleted(s.completed, c) <= 1
      && (FreshRun(ids, events) ==>
            Count(s.queue, c) + |Holding(s.inProgress, c)| + Count(s.direct, c) + CountCompleted(s.completed, c) == 1)
  {
    OverwrittenIffNotFresh(ids, events);
    Conservation(ids, events, c);
  }

  lemma RunOfSix(ids: Ids, events: seq<Event>)
    requires |events| == 6
    ensures Run(ids, events)
         == StepAll(ids, StepAll(ids, INITIAL, events[0], events[1], events[2]), events[3], events[4], events[5])
  {
    hide Step;
    RunPrefix(ids, events, 0);
    RunPrefix(ids, events, 1);
    RunPrefix(ids, events, 2);
    RunPrefix(ids, events, 3);
    RunPrefix(ids, events, 4);
    RunPrefix(ids, events, 5);
    assert events[..6] == events;
  }

  function StepAll(ids: Ids, s: Wrapper, first: Event, second: Event, third: Event): Wrapper {
    Step(ids, Step(ids, Step(ids, s, first), second), third)
  }

  /** A publish in flight when the connection breaks. */
  function Broken(a: Item, id: nat): Wrapper {
    INITIAL.(inProgress := map[id := a], acquired := 1, handed := [Handed(a, id)], timers := 1, submitted := [a])
  }

  lemma BreaksInFlight(ids: Ids, a: Item)
    requires a.qos == AT_LEAST_ONCE
    ensures StepAll(ids, INITIAL, ConnAck(ACCEPTED), Publish(a), Error) == Broken(a, ids(0))
  {
    hide PublishAll;
    PublishNone(ids, Opened(INITIAL));
  }

  lemma LosesOnReconnect(ids: Ids, a: Item, b: Item)
    requires ids(0) == ids(1) && b.qos == AT_LEAST_ONCE
    ensures var s := StepAll(ids, Broken(a, ids(0)), Publish(b), ConnAck(ACCEPTED), PublishAcknowledged(ids(1)));
      && s.submitted == [a, b] && s.completed == [Completed(b, true)] && s.overwritten == [a]
      && s.queue == [] && s.inProgress == map[] && s.direct == []
  {
    hide PublishAll;
    var s := Step(ids, Broken(a, ids(0)), Publish(b));
    assert s.queue == [b];
    PublishOne(ids, Opened(s), b);
  }

  /** Without fresh ids a publish can be lost: the in-flight map outlives the connection, so
      an id the client hands out again displaces the item it was first used for, and that
      item's callback is never run. */
  lemma ReusedIdLosesAPublish(ids: Ids, a: Item, b: Item)
    requires ids(0) == ids(1) && a.qos == b.qos == AT_LEAST_ONCE
    ensures var s := Run(ids, [ConnAck(ACCEPTED), Publish(a), Error,
                               Publish(b), ConnAck(ACCEPTED), PublishAcknowledged(ids(1))]);
      && s.submitted == [a, b] && s.completed == [Completed(b, true)] && s.overwritten == [a]
      && s.queue == [] && s.inProgress == map[] && s.direct == []
  {
    hide Run, StepAll, Broken;
    RunOfSix(ids, [ConnAck(ACCEPTED), Publish(a), Error, Publish(b), ConnAck(ACCEPTED), PublishAcknowledged(ids(1))]);
    BreaksInFlight(ids, a);
    LosesOnReconnect(ids, a, b);
  }

  // ----- All of it as one invariant -----

  ghost predicate Conserved(s: Wrapper, c: nat) {
    Places(s, c) == Count(s.submitted, c)
  }

  ghost predicate Invariant(s: Wrapper) {
    Ordered(s) && Tracked(s) && Renewed(s) && forall c: nat :: Conserved(s, c)
  }

  /** Every step keeps order, conservation, in-flight ids and subscriptions as they should be. */
  lemma StepKeepsInvariant(ids: Ids, s: Wrapper, e: Event)
    requires Invariant(s)
    ensures Invariant(Step(ids, s, e))
  {
    hide Step, Ordered, Tracked, Renewed, Places, Count;
    StepKeepsOrder(ids, s, e);
    StepTracks(ids, s, e);
    StepRenews(ids, s, e);
    forall c: nat
      ensures Conserved(Step(ids, s, e), c)
    {
      assert Conserved(s, c);
      StepConserves(ids, s, e, c);
    }
  }

  lemma InitialInvariant()
    ensures Invariant(INITIAL)
  {
    forall c: nat
      ensures Conserved(INITIAL, c)
    {
      assert Holding(map[], c) == {};
    }
  }

  // ----- The object -----

  class MqttWrapper {
    var state: ConnectionState
    var queue: seq<Item>
    var inProgress: map<nat, Item>
    var subscriptions: set<Topic>
    // What the wrapper did to the client, to its callers and to its timer.
    var acquired: nat
    var handed: seq<Handed>
    var subscribed: seq<set<Topic>>
    var direct: seq<Item>
    var completed: seq<Completed>
    var timers: nat
    var connects: nat
    const ids: Ids
    ghost var submitted: seq<Item>
    ghost var overwritten: seq<Item>
    ghost var mark: nat

    ghost function State(): Wrapper
      reads this
    {
      Wrapper(state, queue, inProgress, subscriptions, acquired, handed, subscribed, direct, completed, timers,
              connects, submitted, overwritten, mark)
    }

    /** The publishes handed over and queued are those submitted, each is in one place, and
        in-flight ids and subscriptions are up to date. */
    ghost predicate Valid()
      reads this
    {
      Invariant(State())
    }

    constructor (ids: Ids)
      ensures Valid() && State() == INITIAL && this.ids == ids
    {
      InitialInvariant();
      state, queue, inProgress, subscriptions, acquired := Disconnected, [], map[], {}, 0;
      handed, subscribed, direct, completed, timers, connects := [], [], [], [], 0, 1;
      submitted, overwritten, mark := [], [], 0;
      this.ids := ids;
    }

    /** What the caller asks for; the drain of the queue goes through SafePublish too. */
    method Publish(item: Item)
      requires Valid()
      modifies this
      ensures Valid() && State() == Step(ids, old(State()), Event.Publish(item))
    {
      hide Invariant;
      StepKeepsInvariant(ids, State(), Event.Publish(item));
      SafePublish(item);
      submitted := submitted + [item];
    }

    method SafePublish(item: Item)
      modifies this
      ensures State() == Published(ids, old(State()), item)
    {
      if state != Connected {
        queue := queue + [item];
        return;
      }
      if item.qos == AT_MOST_ONCE {
        direct := direct + [item];
        handed := handed + [Handed(item, 0)];
        return;
      }
      var id := ids(acquired);
      acquired := acquired + 1;
      overwritten := overwritten + (if id in inProgress then [inProgress[id]] else []);
      inProgress := inProgress[id := item];
      handed := handed + [Handed(item, id)];
    }

    method SafeSubscribe(topics: set<Topic>)
      requires Valid()
      modifies this
      ensures Valid() && State() == Step(ids, old(State()), Subscribe(topics))
    {
      hide Invariant;
      StepKeepsInvariant(ids, State(), Subscribe(topics));
      subscriptions := subscriptions + topics;
      if state == Connected {
        subscribed := subscribed + [topics];
      }
    }

    method ConnAckHandler(code: nat)
      requires Valid()
      modifies this
      ensures Valid() && State() == Step(ids, old(State()), ConnAck(code))
    {
      hide Invariant;
      StepKeepsInvariant(ids, State(), ConnAck(code));
      hide Published;
      if code != ACCEPTED {
        return;
      }
      ghost var before := State();
      state := Connected;
      mark := |subscribed|;
      if subscriptions != {} {
        subscribed := subscribed + [subscriptions];
      }
      var copy;
      copy, queue := queue, [];
      assert before.subscribed + [] == before.subscribed;
      assert State() == Opened(before);
      while copy != []
        invariant PublishAll(ids, State(), copy) == PublishAll(ids, Opened(before), before.queue)
        decreases |copy|
      {
        var item := copy[0];
        copy := copy[1..];
        SafePublish(item);
      }
    }

    method ErrorHandler()
      requires Valid()
      modifies this
      ensures Valid() && State() == Step(ids, old(State()), Error)
    {
      hide Invariant;
      StepKeepsInvariant(ids, State(), Error);
      state := Disconnected;
      StartReconnectTimer();
    }

    method FinishHandler()
      requires Valid()
      modifies this
      ensures Valid() && State() == Step(ids, old(State()), Finish)
    {
      hide Invariant;
      StepKeepsInvariant(ids, State(), Finish);
      state := Disconnected;
      StartReconnectTimer();
    }

    method StartReconnectTimer()
      modifies this
      ensures State() == old(State()).(timers := old(timers) + 1)
    {
      timers := timers + 1;
    }

    method OnReconnectTimer(cancelled: bool, failed: bool)
      requires Valid()
      modifies this
      ensures Valid() && State() == Step(ids, old(State()), ReconnectTimer(cancelled, failed))
    {
      hide Invariant;
      StepKeepsInvariant(ids, State(), ReconnectTimer(cancelled, failed));
      if cancelled {
        return;
      }
      if failed {
        return;
      }
      if state != Disconnected {
        return;
      }
      connects := connects + 1;
    }

    /** The client runs the callback of a publish it was handed without a packet id. */
    method OnDirectCallback(index: nat, failed: bool)
      requires Valid()
      modifies this
      ensures Valid() && State() == Step(ids, old(State()), DirectCallback(index, failed))
    {
      hide Invariant;
      StepKeepsInvariant(ids, State(), DirectCallback(index, failed));
      if index < |direct| {
        var item := direct[index];
        direct := direct[..index] + direct[index + 1..];
        completed := completed + [Completed(item, !failed)];
      }
    }

    method OnAsyncPublishCallback(id: nat, failed: bool)
      requires Valid()
      modifies this
      ensures Valid() && State() == Step(ids, old(State()), AsyncPublishCallback(id, failed))
    {
      hide Invariant;
      StepKeepsInvariant(ids, State(), AsyncPublishCallback(id, failed));
      if failed {
        if id !in inProgress {
          return;
        }
        var item := inProgress[id];
        inProgress := inProgress - {id};
        completed := completed + [Completed(item, false)];
      }
    }

    method PublishAcknowledgedHandler(id: nat)
      requires Valid()
      modifies this
      ensures Valid() && State() == Step(ids, old(State()), PublishAcknowledged(id))
    {
      hide Invariant;
      StepKeepsInvariant(ids, State(), PublishAcknowledged(id));
      if id !in inProgress {
        return;
      }
      var item := inProgress[id];
      if item.qos != AT_LEAST_ONCE {
        return;
      }
      inProgress := inProgress - {id};
      completed := completed + [Completed(item, true)];
    }

    method PublishCompletedHandler(id: nat)
      requires Valid()
      modifies this
      ensures Valid() && State() == Step(ids, old(State()), PublishCompleted(id))
    {
      hide Invariant;
      StepKeepsInvariant(ids, State(), PublishCompleted(id));
      if id !in inProgress {
        return;
      }
      var item := inProgress[id];
      if item.qos != EXACTLY_ONCE {
        return;
      }
      inProgress := inProgress - {id};
      completed := completed + [Completed(item, true)];
    }
  }
}
