/**
 The request/response dispatcher: one ordered list of handlers that mixes permanent event
 handlers, pending synchronous requests and waits with timeouts, and is changed while an
 incoming frame walks along it.
 */
module ZnpApi {
  import opened Bytes
  import opened ZnpTypes

  /** What an event handler decodes its payload as: a fixed number of bytes, all of them; or
      an incoming message, with its own length byte, and possibly trailing bytes. */
  datatype Arguments = Fixed(size: nat) | IncomingMsg

  /** Every request and wait carries the promise, by number, that it resolves. */
  datatype Handler =
    | EventHandler(event: Command, arguments: Arguments)
    | RequestHandler(promise: nat, responses: set<Command>)
    | WaitHandler(promise: nat, typ: nat, command: Command, prefix: seq<byte>, timed: bool)

  datatype Outcome = Response(data: seq<byte>) | RpcError(status: byte) | Timeout

  datatype Resolution = Resolution(promise: nat, outcome: Outcome)

  /** The handlers the constructor installs. */
  const PERMANENT: seq<Handler> := [
    EventHandler(Command(1, 0x80), Fixed(6)),
    EventHandler(Command(5, 0xC0), Fixed(1)),
    EventHandler(Command(5, 0xC1), Fixed(13)),
    EventHandler(Command(5, 0xCA), Fixed(12)),
    EventHandler(Command(5, 0xCB), Fixed(1)),
    EventHandler(Command(4, 0x81), IncomingMsg)
  ]

  predicate Decodes(arguments: Arguments, data: seq<byte>) {
    match arguments
    case Fixed(size) => |data| == size
    case IncomingMsg => |data| >= 17 && |data| - 17 >= data[16]
  }

  /** The command an RPC error reply is about, and its status. */
  function RpcErrorOf(f: Frame): Option<(Command, byte)> {
    if f.typ == SRSP && f.command == Command(RPC_ERROR, 0) && |f.payload| == 3 && f.payload[1] / 16 == SREQ
    then Some((Command(f.payload[1] % 16, f.payload[2]), f.payload[0]))
    else None
  }

  /** FrameHandlerAction, with what the handler did: resolved its promise or fired its signal. */
  datatype Action = Action(stop: bool, remove: bool, outcome: Option<Outcome>, fires: bool)

  const PASS := Action(false, false, None, false)

  /** active holds the timed waits whose shared flag is still set. */
  function Handle(h: Handler, active: set<nat>, f: Frame): Action {
    match h
    case EventHandler(event, arguments) =>
      if f.typ != AREQ || f.command != event || !Decodes(arguments, f.payload) then PASS
      else Action(true, false, None, true)
    case RequestHandler(_, responses) =>
      if f.typ == SRSP && f.command in responses then Action(true, true, Some(Response(f.payload)), false)
      else (match RpcErrorOf(f)
            case Some((command, status)) =>
              if command in responses then Action(true, true, Some(RpcError(status)), false) else PASS
            case None => PASS)
    case WaitHandler(promise, typ, command, prefix, timed) =>
      if timed && promise !in active then Action(false, true, None, false)
      else if f.typ == typ && f.command == command && prefix <= f.payload then
        Action(true, true, Some(Response(f.payload[|prefix|..])), false)
      else PASS
  }

  // ----- One frame along the list -----

  datatype Walked = Walked(kept: seq<Handler>, resolution: Option<Resolution>, fired: Option<Handler>)

  function Walk(hs: seq<Handler>, active: set<nat>, f: Frame): Walked
    decreases |hs|
  {
    if hs == [] then Walked([], None, None)
    else
      var a := Handle(hs[0], active, f);
      var here := if a.remove then [] else [hs[0]];
      if a.stop then
        Walked(here + hs[1..],
               if a.outcome.Some? then Some(Resolution(hs[0].promise, a.outcome.value)) else None,
               if a.fires then Some(hs[0]) else None)
      else
        var rest := Walk(hs[1..], active, f);
        Walked(here + rest.kept, rest.resolution, rest.fired)
  }

  // ----- The dispatcher as a state machine -----

  /** created: the handler each promise was created with, by promise number; log: every
      resolution so far, oldest first; fired: every event signalled so far. */
  datatype Api = Api(handlers: seq<Handler>, active: set<nat>, created: seq<Handler>, log: seq<Resolution>,
                     fired: seq<(Handler, seq<byte>)>)

  const INITIAL := Api(PERMANENT, {}, [], [], [])

  datatype Event =
    | Request(responses: set<Command>)
    | WaitFor(typ: nat, command: Command, timeoutInSeconds: int, prefix: seq<byte>)
    | FrameArrives(frame: Frame)
    | TimerFires(promise: nat)

  function Push(s: Api, h: Handler): Api {
    s.(handlers := s.handlers + [h], created := s.created + [h],
       active := if h.WaitHandler? && h.timed then s.active + {h.promise} else s.active)
  }

  function Step(s: Api, e: Event): Api {
    match e
    case Request(responses) => Push(s, RequestHandler(|s.created|, responses))
    case WaitFor(typ, command, timeout, prefix) => Push(s, WaitHandler(|s.created|, typ, command, prefix, timeout > 0))
    case FrameArrives(f) =>
      var w := Walk(s.handlers, s.active, f);
      s.(handlers := w.kept,
         active := if w.resolution.Some? then s.active - {w.resolution.value.promise} else s.active,
         log := s.log + (if w.resolution.Some? then [w.resolution.value] else []),
         fired := s.fired + (if w.fired.Some? then [(w.fired.value, f.payload)] else []))
    case TimerFires(promise) =>
      if promise !in s.active then s
      else s.(active := s.active - {promise}, log := s.log + [Resolution(promise, Timeout)])
  }

  /** The state after all of events, the last one last. */
  function Run(s: Api, events: seq<Event>): Api {
    if events == [] then s else Step(Run(s, Front(events)), Last(events))
  }

  function Front<T>(s: seq<T>): (r: seq<T>)
    requires s != []
  {
    s[..|s| - 1]
  }

  function Last<T>(s: seq<T>): T
    requires s != []
  {
    s[|s| - 1]
  }

  // ----- Every run: promises resolve at most once, handlers keep their order -----

  predicate Carries(h: Handler, p: nat) {
    !h.EventHandler? && h.promise == p
  }

  /** h can still resolve its promise. */
  predicate Live(h: Handler, active: set<nat>) {
    h.RequestHandler? || (h.WaitHandler? && (h.timed ==> h.promise in active))
  }

  function CountCarrying(hs: seq<Handler>, p: nat): nat {
    if hs == [] then 0 else (if Carries(hs[0], p) then 1 else 0) + CountCarrying(hs[1..], p)
  }

  function CountLive(hs: seq<Handler>, active: set<nat>, p: nat): nat {
    if hs == [] then 0
    else (if Carries(hs[0], p) && Live(hs[0], active) then 1 else 0) + CountLive(hs[1..], active, p)
  }

  function CountTimed(hs: seq<Handler>, p: nat): nat {
    if hs == [] then 0
    else (if Carries(hs[0], p) && hs[0].WaitHandler? && hs[0].timed then 1 else 0) + CountTimed(hs[1..], p)
  }

  function CountResolved(log: seq<Resolution>, p: nat): nat {
    if log == [] then 0 else (if log[0].promise == p then 1 else 0) + CountResolved(log[1..], p)
  }

  /** Promise p is pending in exactly one live handler or was resolved exactly once, if it
      was ever made; the timer flag of p is set only while its handler is in the list. */
  ghost predicate Accounted(s: Api, p: nat) {
    && CountCarrying(s.handlers, p) <= 1
    && CountLive(s.handlers, s.active, p) + CountResolved(s.log, p) == (if p < |s.created| then 1 else 0)
    && (p in s.active ==> CountTimed(s.handlers, p) == 1)
    && (p >= |s.created| ==> CountCarrying(s.handlers, p) == 0)
  }

  /** Requests and waits only, each the one its promise was created with, oldest first. */
  predicate InCreationOrder(hs: seq<Handler>, created: seq<Handler>, from: nat) {
    hs == []
    || (!hs[0].EventHandler? && from <= hs[0].promise < |created| && created[hs[0].promise] == hs[0]
        && InCreationOrder(hs[1..], created, hs[0].promise + 1))
  }

  /** The constructor's handlers lead the list, and what follows them is in creation order. */
  predicate KeepsPermanent(s: Api) {
    PERMANENT <= s.handlers && InCreationOrder(s.handlers[|PERMANENT|..], s.created, 0)
  }

  ghost predicate Invariant(s: Api) {
    KeepsPermanent(s) && forall p: nat :: Accounted(s, p)
  }

  lemma {:induction false} CountsAppend(hs: seq<Handler>, h: Handler, active: set<nat>, p: nat)
    ensures CountCarrying(hs + [h], p) == CountCarrying(hs, p) + CountCarrying([h], p)
    ensures CountLive(hs + [h], active, p) == CountLive(hs, active, p) + CountLive([h], active, p)
    ensures CountTimed(hs + [h], p) == CountTimed(hs, p) + CountTimed([h], p)
  {
    if hs == [] {
      assert hs + [h] == [h];
    } else {
      CountsAppend(hs[1..], h, active, p);
      assert (hs + [h])[1..] == hs[1..] + [h];
    }
  }

  lemma {:induction false} ResolvedAppend(log: seq<Resolution>, r: Resolution, p: nat)
    ensures CountResolved(log + [r], p) == CountResolved(log, p) + (if r.promise == p then 1 else 0)
  {
    if log == [] {
      assert log + [r] == [r];
    } else {
      ResolvedAppend(log[1..], r, p);
      assert (log + [r])[1..] == log[1..] + [r];
    }
  }

  lemma {:induction false} LiveBounds(hs: seq<Handler>, active: set<nat>, p: nat)
    ensures CountLive(hs, active, p) <= CountCarrying(hs, p)
    ensures CountTimed(hs, p) <= CountCarrying(hs, p)
    ensures p in active ==> CountLive(hs, active, p) == CountCarrying(hs, p)
    ensures p !in active ==> CountLive(hs, active, p) + CountTimed(hs, p) == CountCarrying(hs, p)
  {
    if hs != [] {
      LiveBounds(hs[1..], active, p);
    }
  }

  /** Whether p is alive depends on active only through p itself. */
  lemma {:induction false} LiveDepends(hs: seq<Handler>, a: set<nat>, b: set<nat>, p: nat)
    requires p in a <==> p in b
    ensures CountLive(hs, a, p) == CountLive(hs, b, p)
  {
    if hs != [] {
      LiveDepends(hs[1..], a, b, p);
    }
  }

  /** What one frame does to promise p: nothing, or it takes p's only handler and resolves p. */
  lemma {:induction false} WalkAccounts(hs: seq<Handler>, active: set<nat>, f: Frame, p: nat)
    requires CountCarrying(hs, p) <= 1
    ensures var w := Walk(hs, active, f);
      && CountCarrying(w.kept, p) <= CountCarrying(hs, p)
      && (if w.resolution.Some? && w.resolution.value.promise == p then
            CountLive(hs, active, p) == 1 && CountCarrying(w.kept, p) == 0
          else
            CountLive(w.kept, active, p) == CountLive(hs, active, p)
            && (p in active ==> CountTimed(w.kept, p) == CountTimed(hs, p)))
    decreases |hs|
  {
    if hs != [] {
      var a := Handle(hs[0], active, f);
      LiveBounds(hs[1..], active, p);
      if !a.stop {
        WalkAccounts(hs[1..], active, f, p);
        var rest := Walk(hs[1..], active, f).kept;
        LiveBounds(rest, active, p);
        if !a.remove {
          assert ([hs[0]] + rest)[1..] == rest;
        } else {
          assert [] + rest == rest;
        }
      } else if !a.remove {
        assert [hs[0]] + hs[1..] == hs;
      } else {
        assert [] + hs[1..] == hs[1..];
      }
    }
  }

  lemma {:induction false} OrderFromLater(hs: seq<Handler>, created: seq<Handler>, from: nat, later: nat)
    requires from <= later && InCreationOrder(hs, created, later)
    ensures InCreationOrder(hs, created, from)
  {
  }

  lemma {:induction false} WalkKeepsOrder(hs: seq<Handler>, active: set<nat>, f: Frame, created: seq<Handler>,
      from: nat)
    requires InCreationOrder(hs, created, from)
    ensures InCreationOrder(Walk(hs, active, f).kept, created, from)
    decreases |hs|
  {
    if hs != [] {
      var a, rest := Handle(hs[0], active, f), Walk(hs[1..], active, f).kept;
      var later := hs[0].promise + 1;
      WalkKeepsOrder(hs[1..], active, f, created, later);
      OrderFromLater(hs[1..], created, from, later);
      OrderFromLater(rest, created, from, later);
      assert ([hs[0]] + rest)[1..] == rest && [hs[0]] + hs[1..] == hs;
      assert [] + rest == rest && [] + hs[1..] == hs[1..];
    }
  }

  /** Event handlers at the head of the list stay there. */
  lemma {:induction false} WalkKeepsHead(head: seq<Handler>, tail: seq<Handler>, active: set<nat>, f: Frame)
    requires forall h | h in head :: h.EventHandler?
    ensures var w := Walk(head + tail, active, f);
      w.kept == head + tail || w.kept == head + Walk(tail, active, f).kept
    decreases |head|
  {
    if head == [] {
      assert head + tail == tail && [] + Walk(tail, active, f).kept == Walk(tail, active, f).kept;
    } else {
      assert (head + tail)[1..] == head[1..] + tail && (head + tail)[0] == head[0];
      WalkKeepsHead(head[1..], tail, active, f);
      var kept := Walk(tail, active, f).kept;
      assert [head[0]] + (head[1..] + tail) == head + tail;
      assert [head[0]] + (head[1..] + kept) == head + kept;
    }
  }

  lemma {:induction false} OrderAppend(hs: seq<Handler>, h: Handler, created: seq<Handler>, from: nat)
    requires InCreationOrder(hs, created, from) && from <= |created|
    requires !h.EventHandler? && h.promise == |created|
    ensures InCreationOrder(hs + [h], created + [h], from)
  {
    if hs == [] {
      assert hs + [h] == [h];
    } else {
      OrderAppend(hs[1..], h, created, hs[0].promise + 1);
      assert (hs + [h])[1..] == hs[1..] + [h];
    }
  }

  lemma StepKeepsPermanent(s: Api, e: Event)
    requires KeepsPermanent(s)
    ensures KeepsPermanent(Step(s, e))
  {
    var tail := s.handlers[|PERMANENT|..];
    assert s.handlers == PERMANENT + tail;
    var after := Step(s, e).handlers;
    if e.FrameArrives? {
      WalkKeepsHead(PERMANENT, tail, s.active, e.frame);
      WalkKeepsOrder(tail, s.active, e.frame, s.created, 0);
      assert after[|PERMANENT|..] == tail || after[|PERMANENT|..] == Walk(tail, s.active, e.frame).kept;
    } else if !e.TimerFires? {
      var h := after[|s.handlers|];
      OrderAppend(tail, h, s.created, 0);
      assert after == PERMANENT + (tail + [h]);
      assert after[|PERMANENT|..] == tail + [h];
    }
  }

  lemma PushAccounts(s: Api, h: Handler, p: nat)
    requires !h.EventHandler? && h.promise == |s.created|
    requires Accounted(s, p) && Accounted(s, |s.created|)
    ensures Accounted(Push(s, h), p)
  {
    var next := Push(s, h);
    CountsAppend(s.handlers, h, next.active, p);
    if p != h.promise {
      LiveDepends(s.handlers, s.active, next.active, p);
    } else {
      LiveBounds(s.handlers, s.active, p);
      LiveBounds(s.handlers, next.active, p);
    }
  }

  lemma FrameAccounts(s: Api, f: Frame, p: nat)
    requires Accounted(s, p)
    ensures Accounted(Step(s, FrameArrives(f)), p)
  {
    var w, next := Walk(s.handlers, s.active, f), Step(s, FrameArrives(f));
    WalkAccounts(s.handlers, s.active, f, p);
    if w.resolution.Some? {
      ResolvedAppend(s.log, w.resolution.value, p);
      if w.resolution.value.promise == p {
        LiveBounds(next.handlers, next.active, p);
      } else {
        LiveDepends(next.handlers, s.active, next.active, p);
      }
    } else {
      assert s.log + [] == s.log;
    }
  }

  lemma TimerAccounts(s: Api, promise: nat, p: nat)
    requires Accounted(s, p)
    ensures Accounted(Step(s, TimerFires(promise)), p)
  {
    if promise in s.active {
      var active := s.active - {promise};
      ResolvedAppend(s.log, Resolution(promise, Timeout), p);
      if p == promise {
        LiveBounds(s.handlers, s.active, p);
        LiveBounds(s.handlers, active, p);
      } else {
        LiveDepends(s.handlers, s.active, active, p);
      }
    }
  }

  lemma StepKeepsInvariant(s: Api, e: Event)
    requires Invariant(s)
    ensures Invariant(Step(s, e))
  {
    StepKeepsPermanent(s, e);
    forall p: nat
      ensures Accounted(Step(s, e), p)
    {
      match e
      case Request(responses) => PushAccounts(s, RequestHandler(|s.created|, responses), p);
      case WaitFor(typ, command, timeout, prefix) =>
        PushAccounts(s, WaitHandler(|s.created|, typ, command, prefix, timeout > 0), p);
      case FrameArrives(f) => FrameAccounts(s, f, p);
      case TimerFires(promise) => TimerAccounts(s, promise, p);
    }
  }

  lemma {:induction false} RunInvariant(events: seq<Event>)
    ensures Invariant(Run(INITIAL, events))
  {
    if events != [] {
      RunInvariant(Front(events));
      StepKeepsInvariant(Run(INITIAL, Front(events)), Last(events));
    } else {
      forall p: nat
        ensures Accounted(INITIAL, p)
      {
        EventsCarryNothing(PERMANENT, p);
        LiveBounds(PERMANENT, {}, p);
      }
    }
  }

  lemma {:induction false} EventsCarryNothing(hs: seq<Handler>, p: nat)
    requires forall h | h in hs :: h.EventHandler?
    ensures CountCarrying(hs, p) == 0
  {
    if hs != [] {
      EventsCarryNothing(hs[1..], p);
    }
  }

  lemma {:induction false} ResolvedOnce(log: seq<Resolution>, i: nat, j: nat)
    requires i < |log| && j < |log| && log[i].promise == log[j].promise && i != j
    ensures CountResolved(log, log[i].promise) >= 2
  {
    if i == 0 {
      ResolvedAtLeastOnce(log[1..], j - 1);
    } else if j == 0 {
      ResolvedAtLeastOnce(log[1..], i - 1);
    } else {
      ResolvedOnce(log[1..], i - 1, j - 1);
    }
  }

  lemma {:induction false} ResolvedAtLeastOnce(log: seq<Resolution>, i: nat)
    requires i < |log|
    ensures CountResolved(log, log[i].promise) >= 1
  {
    if i > 0 {
      ResolvedAtLeastOnce(log[1..], i - 1);
    }
  }

  lemma {:induction false} OrderAt(hs: seq<Handler>, created: seq<Handler>, from: nat, i: nat)
    requires InCreationOrder(hs, created, from) && i < |hs|
    ensures !hs[i].EventHandler? && from <= hs[i].promise < |created| && created[hs[i].promise] == hs[i]
  {
    if i > 0 {
      OrderAt(hs[1..], created, hs[0].promise + 1, i - 1);
    }
  }

  lemma {:induction false} OrderAtBoth(hs: seq<Handler>, created: seq<Handler>, from: nat, i: nat, j: nat)
    requires InCreationOrder(hs, created, from) && i < j < |hs|
    ensures !hs[i].EventHandler? && !hs[j].EventHandler? && hs[i].promise < hs[j].promise
  {
    if i == 0 {
      OrderAt(hs[1..], created, hs[0].promise + 1, j - 1);
      OrderAt(hs, created, from, 0);
    } else {
      OrderAtBoth(hs[1..], created, hs[0].promise + 1, i - 1, j - 1);
    }
  }

  /** Over every run no promise is resolved twice, whether by a response, an RPC error or a
      timeout, and only promises that were made are resolved. */
  lemma NeverResolvedTwice(events: seq<Event>, i: nat, j: nat)
    requires i < |Run(INITIAL, events).log| && j < |Run(INITIAL, events).log|
    ensures var s := Run(INITIAL, events);
      s.log[i].promise < |s.created| && (s.log[i].promise == s.log[j].promise ==> i == j)
  {
    var s := Run(INITIAL, events);
    RunInvariant(events);
    var p := s.log[i].promise;
    assert Accounted(s, p);
    ResolvedAtLeastOnce(s.log, i);
    if p == s.log[j].promise && i != j {
      ResolvedOnce(s.log, i, j);
    }
  }

  /** After every run a promise that was made is either resolved, or some handler in the
      list can still resolve it: no promise is lost. */
  lemma NeverLost(events: seq<Event>, p: nat)
    requires p < |Run(INITIAL, events).created|
    ensures var s := Run(INITIAL, events);
      (exists r :: r in s.log && r.promise == p) != (exists h :: h in s.handlers && Carries(h, p) && Live(h, s.active))
  {
    var s := Run(INITIAL, events);
    RunInvariant(events);
    assert Accounted(s, p);
    ResolvedIff(s.log, p);
    LiveIff(s.handlers, s.active, p);
  }

  lemma {:induction false} ResolvedIff(log: seq<Resolution>, p: nat)
    ensures CountResolved(log, p) > 0 <==> exists r :: r in log && r.promise == p
  {
    if log != [] {
      ResolvedIff(log[1..], p);
      assert log == [log[0]] + log[1..];
    }
  }

  lemma {:induction false} LiveIff(hs: seq<Handler>, active: set<nat>, p: nat)
    ensures CountLive(hs, active, p) > 0 <==> exists h :: h in hs && Carries(h, p) && Live(h, active)
  {
    if hs != [] {
      LiveIff(hs[1..], active, p);
      assert hs == [hs[0]] + hs[1..];
    }
  }

  /** Over every run the constructor's handlers stay at the head of the list, and the
      requests and waits that survive stand in the order in which they were added. */
  lemma HandlersKeepTheirOrder(events: seq<Event>)
    ensures var hs := Run(INITIAL, events).handlers;
      && PERMANENT <= hs
      && (forall i :: |PERMANENT| <= i < |hs| ==> !hs[i].EventHandler?)
      && (forall i, j :: |PERMANENT| <= i < j < |hs| ==> hs[i].promise < hs[j].promise)
  {
    var s := Run(INITIAL, events);
    RunInvariant(events);
    var tail := s.handlers[|PERMANENT|..];
    forall i | |PERMANENT| <= i < |s.handlers|
      ensures !s.handlers[i].EventHandler?
    {
      OrderAt(tail, s.created, 0, i - |PERMANENT|);
    }
    forall i, j | |PERMANENT| <= i < j < |s.handlers|
      ensures s.handlers[i].promise < s.handlers[j].promise
    {
      OrderAtBoth(tail, s.created, 0, i - |PERMANENT|, j - |PERMANENT|);
    }
  }

  // ----- Requests for one command form a first-in first-out queue -----

  /** A request that accepts c accepts nothing else; none takes the RPC error command itself
      for its response; no wait is for a synchronous response of either command. */
  predicate PlainSet(responses: set<Command>, c: Command) {
    Command(RPC_ERROR, 0) !in responses && (c in responses ==> responses == {c})
  }

  predicate PlainWait(typ: nat, command: Command, c: Command) {
    typ == SRSP ==> command != c && command != Command(RPC_ERROR, 0)
  }

  predicate OwnOnly(e: Event, c: Command) {
    match e
    case Request(responses) => PlainSet(responses, c)
    case WaitFor(typ, command, _, _) => PlainWait(typ, command, c)
    case _ => true
  }

  predicate Plain(h: Handler, c: Command) {
    match h
    case EventHandler(_, _) => true
    case RequestHandler(_, responses) => PlainSet(responses, c)
    case WaitHandler(_, typ, command, _, _) => PlainWait(typ, command, c)
  }

  predicate Registered(h: Handler, created: seq<Handler>) {
    h.EventHandler? || (h.promise < |created| && created[h.promise] == h)
  }

  predicate Asks(h: Handler, c: Command) {
    h.RequestHandler? && h.responses == {c}
  }

  /** The command that a synchronous response or an RPC error answers, and how, read off the
      bytes: an RPC error holds a status, a synchronous request's type and subsystem, and a
      command. */
  function AnswerOf(f: Frame): Option<(Command, Outcome)> {
    if f.typ != 6 then None
    else if f.command != Command(0, 0) then Some((f.command, Response(f.payload)))
    else if |f.payload| == 3 && 0x20 <= f.payload[1] < 0x30 then
      Some((Command(f.payload[1] - 0x20, f.payload[2]), RpcError(f.payload[0])))
    else None
  }

  lemma RpcErrorIsAnswer(f: Frame)
    ensures RpcErrorOf(f).Some? <==> f.typ == 6 && f.command == Command(0, 0) && AnswerOf(f).Some?
    ensures RpcErrorOf(f).Some? ==>
      AnswerOf(f).value == (RpcErrorOf(f).value.0, RpcError(RpcErrorOf(f).value.1))
  {
    if RpcErrorOf(f).Some? {
      ModIs(f.payload[1], 16, 2, f.payload[1] - 0x20);
    } else if AnswerOf(f).Some? && f.command == Command(0, 0) {
      ModIs(f.payload[1], 16, 2, f.payload[1] - 0x20);
    }
  }

  predicate Answers(f: Frame, c: Command) {
    AnswerOf(f).Some? && AnswerOf(f).value.0 == c
  }

  /** The promises of the pending requests for c, in list order. */
  function Pending(hs: seq<Handler>, c: Command): seq<nat> {
    if hs == [] then []
    else (if Asks(hs[0], c) then [hs[0].promise] else []) + Pending(hs[1..], c)
  }

  /** The resolutions of promises made by requests for c. */
  function Answered(log: seq<Resolution>, created: seq<Handler>, c: Command): (r: seq<Resolution>)
    ensures |r| <= |log|
  {
    if log == [] then []
    else
      Answered(Front(log), created, c)
      + (if Last(log).promise < |created| && Asks(created[Last(log).promise], c) then [Last(log)] else [])
  }

  /** The promises of all requests for c over a run, numbered as the dispatcher numbers
      requests and waits together. */
  function Requested(events: seq<Event>, c: Command): seq<nat> {
    if events == [] then []
    else
      Requested(Front(events), c)
      + (if Last(events) == Request({c}) then [Made(Front(events))] else [])
  }

  function Made(events: seq<Event>): nat {
    if events == [] then 0
    else Made(Front(events)) + (if Last(events).Request? || Last(events).WaitFor? then 1 else 0)
  }

  /** The outcomes that arrive for c over a run, oldest first. */
  function Arrived(events: seq<Event>, c: Command): seq<Outcome> {
    if events == [] then []
    else
      Arrived(Front(events), c)
      + (if Last(events).FrameArrives? && Answers(Last(events).frame, c)
         then [AnswerOf(Last(events).frame).value.1] else [])
  }

  /** At each moment the answers for c do not outnumber its requests. */
  predicate Paced(events: seq<Event>, c: Command) {
    |Arrived(events, c)| <= |Requested(events, c)| && (events == [] || Paced(Front(events), c))
  }

  predicate OwnOnlyRun(events: seq<Event>, c: Command) {
    forall e :: e in events ==> OwnOnly(e, c)
  }

  /** One handler and one frame: the requests for c take the answers for c and nothing else
      does. */
  lemma HandleAnswer(h: Handler, active: set<nat>, f: Frame, c: Command)
    requires Plain(h, c)
    ensures Asks(h, c) && Answers(f, c) ==> Handle(h, active, f) == Action(true, true, Some(AnswerOf(f).value.1), false)
    ensures Asks(h, c) && !Answers(f, c) ==> Handle(h, active, f) == PASS
    ensures !Asks(h, c) && Answers(f, c) ==> !Handle(h, active, f).stop
  {
    RpcErrorIsAnswer(f);
  }

  predicate Known(hs: seq<Handler>, created: seq<Handler>, c: Command) {
    hs == [] || (Plain(hs[0], c) && Registered(hs[0], created) && Known(hs[1..], created, c))
  }

  /** How one frame meets the pending requests for c: an answer takes the oldest and
      resolves it; any other frame leaves them alone. */
  lemma {:induction false} WalkPending(hs: seq<Handler>, active: set<nat>, f: Frame, created: seq<Handler>, c: Command)
    requires Known(hs, created, c)
    ensures var w, pending := Walk(hs, active, f), Pending(hs, c);
      if Answers(f, c) && pending != [] then
        && w.resolution == Some(Resolution(pending[0], AnswerOf(f).value.1))
        && pending[0] < |created| && Asks(created[pending[0]], c)
        && Pending(w.kept, c) == pending[1..]
      else
        && Pending(w.kept, c) == pending
        && (w.resolution.Some? ==>
              w.resolution.value.promise < |created| && !Asks(created[w.resolution.value.promise], c))
    decreases |hs|
  {
    hide Handle, AnswerOf, Plain;
    if hs != [] {
      var a := Handle(hs[0], active, f);
      HandleAnswer(hs[0], active, f, c);
      ResolvesOwn(hs[0], active, f);
      if a.stop {
        assert [hs[0]] + hs[1..] == hs && [] + hs[1..] == hs[1..];
      } else {
        WalkPending(hs[1..], active, f, created, c);
        var rest := Walk(hs[1..], active, f).kept;
        assert ([hs[0]] + rest)[1..] == rest && [] + rest == rest;
      }
    }
  }

  lemma ResolvesOwn(h: Handler, active: set<nat>, f: Frame)
    ensures var a := Handle(h, active, f);
      (a.outcome.Some? ==> !h.EventHandler?) && (a.stop && a.outcome.None? ==> !a.remove)
      && (a.remove && !a.stop ==> h.WaitHandler?)
  {
  }

  /** The requests for c as a plain queue, with what was answered so far. */
  datatype Fifo = Fifo(waiting: seq<nat>, answered: seq<Resolution>)

  function FifoStep(q: Fifo, e: Event, next: nat, c: Command): Fifo {
    if e == Request({c}) then q.(waiting := q.waiting + [next])
    else if e.FrameArrives? && Answers(e.frame, c) && q.waiting != [] then
      Fifo(q.waiting[1..], q.answered + [Resolution(q.waiting[0], AnswerOf(e.frame).value.1)])
    else q
  }

  function FifoRun(events: seq<Event>, c: Command): Fifo {
    if events == [] then Fifo([], [])
    else FifoStep(FifoRun(Front(events), c), Last(events), Made(Front(events)), c)
  }

  function View(s: Api, c: Command): Fifo {
    Fifo(Pending(s.handlers, c), Answered(s.log, s.created, c))
  }

  lemma {:induction false} PendingAppend(hs: seq<Handler>, h: Handler, c: Command)
    ensures Pending(hs + [h], c) == Pending(hs, c) + (if Asks(h, c) then [h.promise] else [])
  {
    if hs == [] {
      assert hs + [h] == [h];
      assert [h][1..] == [];
    } else {
      PendingAppend(hs[1..], h, c);
      assert (hs + [h])[1..] == hs[1..] + [h];
    }
  }

  lemma {:induction false} AnsweredOfMore(log: seq<Resolution>, created: seq<Handler>, h: Handler, c: Command)
    requires forall r | r in log :: r.promise < |created|
    ensures Answered(log, created + [h], c) == Answered(log, created, c)
  {
    if log != [] {
      AnsweredOfMore(Front(log), created, h, c);
    }
  }

  /** Every handler is the one its promise was created with, every logged promise was made,
      and only waits have timers. */
  ghost predicate Traced(s: Api, c: Command) {
    && Known(s.handlers, s.created, c)
    && (forall r | r in s.log :: r.promise < |s.created|)
    && (forall p | p in s.active :: p < |s.created| && s.created[p].WaitHandler?)
  }

  lemma {:induction false} TimedIsWait(hs: seq<Handler>, created: seq<Handler>, p: nat, c: Command)
    requires CountTimed(hs, p) > 0 && Known(hs, created, c)
    ensures p < |created| && created[p].WaitHandler?
  {
    if !(Carries(hs[0], p) && hs[0].WaitHandler?) {
      TimedIsWait(hs[1..], created, p, c);
    }
  }

  lemma {:induction false} CreatedIsPlain(events: seq<Event>, c: Command)
    requires OwnOnlyRun(events, c)
    ensures var s := Run(INITIAL, events); |s.created| == Made(events) && forall h | h in s.created :: Plain(h, c)
  {
    if events != [] {
      CreatedIsPlain(Front(events), c);
      assert OwnOnly(Last(events), c);
    }
  }

  lemma {:induction false} OrderedAreKnown(hs: seq<Handler>, created: seq<Handler>, from: nat, c: Command)
    requires InCreationOrder(hs, created, from)
    requires forall h | h in created :: Plain(h, c)
    ensures Known(hs, created, c)
  {
    if hs != [] {
      OrderedAreKnown(hs[1..], created, hs[0].promise + 1, c);
    }
  }

  lemma {:induction false} EventsAreKnown(head: seq<Handler>, tail: seq<Handler>, created: seq<Handler>, c: Command)
    requires forall h | h in head :: h.EventHandler?
    requires Known(tail, created, c)
    ensures Known(head + tail, created, c)
  {
    if head == [] {
      assert head + tail == tail;
    } else {
      assert head[0] in head;
      EventsAreKnown(head[1..], tail, created, c);
      assert (head + tail)[1..] == head[1..] + tail;
    }
  }

  lemma RunIsTraced(events: seq<Event>, c: Command)
    requires OwnOnlyRun(events, c)
    ensures Traced(Run(INITIAL, events), c)
  {
    hide Run, CountTimed, CountLive, CountCarrying, CountResolved, Known, InCreationOrder, Plain;
    var s := Run(INITIAL, events);
    RunInvariant(events);
    CreatedIsPlain(events, c);
    var tail := s.handlers[|PERMANENT|..];
    assert s.handlers == PERMANENT + tail;
    OrderedAreKnown(tail, s.created, 0, c);
    EventsAreKnown(PERMANENT, tail, s.created, c);
    forall r | r in s.log
      ensures r.promise < |s.created|
    {
      var i :| 0 <= i < |s.log| && s.log[i] == r;
      ResolvedAtLeastOnce(s.log, i);
      assert Accounted(s, r.promise);
    }
    forall p | p in s.active
      ensures p < |s.created| && s.created[p].WaitHandler?
    {
      assert Accounted(s, p);
      TimedIsWait(s.handlers, s.created, p, c);
    }
  }

  lemma AnsweredAppend(log: seq<Resolution>, r: Resolution, created: seq<Handler>, c: Command)
    ensures Answered(log + [r], created, c)
         == Answered(log, created, c) + (if r.promise < |created| && Asks(created[r.promise], c) then [r] else [])
  {
    assert Front(log + [r]) == log;
  }

  lemma StepRefinesFifo(s: Api, e: Event, c: Command)
    requires Traced(s, c) && OwnOnly(e, c) && c != Command(RPC_ERROR, 0)
    ensures View(Step(s, e), c) == FifoStep(View(s, c), e, |s.created|, c)
  {
    hide Answered, Pending, AnswerOf, Plain, Walk;
    match e
    case Request(responses) =>
      var h := RequestHandler(|s.created|, responses);
      PendingAppend(s.handlers, h, c);
      AnsweredOfMore(s.log, s.created, h, c);
    case WaitFor(typ, command, timeout, prefix) =>
      var h := WaitHandler(|s.created|, typ, command, prefix, timeout > 0);
      PendingAppend(s.handlers, h, c);
      AnsweredOfMore(s.log, s.created, h, c);
    case FrameArrives(f) =>
      WalkPending(s.handlers, s.active, f, s.created, c);
      var w := Walk(s.handlers, s.active, f);
      if w.resolution.Some? {
        AnsweredAppend(s.log, w.resolution.value, s.created, c);
      } else {
        assert s.log + [] == s.log;
      }
    case TimerFires(promise) =>
      if promise in s.active {
        AnsweredAppend(s.log, Resolution(promise, Timeout), s.created, c);
      }
  }

  /** Whatever else is interleaved, the dispatcher treats the requests for c as a queue that
      its answers empty from the front. */
  lemma {:induction false} RefinesFifo(events: seq<Event>, c: Command)
    requires OwnOnlyRun(events, c) && c != Command(RPC_ERROR, 0)
    ensures View(Run(INITIAL, events), c) == FifoRun(events, c)
  {
    if events == [] {
      PermanentAsksNothing(PERMANENT, c);
    } else {
      var before := Front(events);
      RefinesFifo(before, c);
      RunIsTraced(before, c);
      CreatedIsPlain(before, c);
      assert OwnOnly(Last(events), c);
      StepRefinesFifo(Run(INITIAL, before), Last(events), c);
    }
  }

  lemma {:induction false} PermanentAsksNothing(hs: seq<Handler>, c: Command)
    requires forall h | h in hs :: h.EventHandler?
    ensures Pending(hs, c) == []
  {
    if hs != [] {
      assert hs[0] in hs;
      PermanentAsksNothing(hs[1..], c);
    }
  }

  /** The queue over a run: it always answers the requests in order, and it misses no answer
      exactly when the answers are paced by the requests. */
  lemma {:induction false} FifoInOrder(events: seq<Event>, c: Command)
    ensures var q, requested, arrived := FifoRun(events, c), Requested(events, c), Arrived(events, c);
      && |q.answered| <= |requested| && |q.answered| <= |arrived|
      && q.waiting == requested[|q.answered|..]
      && (forall k :: 0 <= k < |q.answered| ==> q.answered[k].promise == requested[k])
      && (|q.answered| == |arrived| <==> Paced(events, c))
      && (Paced(events, c) ==> forall k :: 0 <= k < |arrived| ==> q.answered[k].outcome == arrived[k])
  {
    if events != [] {
      FifoInOrder(Front(events), c);
    }
  }

  /** Main result. While answers for c never outnumber its requests, the k-th request for c
      is resolved by the k-th response or RPC error for c, and the later ones still wait;
      and that pacing is what it takes for every answer to resolve a request. */
  lemma KthAnswerResolvesKthRequest(events: seq<Event>, c: Command)
    requires OwnOnlyRun(events, c) && c != Command(RPC_ERROR, 0)
    ensures var s, requested, arrived := Run(INITIAL, events), Requested(events, c), Arrived(events, c);
      var answered := Answered(s.log, s.created, c);
      && (|answered| == |arrived| <==> Paced(events, c))
      && (Paced(events, c) ==>
            && |arrived| <= |requested|
            && (forall k :: 0 <= k < |arrived| ==> answered[k] == Resolution(requested[k], arrived[k]))
            && Pending(s.handlers, c) == requested[|arrived|..])
  {
    RefinesFifo(events, c);
    FifoInOrder(events, c);
  }

  /** One step resolves at most one promise, forgets nothing and makes at most one promise. */
  lemma StepResolvesAtMostOne(s: Api, e: Event)
    ensures var next := Step(s, e);
      && s.log <= next.log && |next.log| <= |s.log| + 1
      && s.created <= next.created && |next.created| <= |s.created| + 1
      && (e.FrameArrives? ==> |next.log| + |next.fired| <= |s.log| + |s.fired| + 1)
  {
    if e.FrameArrives? {
      FiresOrResolves(s.handlers, s.active, e.frame);
    }
  }

  lemma {:induction false} FiresOrResolves(hs: seq<Handler>, active: set<nat>, f: Frame)
    ensures Walk(hs, active, f).resolution.Some? ==> Walk(hs, active, f).fired.None?
    decreases |hs|
  {
    if hs != [] {
      FiresOrResolves(hs[1..], active, f);
    }
  }

  lemma {:induction false} EventFires(head: seq<Handler>, tail: seq<Handler>, active: set<nat>, f: Frame, i: nat)
    requires forall h | h in head :: h.EventHandler?
    requires i < |head| && f.typ == AREQ && f.command == head[i].event && Decodes(head[i].arguments, f.payload)
    requires forall j :: 0 <= j < i ==> head[j].event != f.command
    ensures Walk(head + tail, active, f) == Walked(head + tail, None, Some(head[i]))
    decreases i
  {
    assert (head + tail)[0] == head[0] && (head + tail)[1..] == head[1..] + tail;
    assert [head[0]] + (head[1..] + tail) == head + tail;
    if i > 0 {
      EventFires(head[1..], tail, active, f, i - 1);
    }
  }

  /** In every reachable state a well-formed event fires its signal and nothing else: a wait
      for the same command never sees it. */
  lemma EventsShadowWaits(events: seq<Event>, f: Frame, i: nat)
    requires i < |PERMANENT| && f.typ == AREQ && f.command == PERMANENT[i].event
    requires Decodes(PERMANENT[i].arguments, f.payload)
    ensures var s := Run(INITIAL, events);
      Step(s, FrameArrives(f)) == s.(fired := s.fired + [(PERMANENT[i], f.payload)])
  {
    var s := Run(INITIAL, events);
    RunInvariant(events);
    var tail := s.handlers[|PERMANENT|..];
    assert s.handlers == PERMANENT + tail;
    EventFires(PERMANENT, tail, s.active, f, i);
    assert s.log + [] == s.log;
  }

  /** h is a wait, not yet timed out, for a frame like f. */
  predicate Awaits(h: Handler, active: set<nat>, f: Frame) {
    h.WaitHandler? && Live(h, active) && h.typ == f.typ && h.command == f.command && h.prefix <= f.payload
  }

  predicate Heard(h: Handler, f: Frame) {
    h.EventHandler? && f.typ == AREQ && f.command == h.event && Decodes(h.arguments, f.payload)
  }

  /** h is a wait for f or a request that accepts f, or the command of an RPC error in it. */
  predicate Takes(h: Handler, active: set<nat>, f: Frame) {
    Awaits(h, active, f)
    || (h.RequestHandler? && f.typ == SRSP
        && (f.command in h.responses || (AnswerOf(f).Some? && AnswerOf(f).value.0 in h.responses)))
  }

  /** What f means to a handler that takes it. */
  predicate IsOutcome(h: Handler, f: Frame, outcome: Outcome) {
    if h.WaitHandler? then outcome.Response? && h.prefix + outcome.data == f.payload
    else if h.RequestHandler? && f.command in h.responses then outcome == Response(f.payload)
    else AnswerOf(f).Some? && outcome == AnswerOf(f).value.1
  }

  /** r is the answer of f to the first handler of hs that takes it. */
  ghost predicate AnswersFirstTaker(hs: seq<Handler>, active: set<nat>, f: Frame, r: Resolution) {
    exists i ::
      && 0 <= i < |hs| && Takes(hs[i], active, f) && r.promise == hs[i].promise && IsOutcome(hs[i], f, r.outcome)
      && forall j :: 0 <= j < i ==> !Takes(hs[j], active, f)
  }

  lemma HandleTakes(h: Handler, active: set<nat>, f: Frame)
    requires !Heard(h, f)
    ensures var a := Handle(h, active, f);
      && (a.stop <==> Takes(h, active, f)) && (a.stop <==> a.outcome.Some?)
      && (a.stop ==> !h.EventHandler? && IsOutcome(h, f, a.outcome.value))
  {
    RpcErrorIsAnswer(f);
    if Awaits(h, active, f) {
      assert h.prefix + f.payload[|h.prefix|..] == f.payload;
    }
  }

  /** Whatever the response sets and waits: a frame that no event handler hears goes to the
      first request or wait in the list that takes it, and to no other. */
  lemma {:induction false} FirstTakerIsAnswered(hs: seq<Handler>, active: set<nat>, f: Frame)
    requires forall h | h in hs :: !Heard(h, f)
    ensures match Walk(hs, active, f).resolution
      case None => forall h | h in hs :: !Takes(h, active, f)
      case Some(r) => AnswersFirstTaker(hs, active, f, r)
    decreases |hs|
  {
    hide Handle, Takes, Heard, IsOutcome;
    if hs != [] {
      assert hs[0] in hs && hs == [hs[0]] + hs[1..];
      HandleTakes(hs[0], active, f);
      var resolution := Walk(hs, active, f).resolution;
      if Takes(hs[0], active, f) {
        assert AnswersFirstTaker(hs, active, f, resolution.value);
      } else {
        FirstTakerIsAnswered(hs[1..], active, f);
        if resolution.Some? {
          LaterTaker(hs, active, f, resolution.value);
        }
      }
    }
  }

  lemma LaterTaker(hs: seq<Handler>, active: set<nat>, f: Frame, r: Resolution)
    requires hs != [] && !Takes(hs[0], active, f) && AnswersFirstTaker(hs[1..], active, f, r)
    ensures AnswersFirstTaker(hs, active, f, r)
  {
    hide IsOutcome;
    var rest := hs[1..];
    var i :| 0 <= i < |rest| && Takes(rest[i], active, f) && r.promise == rest[i].promise
      && IsOutcome(rest[i], f, r.outcome)
      && forall j :: 0 <= j < i ==> !Takes(rest[j], active, f);
    assert rest[i] == hs[i + 1];
    forall j | 0 <= j < i + 1
      ensures !Takes(hs[j], active, f)
    {
      assert j > 0 ==> hs[j] == rest[j - 1];
    }
  }

  lemma StepAnswersFirstTaker(events: seq<Event>, f: Frame)
    requires forall h | h in PERMANENT :: !Heard(h, f)
    ensures var s := Run(INITIAL, events); var log := Step(s, FrameArrives(f)).log;
      if exists h :: h in s.handlers && Takes(h, s.active, f) then
        |log| == |s.log| + 1 && s.log <= log && AnswersFirstTaker(s.handlers, s.active, f, log[|s.log|])
      else log == s.log
  {
    hide Takes, IsOutcome;
    var s := Run(INITIAL, events);
    HandlersKeepTheirOrder(events);
    forall h | h in s.handlers
      ensures !Heard(h, f)
    {
      var i :| 0 <= i < |s.handlers| && s.handlers[i] == h;
      assert i < |PERMANENT| ==> h == PERMANENT[i] && h in PERMANENT;
    }
    FirstTakerIsAnswered(s.handlers, s.active, f);
    assert s.log + [] == s.log;
  }

  /** r is the answer of f to the first wait for it in hs: what follows the wait's prefix. */
  ghost predicate AnswersFirstWait(hs: seq<Handler>, active: set<nat>, f: Frame, r: Resolution) {
    exists i ::
      && 0 <= i < |hs| && Awaits(hs[i], active, f) && r.promise == hs[i].promise
      && r.outcome.Response? && hs[i].prefix + r.outcome.data == f.payload
      && forall j :: 0 <= j < i ==> !Awaits(hs[j], active, f)
  }

  /** r gives the outcome to the first request in hs that accepts c. */
  ghost predicate AnswersFirstRequest(hs: seq<Handler>, c: Command, r: Resolution, outcome: Outcome) {
    exists i ::
      && 0 <= i < |hs| && Accepts(hs[i], c) && r == Resolution(hs[i].promise, outcome)
      && forall j :: 0 <= j < i ==> !Accepts(hs[j], c)
  }

  predicate Accepts(h: Handler, c: Command) {
    h.RequestHandler? && c in h.responses
  }

  /** In every reachable state, for arbitrary response sets: an answer for c that no wait takes
      resolves the oldest pending request that accepts c, with its outcome, and nothing when
      there is none. */
  lemma RequestsAreServedInOrder(events: seq<Event>, f: Frame, c: Command)
    requires Answers(f, c)
    requires forall h | h in Run(INITIAL, events).handlers ::
      !Awaits(h, Run(INITIAL, events).active, f) && !Accepts(h, Command(RPC_ERROR, 0))
    ensures var s := Run(INITIAL, events); var log := Step(s, FrameArrives(f)).log;
      if exists h :: h in s.handlers && Accepts(h, c) then
        && |log| == |s.log| + 1 && s.log <= log
        && AnswersFirstRequest(s.handlers, c, log[|s.log|], AnswerOf(f).value.1)
      else log == s.log
  {
    hide Awaits, Run, Step;
    var s := Run(INITIAL, events);
    var log := Step(s, FrameArrives(f)).log;
    StepAnswersFirstTaker(events, f);
    forall h | h in s.handlers
      ensures Takes(h, s.active, f) <==> Accepts(h, c)
    {
      assert !Awaits(h, s.active, f) && !Accepts(h, Command(RPC_ERROR, 0));
    }
    if exists h :: h in s.handlers && Accepts(h, c) {
      var r := log[|s.log|];
      var i :| 0 <= i < |s.handlers| && Takes(s.handlers[i], s.active, f) && r.promise == s.handlers[i].promise
        && IsOutcome(s.handlers[i], f, r.outcome) && forall j :: 0 <= j < i ==> !Takes(s.handlers[j], s.active, f);
      assert s.handlers[i] in s.handlers && Accepts(s.handlers[i], c);
      forall j | 0 <= j < i
        ensures !Accepts(s.handlers[j], c)
      {
        assert s.handlers[j] in s.handlers;
      }
    }
  }

  /** In every reachable state a frame that is no synchronous response and no well-formed
      event answers the oldest wait for it that has not timed out, with what follows the
      wait's prefix; and nothing else when there is none. */
  lemma WaitsAreServedInOrder(events: seq<Event>, f: Frame)
    requires f.typ != SRSP && forall h | h in PERMANENT :: !Heard(h, f)
    ensures var s := Run(INITIAL, events); var log := Step(s, FrameArrives(f)).log;
      if exists h :: h in s.handlers && Awaits(h, s.active, f) then
        |log| == |s.log| + 1 && s.log <= log && AnswersFirstWait(s.handlers, s.active, f, log[|s.log|])
      else log == s.log
  {
    hide Run, Step;
    var s := Run(INITIAL, events);
    var log := Step(s, FrameArrives(f)).log;
    StepAnswersFirstTaker(events, f);
    assert forall h :: Takes(h, s.active, f) <==> Awaits(h, s.active, f);
    if exists h :: h in s.handlers && Awaits(h, s.active, f) {
      assert AnswersFirstTaker(s.handlers, s.active, f, log[|s.log|]);
    }
  }

  // ----- The same from the bytes and the calls alone -----

  /** No wait takes f and no request accepts the RPC error command itself. */
  ghost predicate Unshared(s: Api, f: Frame) {
    forall h | h in s.handlers :: !Awaits(h, s.active, f) && !Accepts(h, Command(0, 0))
  }

  /** The oldest pending request that accepts c gets the outcome, or nothing happens when there
      is none. */
  ghost predicate OldestGets(s: Api, log: seq<Resolution>, c: Command, outcome: Outcome) {
    if exists h :: h in s.handlers && Accepts(h, c) then
      |log| == |s.log| + 1 && s.log <= log && AnswersFirstRequest(s.handlers, c, log[|s.log|], outcome)
    else log == s.log
  }

  /** In every reachable state the frame with status, type and subsystem, and command for its
      three bytes fails the oldest pending request for that command with that status. */
  lemma RpcErrorFailsOldestRequest(events: seq<Event>, status: byte, subsystem: nat, raw: byte)
    requires subsystem < 16
    requires Unshared(Run(INITIAL, events), Frame(6, Command(0, 0), [status, 0x20 + subsystem, raw]))
    ensures var s := Run(INITIAL, events);
      OldestGets(s, Step(s, FrameArrives(Frame(6, Command(0, 0), [status, 0x20 + subsystem, raw]))).log,
                 Command(subsystem, raw), RpcError(status))
  {
    var f := Frame(6, Command(0, 0), [status, 0x20 + subsystem, raw]);
    RpcErrorBytes(f, status, subsystem, raw);
    hide Run, Step, Awaits;
    RequestsAreServedInOrder(events, f, Command(subsystem, raw));
  }

  lemma RpcErrorBytes(f: Frame, status: byte, subsystem: nat, raw: byte)
    requires subsystem < 16 && f == Frame(6, Command(0, 0), [status, 0x20 + subsystem, raw])
    ensures AnswerOf(f) == Some((Command(subsystem, raw), RpcError(status)))
  {
    ModIs(0x20 + subsystem, 16, 2, subsystem);
  }

  /** With another length, or about another type than a synchronous request, it resolves
      nothing. */
  lemma OtherRpcErrorsAreIgnored(events: seq<Event>, payload: seq<byte>)
    requires |payload| != 3 || !(0x20 <= payload[1] < 0x30)
    requires Unshared(Run(INITIAL, events), Frame(6, Command(0, 0), payload))
    ensures var s := Run(INITIAL, events); Step(s, FrameArrives(Frame(6, Command(0, 0), payload))).log == s.log
  {
    var f := Frame(6, Command(0, 0), payload);
    NoRpcError(f, payload);
    hide Run, Step, Awaits;
    StepAnswersFirstTaker(events, f);
    var s := Run(INITIAL, events);
    forall h | h in s.handlers
      ensures !Takes(h, s.active, f)
    {
      assert !Awaits(h, s.active, f) && !Accepts(h, Command(0, 0));
    }
  }

  lemma NoRpcError(f: Frame, payload: seq<byte>)
    requires f == Frame(6, Command(0, 0), payload)
    requires |payload| != 3 || !(0x20 <= payload[1] < 0x30)
    ensures RpcErrorOf(f).None?
  {
  }

  /** In every reachable state any other synchronous response answers the oldest pending
      request for its command with its payload. */
  lemma ResponseAnswersOldestRequest(events: seq<Event>, c: Command, payload: seq<byte>)
    requires c != Command(0, 0) && Unshared(Run(INITIAL, events), Frame(6, c, payload))
    ensures var s := Run(INITIAL, events);
      OldestGets(s, Step(s, FrameArrives(Frame(6, c, payload))).log, c, Response(payload))
  {
    hide Run, Step, Awaits;
    RequestsAreServedInOrder(events, Frame(6, c, payload), c);
  }

  /** The requests and waits made over a run; promise p belongs to the one at place p. */
  function Calls(events: seq<Event>): seq<Event> {
    if events == [] then []
    else Calls(Front(events)) + (if Last(events).Request? || Last(events).WaitFor? then [Last(events)] else [])
  }

  /** h is the handler that the call e makes for promise p. */
  predicate MadeBy(h: Handler, e: Event, p: nat) {
    match e
    case Request(responses) => h == RequestHandler(p, responses)
    case WaitFor(typ, command, timeout, prefix) => h == WaitHandler(p, typ, command, prefix, timeout > 0)
    case _ => false
  }

  lemma {:induction false} CreatedByCalls(events: seq<Event>)
    ensures var created, calls := Run(INITIAL, events).created, Calls(events);
      |created| == |calls| && forall p :: 0 <= p < |calls| ==> MadeBy(created[p], calls[p], p)
  {
    if events != [] {
      CreatedByCalls(Front(events));
    }
  }

  /** In every reachable state, when the timer of promise p goes off: if p is a wait with a
      positive timeout that nothing has resolved yet, it is resolved with a timeout, and
      otherwise nothing is. */
  lemma TimersTimeOut(events: seq<Event>, p: nat)
    ensures var s, calls := Run(INITIAL, events), Calls(events);
      Step(s, TimerFires(p)).log
      == s.log + (if p < |calls| && calls[p].WaitFor? && calls[p].timeoutInSeconds > 0
                     && (forall r | r in s.log :: r.promise != p)
                  then [Resolution(p, Timeout)] else [])
  {
    var s, calls := Run(INITIAL, events), Calls(events);
    CreatedByCalls(events);
    RunInvariant(events);
    assert Accounted(s, p);
    ResolvedIff(s.log, p);
    OrderTraces(s, p);
    LiveBounds(s.handlers, s.active, p);
    assert s.log + [] == s.log;
  }

  /** A promise with a handler that carries it was made as that handler. */
  lemma OrderTraces(s: Api, p: nat)
    requires KeepsPermanent(s)
    ensures CountCarrying(s.handlers, p) > 0 ==> p < |s.created| && Carries(s.created[p], p)
    ensures CountTimed(s.handlers, p) > 0 ==> p < |s.created| && s.created[p].WaitHandler? && s.created[p].timed
    ensures CountCarrying(s.handlers, p) > 0 && s.created[p].WaitHandler? && s.created[p].timed
      ==> CountTimed(s.handlers, p) > 0
  {
    var tail := s.handlers[|PERMANENT|..];
    assert s.handlers == PERMANENT + tail;
    EventsCarryNothing(PERMANENT, p);
    CountsConcat(PERMANENT, tail, p);
    LiveBounds(PERMANENT, {}, p);
    TailTraces(tail, s.created, 0, p);
  }

  lemma {:induction false} CountsConcat(a: seq<Handler>, b: seq<Handler>, p: nat)
    ensures CountCarrying(a + b, p) == CountCarrying(a, p) + CountCarrying(b, p)
    ensures CountTimed(a + b, p) == CountTimed(a, p) + CountTimed(b, p)
  {
    if a == [] {
      assert a + b == b;
    } else {
      CountsConcat(a[1..], b, p);
      assert (a + b)[1..] == a[1..] + b;
    }
  }

  lemma {:induction false} TailTraces(hs: seq<Handler>, created: seq<Handler>, from: nat, p: nat)
    requires InCreationOrder(hs, created, from)
    ensures CountCarrying(hs, p) > 0 ==> p < |created| && Carries(created[p], p)
    ensures CountTimed(hs, p) > 0 ==> p < |created| && created[p].WaitHandler? && created[p].timed
    ensures CountCarrying(hs, p) > 0 && created[p].WaitHandler? && created[p].timed ==> CountTimed(hs, p) > 0
  {
    if hs != [] {
      TailTraces(hs[1..], created, hs[0].promise + 1, p);
    }
  }

  // ----- The object -----

  /** A call that code waiting for a result makes as soon as it has it. */
  datatype Call =
    | Ask(command: Command, responses: set<Command>, payload: seq<byte>)
    | Await(typ: nat, command: Command, timeoutInSeconds: int, prefix: seq<byte>)

  function EventOf(c: Call): Event {
    match c
    case Ask(_, responses, _) => Request(responses)
    case Await(typ, command, timeout, prefix) => WaitFor(typ, command, timeout, prefix)
  }

  function HandlerOf(c: Call, promise: nat): Handler {
    match c
    case Ask(_, responses, _) => RequestHandler(promise, responses)
    case Await(typ, command, timeout, prefix) => WaitHandler(promise, typ, command, prefix, timeout > 0)
  }

  function MakeAll(s: Api, calls: seq<Call>): Api
    decreases |calls|
  {
    if calls == [] then s else MakeAll(Step(s, EventOf(calls[0])), calls[1..])
  }

  function Requests(calls: seq<Call>): seq<Frame> {
    if calls == [] then []
    else (if calls[0].Ask? then [Frame(SREQ, calls[0].command, calls[0].payload)] else []) + Requests(calls[1..])
  }

  function HandlersOf(calls: seq<Call>, from: nat): (hs: seq<Handler>) {
    if calls == [] then [] else [HandlerOf(calls[0], from)] + HandlersOf(calls[1..], from + 1)
  }

  function TimersOf(calls: seq<Call>, from: nat): set<nat> {
    if calls == [] then {}
    else (if calls[0].Await? && calls[0].timeoutInSeconds > 0 then {from} else {}) + TimersOf(calls[1..], from + 1)
  }

  lemma {:induction false} MakeAllAppends(s: Api, calls: seq<Call>)
    ensures var from := |s.created|; var added := HandlersOf(calls, from);
      MakeAll(s, calls) == s.(handlers := s.handlers + added, created := s.created + added,
                              active := s.active + TimersOf(calls, from))
    decreases |calls|
  {
    if calls == [] {
      assert s.handlers + [] == s.handlers && s.created + [] == s.created && s.active + {} == s.active;
    } else {
      MakeAllAppends(Step(s, EventOf(calls[0])), calls[1..]);
      var h := HandlerOf(calls[0], |s.created|);
      var later := HandlersOf(calls[1..], |s.created| + 1);
      assert (s.handlers + [h]) + later == s.handlers + ([h] + later);
      assert (s.created + [h]) + later == s.created + ([h] + later);
    }
  }

  lemma {:induction false} TimersAreNew(calls: seq<Call>, from: nat)
    ensures forall p | p in TimersOf(calls, from) :: p >= from
  {
    if calls != [] {
      TimersAreNew(calls[1..], from + 1);
    }
  }

  lemma {:induction false} UntimedOutnumber(hs: seq<Handler>, i: nat, p: nat)
    requires i < |hs| && Carries(hs[i], p) && !(hs[i].WaitHandler? && hs[i].timed)
    ensures CountTimed(hs, p) < CountCarrying(hs, p)
  {
    LiveBounds(hs[1..], {}, p);
    if i > 0 {
      UntimedOutnumber(hs[1..], i - 1, p);
    }
  }

  /** Only timed waits have a flag that is set. */
  lemma UntimedHaveNoFlag(s: Api, i: nat)
    requires Invariant(s) && i < |s.handlers|
    requires !s.handlers[i].EventHandler? && !(s.handlers[i].WaitHandler? && s.handlers[i].timed)
    ensures s.handlers[i].promise !in s.active
  {
    var p := s.handlers[i].promise;
    assert Accounted(s, p);
    UntimedOutnumber(s.handlers, i, p);
  }

  lemma MadeBefore(s: Api, i: nat)
    requires Invariant(s) && i < |s.handlers| && !s.handlers[i].EventHandler?
    ensures s.handlers[i].promise < |s.created|
  {
    if i >= |PERMANENT| {
      OrderAt(s.handlers[|PERMANENT|..], s.created, 0, i - |PERMANENT|);
    }
  }

  lemma {:induction false} MakeAllKeepsInvariant(s: Api, calls: seq<Call>)
    requires Invariant(s)
    ensures Invariant(MakeAll(s, calls))
    decreases |calls|
  {
    if calls != [] {
      StepKeepsInvariant(s, EventOf(calls[0]));
      MakeAllKeepsInvariant(Step(s, EventOf(calls[0])), calls[1..]);
    }
  }

  /** What handler h does to the outside and to its flag when f reaches it, its result being
      reacted to on the spot. */
  function Fire(s: Api, h: Handler, f: Frame, reaction: seq<Call>): Api {
    var a := Handle(h, s.active, f);
    if a.outcome.Some? then
      MakeAll(s.(log := s.log + [Resolution(h.promise, a.outcome.value)], active := s.active - {h.promise}), reaction)
    else if a.fires then MakeAll(s.(fired := s.fired + [(h, f.payload)]), reaction)
    else s
  }

  /** A frame with its reaction: the frame first, then, if anything came of it, the calls. */
  function FrameThenCalls(s: Api, f: Frame, reaction: seq<Call>): Api {
    var w := Walk(s.handlers, s.active, f);
    if w.resolution.Some? || w.fired.Some? then MakeAll(Step(s, FrameArrives(f)), reaction)
    else Step(s, FrameArrives(f))
  }

  lemma HandlerIsSound(s: Api, h: Handler)
    requires Invariant(s) && h in s.handlers
    ensures !h.EventHandler? ==> h.promise < |s.created|
    ensures !h.EventHandler? && !(h.WaitHandler? && h.timed) ==> h.promise !in s.active
  {
    var i :| 0 <= i < |s.handlers| && s.handlers[i] == h;
    if !h.EventHandler? {
      MadeBefore(s, i);
      if !(h.WaitHandler? && h.timed) {
        UntimedHaveNoFlag(s, i);
      }
    }
  }

  lemma FrameThenCallsKeepsInvariant(s: Api, f: Frame, reaction: seq<Call>)
    requires Invariant(s)
    ensures Invariant(FrameThenCalls(s, f, reaction))
  {
    StepKeepsInvariant(s, FrameArrives(f));
    MakeAllKeepsInvariant(Step(s, FrameArrives(f)), reaction);
  }

  /** The rest of a walk that has come to handler i of the list as it is now: what it leaves
      alone is in front. */
  predicate Underway(s: Api, f: Frame, hs: seq<Handler>, i: nat)
    requires i <= |hs|
  {
    var w, v := Walk(s.handlers, s.active, f), Walk(hs[i..], s.active, f);
    w == Walked(hs[..i] + v.kept, v.resolution, v.fired)
  }

  function Erase(hs: seq<Handler>, i: nat): seq<Handler>
    requires i < |hs|
  {
    hs[..i] + hs[i + 1..]
  }

  lemma WalkPasses(h: Handler, tail: seq<Handler>, active: set<nat>, f: Frame)
    requires !Handle(h, active, f).stop
    ensures var a, v := Handle(h, active, f), Walk(tail, active, f);
      Walk([h] + tail, active, f) == Walked((if a.remove then [] else [h]) + v.kept, v.resolution, v.fired)
  {
    assert ([h] + tail)[0] == h && ([h] + tail)[1..] == tail;
  }

  lemma WalkStops(h: Handler, tail: seq<Handler>, active: set<nat>, f: Frame)
    requires Handle(h, active, f).stop
    ensures var a := Handle(h, active, f);
      Walk([h] + tail, active, f) == Walked(
        (if a.remove then [] else [h]) + tail,
        if a.outcome.Some? then Some(Resolution(h.promise, a.outcome.value)) else None,
        if a.fires then Some(h) else None)
  {
    assert ([h] + tail)[0] == h && ([h] + tail)[1..] == tail;
  }

  lemma PassesOn(s: Api, f: Frame, hs: seq<Handler>, i: nat, reaction: seq<Call>)
    requires i < |hs| && Underway(s, f, hs, i)
    requires !Handle(hs[i], s.active, f).stop
    ensures if Handle(hs[i], s.active, f).remove then Underway(s, f, Erase(hs, i), i) else Underway(s, f, hs, i + 1)
    ensures Fire(s.(handlers := hs), hs[i], f, reaction) == s.(handlers := hs)
  {
    hide Handle, Walk;
    var front, h, tail := hs[..i], hs[i], hs[i + 1..];
    StopsHaveEffect(h, s.active, f);
    WalkPasses(h, tail, s.active, f);
    var v := Walk(tail, s.active, f);
    assert hs[i..] == [h] + tail;
    if Handle(h, s.active, f).remove {
      assert Erase(hs, i)[i..] == tail && Erase(hs, i)[..i] == front;
      assert [] + v.kept == v.kept;
    } else {
      assert hs[..i + 1] == front + [h];
      assert front + ([h] + v.kept) == (front + [h]) + v.kept;
    }
  }

  lemma WalkStarts(s: Api, f: Frame)
    ensures Underway(s, f, s.handlers, 0)
  {
    assert s.handlers[0..] == s.handlers;
    assert s.handlers[..0] + Walk(s.handlers, s.active, f).kept == Walk(s.handlers, s.active, f).kept;
  }

  lemma WalkEnds(s: Api, f: Frame, hs: seq<Handler>)
    requires Underway(s, f, hs, |hs|)
    ensures FrameThenCalls(s, f, []) == s.(handlers := hs) == Step(s, FrameArrives(f))
    ensures Walk(s.handlers, s.active, f) == Walked(hs, None, None)
  {
    assert hs[|hs|..] == [] && hs[..|hs|] + [] == hs;
    assert s.log + [] == s.log && s.fired + [] == s.fired;
  }

  /** Erasing a handler after calls have appended to the list, or before: it is the same. */
  lemma CallsThenErase(s: Api, i: nat, calls: seq<Call>)
    requires i < |s.handlers|
    ensures var made := MakeAll(s, calls);
      |made.handlers| >= |s.handlers|
      && MakeAll(s.(handlers := Erase(s.handlers, i)), calls) == made.(handlers := Erase(made.handlers, i))
  {
    hide MakeAll, HandlersOf, TimersOf;
    MakeAllAppends(s, calls);
    MakeAllAppends(s.(handlers := Erase(s.handlers, i)), calls);
    var added := HandlersOf(calls, |s.created|);
    assert Erase(s.handlers + added, i) == Erase(s.handlers, i) + added;
  }

  lemma CallsKeepLength(s: Api, calls: seq<Call>)
    ensures |MakeAll(s, calls).handlers| >= |s.handlers|
  {
    MakeAllAppends(s, calls);
  }

  lemma StopsWalk(s: Api, f: Frame, hs: seq<Handler>, i: nat)
    requires i < |hs| && Underway(s, f, hs, i)
    requires Handle(hs[i], s.active, f).stop
    ensures var a := Handle(hs[i], s.active, f);
      Walk(s.handlers, s.active, f) == Walked(
        if a.remove then Erase(hs, i) else hs,
        if a.outcome.Some? then Some(Resolution(hs[i].promise, a.outcome.value)) else None,
        if a.fires then Some(hs[i]) else None)
  {
    hide Handle, Walk;
    var front, h, tail := hs[..i], hs[i], hs[i + 1..];
    assert hs[i..] == [h] + tail;
    WalkStops(h, tail, s.active, f);
    assert hs == front + ([h] + tail) && Erase(hs, i) == front + ([] + tail);
  }

  lemma StopsHere(s: Api, f: Frame, hs: seq<Handler>, i: nat, reaction: seq<Call>)
    requires i < |hs| && Underway(s, f, hs, i)
    requires Handle(hs[i], s.active, f).stop
    ensures var a, t := Handle(hs[i], s.active, f), Fire(s.(handlers := hs), hs[i], f, reaction);
      && |t.handlers| >= |hs| && (a.outcome.Some? || a.fires)
      && FrameThenCalls(s, f, reaction) == t.(handlers := if a.remove then Erase(t.handlers, i) else t.handlers)
      && (|Step(s, FrameArrives(f)).log| + |Step(s, FrameArrives(f)).fired| > |s.log| + |s.fired|)
  {
    hide Handle, MakeAll, Walk, Underway, Erase;
    StopsWalk(s, f, hs, i);
    StopsHaveEffect(hs[i], s.active, f);
    assert s.log + [] == s.log && s.fired + [] == s.fired;
    var next := Step(s, FrameArrives(f)).(handlers := hs);
    CallsThenErase(next, i, reaction);
    CallsKeepLength(next, reaction);
  }

  lemma StopsHaveEffect(h: Handler, active: set<nat>, f: Frame)
    ensures var a := Handle(h, active, f);
      && (a.stop <==> a.outcome.Some? || a.fires) && (a.outcome.Some? ==> !a.fires)
  {
  }

  function EventsOf(calls: seq<Call>): seq<Event> {
    if calls == [] then [] else [EventOf(calls[0])] + EventsOf(calls[1..])
  }

  lemma RunAppend(events: seq<Event>, e: Event)
    ensures Run(INITIAL, events + [e]) == Step(Run(INITIAL, events), e)
  {
    assert Front(events + [e]) == events;
  }

  lemma {:induction false} MakeAllIsRun(events: seq<Event>, calls: seq<Call>)
    ensures MakeAll(Run(INITIAL, events), calls) == Run(INITIAL, events + EventsOf(calls))
    decreases |calls|
  {
    hide Run, Step;
    if calls == [] {
      assert events + [] == events;
    } else {
      RunAppend(events, EventOf(calls[0]));
      MakeAllIsRun(events + [EventOf(calls[0])], calls[1..]);
      assert events + [EventOf(calls[0])] + EventsOf(calls[1..]) == events + EventsOf(calls);
    }
  }

  /** A frame with its reaction is a run: the frame, and then, if it resolved a promise or
      fired a signal, the calls. */
  lemma ReactionsAreRuns(events: seq<Event>, f: Frame, reaction: seq<Call>)
    ensures var s, next := Run(INITIAL, events), Run(INITIAL, events + [FrameArrives(f)]);
      FrameThenCalls(s, f, reaction)
      == if next.log != s.log || next.fired != s.fired then
           Run(INITIAL, events + [FrameArrives(f)] + EventsOf(reaction))
         else next
  {
    var s := Run(INITIAL, events);
    RunAppend(events, FrameArrives(f));
    MakeAllIsRun(events + [FrameArrives(f)], reaction);
    var w := Walk(s.handlers, s.active, f);
    if w.resolution.Some? {
      assert |s.log + [w.resolution.value]| == |s.log| + 1;
    }
    if w.fired.Some? {
      assert |s.fired + [(w.fired.value, f.payload)]| == |s.fired| + 1;
    }
    assert s.log + [] == s.log && s.fired + [] == s.fired;
  }

  /** handlers is the source's list of closures, active the flags the timed ones share with
      their timers; log, fired and sent are what the object did to the outside. */
  class ZnpApi {
    var handlers: seq<Handler>
    var active: set<nat>
    var promises: nat
    var log: seq<Resolution>
    var fired: seq<(Handler, seq<byte>)>
    var sent: seq<Frame>
    ghost var created: seq<Handler>

    ghost function State(): Api
      reads this
    {
      Api(handlers, active, created, log, fired)
    }

    ghost predicate Valid()
      reads this
    {
      Invariant(State()) && promises == |created|
    }

    constructor ()
      ensures Valid() && State() == INITIAL && sent == []
    {
      handlers, active, promises, log, fired, sent, created := [], {}, 0, [], [], [], [];
      new;
      AddSimpleEventHandler(Command(1, 0x80), Fixed(6));
      AddSimpleEventHandler(Command(5, 0xC0), Fixed(1));
      AddSimpleEventHandler(Command(5, 0xC1), Fixed(13));
      AddSimpleEventHandler(Command(5, 0xCA), Fixed(12));
      AddSimpleEventHandler(Command(5, 0xCB), Fixed(1));
      AddSimpleEventHandler(Command(4, 0x81), IncomingMsg);
      RunInvariant([]);
      assert State() == INITIAL == Run(INITIAL, []);
    }

    method AddSimpleEventHandler(command: Command, arguments: Arguments)
      modifies this
      ensures State() == old(State()).(handlers := old(handlers) + [EventHandler(command, arguments)])
      ensures sent == old(sent) && promises == old(promises)
    {
      handlers := handlers + [EventHandler(command, arguments)];
    }

    /** The request's handler is in the list before its frame goes out. Reactions call this in
        the middle of a walk, so it asks for less than Valid. */
    method RawSReq(command: Command, responses: set<Command>, payload: seq<byte>) returns (promise: nat)
      requires promises == |created|
      modifies this
      ensures promises == |created| && promise == old(promises)
      ensures State() == Step(old(State()), Request(responses))
      ensures sent == old(sent) + [Frame(SREQ, command, payload)]
      ensures old(Valid()) ==> Valid()
    {
      ghost var before := State();
      promise := promises;
      var h := RequestHandler(promise, responses);
      handlers, created, promises := handlers + [h], created + [h], promises + 1;
      sent := sent + [Frame(SREQ, command, payload)];
      if Invariant(before) {
        StepKeepsInvariant(before, Request(responses));
      }
    }

    method WaitFor(typ: nat, command: Command, timeoutInSeconds: int, prefix: seq<byte>) returns (promise: nat)
      requires promises == |created|
      modifies this
      ensures promises == |created| && promise == old(promises)
      ensures State() == Step(old(State()), Event.WaitFor(typ, command, timeoutInSeconds, prefix))
      ensures sent == old(sent)
      ensures old(Valid()) ==> Valid()
    {
      ghost var before := State();
      promise := promises;
      AddHandlerWithTimeout(timeoutInSeconds, WaitHandler(promise, typ, command, prefix, timeoutInSeconds > 0));
      if Invariant(before) {
        StepKeepsInvariant(before, Event.WaitFor(typ, command, timeoutInSeconds, prefix));
      }
    }

    method AddHandlerWithTimeout(timeoutInSeconds: int, h: Handler)
      requires h.WaitHandler? && h.timed == (timeoutInSeconds > 0) && promises == |created|
      modifies this
      ensures State() == Push(old(State()), h)
      ensures sent == old(sent) && promises == |created|
    {
      if timeoutInSeconds > 0 {
        active := active + {h.promise};
      }
      handlers, created, promises := handlers + [h], created + [h], promises + 1;
    }

    method TimerFires(promise: nat)
      requires Valid()
      modifies this
      ensures Valid() && State() == Step(old(State()), Event.TimerFires(promise)) && sent == old(sent)
    {
      StepKeepsInvariant(State(), Event.TimerFires(promise));
      if promise in active {
        active := active - {promise};
        log := log + [Resolution(promise, Timeout)];
      }
    }

    method React(reaction: seq<Call>)
      requires promises == |created|
      modifies this
      ensures State() == MakeAll(old(State()), reaction) && sent == old(sent) + Requests(reaction)
      ensures promises == |created|
    {
      hide Step, Invariant, HandlersOf;
      ghost var before, already := State(), sent;
      assert reaction[0..] == reaction;
      for i := 0 to |reaction|
        invariant promises == |created|
        invariant MakeAll(State(), reaction[i..]) == MakeAll(before, reaction)
        invariant sent + Requests(reaction[i..]) == already + Requests(reaction)
      {
        assert reaction[i..][0] == reaction[i] && reaction[i..][1..] == reaction[i + 1..];
        var promise: nat;
        match reaction[i]
        case Ask(command, responses, payload) => promise := RawSReq(command, responses, payload);
        case Await(typ, command, timeout, prefix) => promise := WaitFor(typ, command, timeout, prefix);
      }
    }

    /** One closure of the list: the promise runs its continuations before the shared flag
        is cleared. */
    method CallHandler(h: Handler, f: Frame, reaction: seq<Call>) returns (action: Action)
      requires promises == |created|
      requires !h.EventHandler? ==> h.promise < |created|
      requires !h.EventHandler? && !(h.WaitHandler? && h.timed) ==> h.promise !in active
      modifies this
      ensures action == Handle(h, old(active), f)
      ensures State() == Fire(old(State()), h, f, reaction)
      ensures sent == old(sent) + (if action.outcome.Some? || action.fires then Requests(reaction) else [])
      ensures promises == |created|
    {
      hide Handle, MakeAll, Requests, HandlersOf, TimersOf;
      action := Handle(h, active, f);
      ghost var before := State();
      if action.outcome.Some? {
        assert !h.EventHandler? by { ResolvesOwn(h, active, f); }
        var resolution := Resolution(h.promise, action.outcome.value);
        log := log + [resolution];
        ghost var resolved := State();
        React(reaction);
        TimersAreNew(reaction, |before.created|);
        MakeAllAppends(resolved, reaction);
        MakeAllAppends(resolved.(active := before.active - {h.promise}), reaction);
        if h.WaitHandler? && h.timed {
          active := active - {h.promise};
        }
        assert active == before.active - {h.promise} + TimersOf(reaction, |before.created|);
      } else if action.fires {
        fired := fired + [(h, f.payload)];
        React(reaction);
      }
    }

    /** The walk in place: an index into the list that is erased from and, by reactions,
        appended to while the walk is under way. */
    method OnFrame(f: Frame, reaction: seq<Call>)
      requires Valid()
      modifies this
      ensures Valid() && State() == FrameThenCalls(old(State()), f, reaction)
      ensures var next := Step(old(State()), FrameArrives(f));
        sent == old(sent) + (if |next.log| + |next.fired| > |old(log)| + |old(fired)| then Requests(reaction) else [])
    {
      hide Handle, MakeAll, Requests, Walk, Fire, Underway, Invariant;
      ghost var before := State();
      FrameThenCallsKeepsInvariant(before, f, reaction);
      var i := 0;
      WalkStarts(before, f);
      while i < |handlers|
        invariant i <= |handlers|
        invariant State() == before.(handlers := handlers) && promises == |created| && sent == old(sent)
        invariant forall h | h in handlers :: h in before.handlers
        invariant Underway(before, f, handlers, i)
      {
        ghost var hs, h := handlers, handlers[i];
        HandlerIsSound(before, h);
        StopsHaveEffect(h, active, f);
        if Handle(h, active, f).stop {
          StopsHere(before, f, hs, i, reaction);
        } else {
          PassesOn(before, f, hs, i, reaction);
        }
        var action := CallHandler(handlers[i], f, reaction);
        if action.remove {
          handlers := Erase(handlers, i);
        } else {
          i := i + 1;
        }
        if action.stop {
          return;
        }
      }
      WalkEnds(before, f, handlers);
    }
  }
}
