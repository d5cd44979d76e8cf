/**
 A ZCL endpoint: it drops a message that repeats the last one from its sender, signals the
 commands it receives, and numbers the commands it sends, per device.
 */
module ZclEndpoint {
  import opened Bytes
  import opened ZclFrame

  type Address = nat

  datatype IncomingMsg = IncomingMsg(source: Address, sourceEndpoint: byte, endpoint: byte, cluster: nat,
      data: seq<byte>)

  /** What on_command_ is signalled with. */
  datatype Signal = Signal(source: Address, sourceEndpoint: byte, cluster: nat, isGlobal: bool, direction: nat,
                           command: byte, payload: seq<byte>)

  datatype Command = Command(address: Address, endpoint: byte, cluster: nat, isGlobal: bool, direction: nat,
                             command: byte, payload: seq<byte>)

  datatype Sent = Sent(address: Address, endpoint: byte, cluster: nat, data: seq<byte>)

  function Last<T>(s: seq<T>): T
    requires s != []
  {
    s[|s| - 1]
  }

  function Front<T>(s: seq<T>): seq<T>
    requires s != []
  {
    s[..|s| - 1]
  }

  // ----- What should be heard -----

  /** The messages for this endpoint from one device. */
  function From(received: seq<IncomingMsg>, endpoint: byte, a: Address): seq<IncomingMsg> {
    if received == [] then []
    else
      From(Front(received), endpoint, a)
      + (if Last(received).source == a && Last(received).endpoint == endpoint then [Last(received)] else [])
  }

  /** The data of the last message, or no data before there is one. */
  function LastData(messages: seq<IncomingMsg>): seq<byte> {
    if messages == [] then [] else Last(messages).data
  }

  /** Without the messages whose data repeats the data just before, starting from no data. */
  function WithoutRepeats(messages: seq<IncomingMsg>): seq<IncomingMsg> {
    if messages == [] then []
    else
      WithoutRepeats(Front(messages))
      + (if Last(messages).data == LastData(Front(messages)) then [] else [Last(messages)])
  }

  /** The signal a message that is decoded gives rise to, if it is a frame of a known type. */
  function SignalOf(m: IncomingMsg): Option<Signal> {
    match DecodeFrame(m.data)
    case None => None
    case Some(f) =>
      if f.frameType == GLOBAL || f.frameType == LOCAL then
        Some(Signal(m.source, m.sourceEndpoint, m.cluster, f.frameType == GLOBAL, f.direction, f.command, f.payload))
      else None
  }

  function SignalsOf(messages: seq<IncomingMsg>): seq<Signal> {
    if messages == [] then []
    else SignalsOf(Front(messages)) + (match SignalOf(Last(messages)) case None => [] case Some(x) => [x])
  }

  function SignalsFrom(signals: seq<Signal>, a: Address): seq<Signal> {
    if signals == [] then []
    else SignalsFrom(Front(signals), a) + (if Last(signals).source == a then [Last(signals)] else [])
  }

  function SentTo(sent: seq<Sent>, a: Address): seq<Sent> {
    if sent == [] then []
    else SentTo(Front(sent), a) + (if Last(sent).address == a then [Last(sent)] else [])
  }

  function CommandsTo(commands: seq<Command>, a: Address): seq<Command> {
    if commands == [] then []
    else CommandsTo(Front(commands), a) + (if Last(commands).address == a then [Last(commands)] else [])
  }

  function FrameOf(c: Command, sequence: byte): Frame {
    Frame(if c.isGlobal then GLOBAL else LOCAL, None, c.direction, false, 0, sequence, c.command, c.payload)
  }

  predicate ValidCommand(c: Command) {
    c.direction < 2
  }

  // ----- The endpoint as a state machine -----

  datatype State = State(last: map<Address, seq<byte>>, numbers: map<Address, byte>, signals: seq<Signal>,
      sent: seq<Sent>)

  const INITIAL := State(map[], map[], [], [])

  datatype Event = Receive(message: IncomingMsg) | Send(command: Command)

  /** A map lookup that makes the entry when it is missing. */
  function LastFrom(last: map<Address, seq<byte>>, a: Address): seq<byte> {
    if a in last then last[a] else []
  }

  function NumberFor(numbers: map<Address, byte>, a: Address): byte {
    if a in numbers then numbers[a] else 0
  }

  function Step(endpoint: byte, s: State, e: Event): State
    requires e.Send? ==> ValidCommand(e.command)
  {
    match e
    case Receive(m) =>
      if m.endpoint != endpoint then s
      else
        var next := s.(last := s.last[m.source := m.data]);
        if LastFrom(s.last, m.source) == m.data then next
        else next.(signals := s.signals + (match SignalOf(m) case None => [] case Some(x) => [x]))
    case Send(c) =>
      var number := NumberFor(s.numbers, c.address);
      s.(numbers := s.numbers[c.address := (number + 1) % 256],
         sent := s.sent + [Sent(c.address, c.endpoint, c.cluster, EncodeFrame(FrameOf(c, number)))])
  }

  predicate ValidEvents(events: seq<Event>) {
    forall e :: e in events && e.Send? ==> ValidCommand(e.command)
  }

  function Run(endpoint: byte, events: seq<Event>): State
    requires ValidEvents(events)
  {
    if events == [] then INITIAL else Step(endpoint, Run(endpoint, Front(events)), Last(events))
  }

  function Received(events: seq<Event>): seq<IncomingMsg> {
    if events == [] then []
    else Received(Front(events)) + (if Last(events).Receive? then [Last(events).message] else [])
  }

  function Commands(events: seq<Event>): (cs: seq<Command>) {
    if events == [] then []
    else Commands(Front(events)) + (if Last(events).Send? then [Last(events).command] else [])
  }

  // ----- Receiving -----

  lemma FromAppend(received: seq<IncomingMsg>, m: IncomingMsg, endpoint: byte, a: Address)
    ensures From(received + [m], endpoint, a)
         == From(received, endpoint, a) + (if m.source == a && m.endpoint == endpoint then [m] else [])
  {
    assert Front(received + [m]) == received;
  }

  lemma WithoutRepeatsAppend(messages: seq<IncomingMsg>, m: IncomingMsg)
    ensures WithoutRepeats(messages + [m])
         == WithoutRepeats(messages) + (if m.data == LastData(messages) then [] else [m])
    ensures LastData(messages + [m]) == m.data
  {
    assert Front(messages + [m]) == messages;
  }

  lemma SignalsOfAppend(messages: seq<IncomingMsg>, m: IncomingMsg)
    ensures SignalsOf(messages + [m])
         == SignalsOf(messages) + (match SignalOf(m) case None => [] case Some(x) => [x])
  {
    assert Front(messages + [m]) == messages;
  }

  lemma SignalsFromAppend(signals: seq<Signal>, x: Signal, a: Address)
    ensures SignalsFrom(signals + [x], a) == SignalsFrom(signals, a) + (if x.source == a then [x] else [])
  {
    assert Front(signals + [x]) == signals;
  }

  /** What the endpoint knows about device a, given its messages so far. */
  ghost predicate Hears(s: State, messages: seq<IncomingMsg>, a: Address) {
    LastFrom(s.last, a) == LastData(messages)
    && SignalsFrom(s.signals, a) == SignalsOf(WithoutRepeats(messages))
  }

  lemma ReceiveHears(endpoint: byte, s: State, m: IncomingMsg, messages: seq<IncomingMsg>, a: Address)
    requires Hears(s, messages, a)
    ensures Hears(Step(endpoint, s, Receive(m)),
                  messages + (if m.source == a && m.endpoint == endpoint then [m] else []), a)
  {
    hide SignalOf, SignalsOf, SignalsFrom, WithoutRepeats;
    if m.endpoint == endpoint {
      if m.source == a {
        WithoutRepeatsAppend(messages, m);
        SignalsOfAppend(WithoutRepeats(messages), m);
        assert WithoutRepeats(messages) + [] == WithoutRepeats(messages);
      } else {
        assert messages + [] == messages;
      }
      SignalSource(m);
      if SignalOf(m).Some? {
        SignalsFromAppend(s.signals, SignalOf(m).value, a);
      } else {
        assert s.signals + [] == s.signals;
      }
    } else {
      assert messages + [] == messages;
    }
  }

  lemma SignalSource(m: IncomingMsg)
    ensures SignalOf(m).Some? ==> SignalOf(m).value.source == m.source
  {
  }

  /** Main result. Per device, and however its messages are interleaved with those of other
      devices and with commands sent, the signals are those of its messages for this endpoint
      with consecutive repeats removed, starting from the empty message. */
  lemma {:induction false} SignalsSkipRepeats(endpoint: byte, events: seq<Event>, a: Address)
    requires ValidEvents(events)
    ensures var messages := From(Received(events), endpoint, a);
      Hears(Run(endpoint, events), messages, a)
      && SignalsFrom(Run(endpoint, events).signals, a) == SignalsOf(WithoutRepeats(messages))
  {
    if events != [] {
      var before, s := Front(events), Run(endpoint, Front(events));
      SignalsSkipRepeats(endpoint, before, a);
      match Last(events)
      case Receive(m) =>
        FromAppend(Received(before), m, endpoint, a);
        ReceiveHears(endpoint, s, m, From(Received(before), endpoint, a), a);
      case Send(_) => assert Received(events) == Received(before);
    }
  }

  /** So no other device has any influence on what is heard from a. */
  lemma OthersDoNotMatter(endpoint: byte, events: seq<Event>, others: seq<Event>, a: Address)
    requires ValidEvents(events) && ValidEvents(others)
    requires From(Received(events), endpoint, a) == From(Received(others), endpoint, a)
    ensures SignalsFrom(Run(endpoint, events).signals, a) == SignalsFrom(Run(endpoint, others).signals, a)
  {
    SignalsSkipRepeats(endpoint, events, a);
    SignalsSkipRepeats(endpoint, others, a);
  }

  /** What a message signals, read off its bytes: nothing if it is too short for its header or
      of a reserved type; otherwise type, direction, command and payload from the data, and
      where it came from, from the message. */
  lemma SignalsReadTheBytes(m: IncomingMsg)
    ensures var d := m.data;
      SignalOf(m).Some? <==> |d| >= 3 && (d[0] / 4 % 2 == 1 ==> |d| >= 5) && d[0] % 4 <= 1
    ensures SignalOf(m).Some? ==>
      var d, x := m.data, SignalOf(m).value;
      var h := if d[0] / 4 % 2 == 1 then 5 else 3;
      && x.source == m.source && x.sourceEndpoint == m.sourceEndpoint && x.cluster == m.cluster
      && (x.isGlobal <==> d[0] % 4 == 0) && x.direction == d[0] / 8 % 2
      && x.command == d[h - 1] && x.payload == d[h..]
  {
  }

  // ----- Sending -----

  lemma SentToAppend(sent: seq<Sent>, x: Sent, a: Address)
    ensures SentTo(sent + [x], a) == SentTo(sent, a) + (if x.address == a then [x] else [])
  {
    assert Front(sent + [x]) == sent;
  }

  lemma CommandsToAppend(commands: seq<Command>, c: Command, a: Address)
    ensures CommandsTo(commands + [c], a) == CommandsTo(commands, a) + (if c.address == a then [c] else [])
  {
    assert Front(commands + [c]) == commands;
  }

  /** The bytes of a command with its sequence number: frame type and direction in one byte, the
      number, the command, and the payload. */
  function BytesOf(c: Command, number: byte): seq<byte>
    requires ValidCommand(c)
  {
    [(if c.isGlobal then 0 else 1) + 8 * c.direction, number, c.command] + c.payload
  }

  lemma CommandBytes(c: Command, number: byte)
    requires ValidCommand(c)
    ensures EncodeFrame(FrameOf(c, number)) == BytesOf(c, number)
  {
  }

  /** The n-th command to a device goes out with sequence number n modulo 256, as its bytes,
      and they decode to that command. */
  ghost predicate Carries(x: Sent, c: Command, n: nat)
    requires ValidCommand(c)
  {
    x.address == c.address && x.endpoint == c.endpoint && x.cluster == c.cluster
    && x.data == BytesOf(c, n % 256)
    && DecodeFrame(x.data) == Some(FrameOf(c, n % 256))
  }

  lemma FrameGoesOut(c: Command, number: byte)
    requires ValidCommand(c)
    ensures DecodeFrame(EncodeFrame(FrameOf(c, number))) == Some(FrameOf(c, number))
  {
    FrameSurvives(FrameOf(c, number));
  }

  ghost predicate CarriesAll(sent: seq<Sent>, commands: seq<Command>) {
    |sent| == |commands|
    && forall n :: 0 <= n < |sent| ==> ValidCommand(commands[n]) && Carries(sent[n], commands[n], n)
  }

  lemma CarriesAppend(sent: seq<Sent>, commands: seq<Command>, x: Sent, c: Command)
    requires CarriesAll(sent, commands) && ValidCommand(c) && Carries(x, c, |sent|)
    ensures CarriesAll(sent + [x], commands + [c])
  {
    hide Carries;
  }

  /** Main result. Per device the commands go out in order, the n-th one with sequence number n
      modulo 256, as its bytes. */
  lemma {:induction false} SendsAreNumbered(endpoint: byte, events: seq<Event>, a: Address)
    requires ValidEvents(events)
    ensures var sent, commands := SentTo(Run(endpoint, events).sent, a), CommandsTo(Commands(events), a);
      && |sent| == |commands|
      && NumberFor(Run(endpoint, events).numbers, a) == |sent| % 256
      && (forall n :: 0 <= n < |sent| ==> ValidCommand(commands[n]) && Carries(sent[n], commands[n], n))
  {
    hide EncodeFrame, DecodeFrame, BytesOf, Carries, SentTo, CommandsTo;
    if events != [] {
      var before, s := Front(events), Run(endpoint, Front(events));
      SendsAreNumbered(endpoint, before, a);
      if Last(events).Send? {
        var c := Last(events).command;
        assert Last(events) in events;
        var number := NumberFor(s.numbers, c.address);
        var x := Sent(c.address, c.endpoint, c.cluster, EncodeFrame(FrameOf(c, number)));
        SentToAppend(s.sent, x, a);
        CommandsToAppend(Commands(before), c, a);
        if c.address == a {
          CommandIsCarried(c, number, |SentTo(s.sent, a)|, x);
          CarriesAppend(SentTo(s.sent, a), CommandsTo(Commands(before), a), x, c);
        } else {
          assert SentTo(s.sent, a) + [] == SentTo(s.sent, a);
          assert CommandsTo(Commands(before), a) + [] == CommandsTo(Commands(before), a);
        }
      } else {
        assert Commands(before) + [] == Commands(before);
        assert Commands(events) == Commands(before) && Run(endpoint, events).sent == s.sent;
      }
    } else {
      NothingSent(a);
    }
  }

  lemma NothingSent(a: Address)
    ensures SentTo([], a) == [] && CommandsTo([], a) == []
  {
  }

  lemma CommandIsCarried(c: Command, number: byte, n: nat, x: Sent)
    requires ValidCommand(c) && number == n % 256
    requires x == Sent(c.address, c.endpoint, c.cluster, EncodeFrame(FrameOf(c, number)))
    ensures Carries(x, c, n)
  {
    FrameGoesOut(c, number);
    CommandBytes(c, number);
  }

  /** Two commands in a row to one device never look alike, even when they are the same, so a
      receiver that drops repeats drops none of them. */
  lemma SendsDoNotRepeat(endpoint: byte, events: seq<Event>, a: Address, n: nat)
    requires ValidEvents(events) && n + 1 < |SentTo(Run(endpoint, events).sent, a)|
    ensures var sent := SentTo(Run(endpoint, events).sent, a); sent[n].data != sent[n + 1].data
  {
    hide DecodeFrame, FrameOf, Run;
    SendsAreNumbered(endpoint, events, a);
    var sent, commands := SentTo(Run(endpoint, events).sent, a), CommandsTo(Commands(events), a);
    assert Carries(sent[n], commands[n], n) && Carries(sent[n + 1], commands[n + 1], n + 1);
    assert sent[n].data[1] == n % 256 && sent[n + 1].data[1] == (n + 1) % 256;
  }

  // ----- The object -----

  class ZclEndpoint {
    const endpoint: byte
    var sendNumbers: map<Address, byte>
    var lastMsg: map<Address, seq<byte>>
    // What the endpoint signalled and what it asked the dongle to send.
    var signals: seq<Signal>
    var sent: seq<Sent>

    ghost function Contents(): State
      reads this
    {
      State(lastMsg, sendNumbers, signals, sent)
    }

    constructor (endpoint: byte)
      ensures Contents() == INITIAL && this.endpoint == endpoint
    {
      this.endpoint := endpoint;
      sendNumbers, lastMsg, signals, sent := map[], map[], [], [];
    }

    /** ok is false when the frame cannot be decoded; by then its data has been noted. */
    method OnIncomingMsg(m: IncomingMsg) returns (ok: bool)
      modifies this
      ensures Contents() == Step(endpoint, old(Contents()), Receive(m))
      ensures !ok <==> m.endpoint == endpoint && LastFrom(old(lastMsg), m.source) != m.data && DecodeFrame(m.data).None?
    {
      if m.endpoint != endpoint {
        return true;
      }
      if m.source !in lastMsg {
        lastMsg := lastMsg[m.source := []];
      }
      if lastMsg[m.source] == m.data {
        assert lastMsg == old(lastMsg)[m.source := m.data];
        return true;
      }
      lastMsg := lastMsg[m.source := m.data];
      assert lastMsg == old(lastMsg)[m.source := m.data];
      assert signals + [] == signals;
      var frame := DecodeWholeFrame(m.data);
      if frame.None? {
        return false;
      }
      var f := frame.value;
      if f.frameType == GLOBAL {
        signals := signals + [Signal(m.source, m.sourceEndpoint, m.cluster, true, f.direction, f.command, f.payload)];
      } else if f.frameType == LOCAL {
        signals := signals + [Signal(m.source, m.sourceEndpoint, m.cluster, false, f.direction, f.command, f.payload)];
      }
      return true;
    }

    method SendCommand(c: Command)
      requires ValidCommand(c)
      modifies this
      ensures Contents() == Step(endpoint, old(Contents()), Send(c))
    {
      var number := NextTransSeqNumFor(c.address);
      var frame := Frame(if c.isGlobal then GLOBAL else LOCAL, None, c.direction, false, 0, number, c.command,
        c.payload);
      var data := EncodeWholeFrame(frame);
      sent := sent + [Sent(c.address, c.endpoint, c.cluster, data)];
    }

    /** Returns the counter, then advances it, wrapping at one byte. */
    method NextTransSeqNumFor(a: Address) returns (number: byte)
      modifies this`sendNumbers
      ensures number == NumberFor(old(sendNumbers), a)
      ensures sendNumbers == old(sendNumbers)[a := (number + 1) % 256]
    {
      if a !in sendNumbers {
        sendNumbers := sendNumbers[a := 0];
      }
      number := sendNumbers[a];
      sendNumbers := sendNumbers[a := (number + 1) % 256];
    }
  }
}
