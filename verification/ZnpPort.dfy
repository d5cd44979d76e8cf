/**
 The serial framing of the dongle: frames with a start byte, a length, two command bytes and
 an XOR check byte; a send queue with one outstanding write; and a receive machine that is
 driven byte by byte and resynchronises on the start byte.
 */
module ZnpPort {
  import opened Bytes
  import opened ZnpTypes

  const SOF: byte := 0xFE

  // ----- XOR of bytes -----

  /** Bitwise exclusive or of the low n bits. */
  function XorBits(a: nat, b: nat, n: nat): nat {
    if n == 0 then 0 else (if a % 2 != b % 2 then 1 else 0) + 2 * XorBits(a / 2, b / 2, n - 1)
  }

  lemma {:induction false} XorBelow(a: nat, b: nat, n: nat)
    ensures XorBits(a, b, n) < Pow2(n)
  {
    if n > 0 {
      XorBelow(a / 2, b / 2, n - 1);
    }
  }

  function Xor(a: byte, b: byte): byte {
    XorBelow(a, b, 8);
    assert Pow2(8) == 256;
    XorBits(a, b, 8)
  }

  lemma {:induction false} XorBitsLaws(a: nat, b: nat, c: nat, n: nat)
    ensures XorBits(a, b, n) == XorBits(b, a, n)
    ensures XorBits(XorBits(a, b, n), c, n) == XorBits(a, XorBits(b, c, n), n)
    ensures XorBits(a, a, n) == 0
    ensures a < Pow2(n) ==> XorBits(a, 0, n) == a
  {
    if n > 0 {
      XorBitsLaws(a / 2, b / 2, c / 2, n - 1);
      XorHalves(a, b, n);
      XorHalves(b, c, n);
    }
  }

  lemma XorHalves(a: nat, b: nat, n: nat)
    requires n > 0
    ensures XorBits(a, b, n) / 2 == XorBits(a / 2, b / 2, n - 1)
    ensures XorBits(a, b, n) % 2 == if a % 2 != b % 2 then 1 else 0
  {
  }

  lemma XorLaws(a: byte, b: byte, c: byte)
    ensures Xor(a, b) == Xor(b, a)
    ensures Xor(Xor(a, b), c) == Xor(a, Xor(b, c))
    ensures Xor(a, a) == 0
    ensures Xor(a, 0) == a
  {
    assert Pow2(8) == 256;
    XorBitsLaws(a, b, c, 8);
  }

  /** Two bytes cancel exactly when they are equal. */
  lemma XorZero(a: byte, b: byte)
    ensures Xor(a, b) == 0 <==> a == b
  {
    XorLaws(a, b, b);
    XorLaws(b, b, a);
    XorLaws(0, b, b);
    XorLaws(b, 0, 0);
  }

  /** XOR of start and all bytes, first to last. */
  function XorAll(start: byte, bs: seq<byte>): byte
    decreases |bs|
  {
    if bs == [] then start else XorAll(Xor(start, bs[0]), bs[1..])
  }

  lemma {:induction false} XorAllAppend(start: byte, bs: seq<byte>, b: byte)
    decreases |bs|
    ensures XorAll(start, bs + [b]) == Xor(XorAll(start, bs), b)
  {
    if bs == [] {
      assert [b][1..] == [];
    } else {
      XorAllAppend(Xor(start, bs[0]), bs[1..], b);
      assert (bs + [b])[1..] == bs[1..] + [b];
    }
  }

  /** Changing the start changes the result by the same difference. */
  lemma {:induction false} XorAllStart(a: byte, d: byte, bs: seq<byte>)
    decreases |bs|
    ensures XorAll(Xor(a, d), bs) == Xor(XorAll(a, bs), d)
  {
    if bs != [] {
      XorAllStart(Xor(a, bs[0]), d, bs[1..]);
      XorLaws(a, d, bs[0]);
      XorLaws(d, bs[0], 0);
      XorLaws(a, bs[0], d);
    }
  }

  // ----- Frames on the wire -----

  function Header(f: Frame): byte {
    (f.typ * 16 + f.command.subsystem % 16) % 256
  }

  /** What is covered by the check byte, except the length. */
  function Content(f: Frame): seq<byte> {
    [Header(f), f.command.raw] + f.payload
  }

  /** Everything behind the length byte. */
  function Body(f: Frame): (body: seq<byte>)
    requires |f.payload| <= 255
    ensures |body| == |f.payload| + 3
  {
    Content(f) + [XorAll(|f.payload|, Content(f))]
  }

  function WireFrame(body: seq<byte>): seq<byte>
    requires 3 <= |body| <= 258
  {
    [SOF, |body| - 3] + body
  }

  /** FrameHandler: the frame in a received body, if its check byte matches. */
  function Check(body: seq<byte>): Option<Frame>
    requires 3 <= |body| <= 258
  {
    if XorAll(Xor(0, |body| - 3), body[..|body| - 1]) != body[|body| - 1] then None
    else Some(Frame(body[0] / 16, Command(body[0] % 16, body[1]), body[2..|body| - 1]))
  }

  lemma CrcStart(n: byte, content: seq<byte>)
    ensures XorAll(0, [n] + content) == XorAll(n, content)
  {
    hide Xor;
    XorLaws(0, n, 0);
    XorLaws(n, 0, 0);
    assert ([n] + content)[1..] == content;
  }

  lemma {:induction false} XorBitsAt(a: nat, b: nat, n: nat, i: nat)
    requires i < n
    ensures XorBits(a, b, n) / Pow2(i) % 2 == if a / Pow2(i) % 2 != b / Pow2(i) % 2 then 1 else 0
  {
    XorHalves(a, b, n);
    if i > 0 {
      XorBitsAt(a / 2, b / 2, n - 1, i - 1);
      DivideTwice(a, 2, Pow2(i - 1));
      DivideTwice(b, 2, Pow2(i - 1));
      DivideTwice(XorBits(a, b, n), 2, Pow2(i - 1));
    }
  }

  /** Xor is the exclusive or of every bit. */
  lemma XorIsBitwise(a: byte, b: byte, i: nat)
    requires i < 8
    ensures Xor(a, b) / Pow2(i) % 2 == if a / Pow2(i) % 2 != b / Pow2(i) % 2 then 1 else 0
  {
    XorBitsAt(a, b, 8, i);
  }

  /** A frame on the wire: start byte, length, type and subsystem, command, payload, and a byte
      that makes the exclusive or of all but the start byte zero. */
  lemma WireBytes(f: Frame)
    requires |f.payload| <= 255 && f.FitsHeader()
    ensures var w := WireFrame(Body(f));
      && |w| == |f.payload| + 5
      && w[..4] == [0xFE, |f.payload|, 16 * f.typ + f.command.subsystem, f.command.raw]
      && w[4..4 + |f.payload|] == f.payload
      && XorAll(0, w[1..]) == 0
  {
    hide Xor;
    CheckOfBody(f);
    var w := WireFrame(Body(f));
    assert w[1..] == [|f.payload|] + Body(f);
    CrcStart(|f.payload|, Body(f));
  }

  /** A body is accepted exactly when all its bytes and the length cancel. */
  lemma AcceptedIffZero(body: seq<byte>)
    requires 3 <= |body| <= 258
    ensures Check(body).Some? <==> XorAll(|body| - 3, body) == 0
  {
    hide Xor;
    var content, crc, n := body[..|body| - 1], body[|body| - 1], |body| - 3;
    assert body == content + [crc];
    XorAllAppend(n, content, crc);
    XorLaws(0, n, 0);
    XorLaws(n, 0, 0);
    XorZero(XorAll(n, content), crc);
  }

  lemma CheckOfBody(f: Frame)
    requires |f.payload| <= 255 && f.FitsHeader()
    ensures Check(Body(f)) == Some(f) && XorAll(|f.payload|, Body(f)) == 0
  {
    hide Xor;
    var body := Body(f);
    assert body[..|body| - 1] == Content(f) && body[|body| - 1] == XorAll(|f.payload|, Content(f));
    XorLaws(0, |f.payload|, 0);
    XorLaws(|f.payload|, 0, 0);
    assert body[2..|body| - 1] == f.payload;
    AcceptedIffZero(body);
  }

  /** The XOR of all bytes of a differs from that of b: in particular after any change of a
      single byte. */
  ghost predicate XorDiffers(a: seq<byte>, b: seq<byte>) {
    XorAll(0, a) != XorAll(0, b)
  }

  /** Among bodies of the right length exactly those with a non-zero XOR difference from what
      was sent are dropped. */
  lemma AlteredIsDropped(f: Frame, body: seq<byte>)
    requires |f.payload| <= 255 && f.FitsHeader() && |body| == |f.payload| + 3
    ensures Check(body).None? <==> XorDiffers(body, Body(f))
  {
    hide Xor, XorAll;
    CheckOfBody(f);
    AcceptedIffZero(body);
    var n := |f.payload|;
    XorAllStart(0, n, body);
    XorAllStart(0, n, Body(f));
    XorLaws(0, n, 0);
    XorLaws(n, 0, 0);
    XorZero(XorAll(0, body), n);
    XorZero(XorAll(0, Body(f)), n);
  }

  lemma {:induction false} SingleByteDiffers(start: byte, body: seq<byte>, i: nat, b: byte)
    requires i < |body| && body[i] != b
    ensures XorAll(start, body[i := b]) != XorAll(start, body)
    decreases |body|
  {
    hide Xor;
    if i == 0 {
      var s, t, rest := Xor(start, body[0]), Xor(start, b), body[1..];
      assert body[0 := b][1..] == rest;
      var d := Xor(s, t);
      DifferenceOf(start, body[0], b);
      XorAllStart(s, d, rest);
      XorLaws(s, s, t);
      XorLaws(t, 0, 0);
      XorLaws(0, t, 0);
      NonZeroChanges(XorAll(s, rest), d);
    } else {
      assert body[i := b][1..] == body[1..][i - 1 := b];
      SingleByteDiffers(Xor(start, body[0]), body[1..], i - 1, b);
    }
  }

  lemma DifferenceOf(start: byte, a: byte, b: byte)
    requires a != b
    ensures Xor(Xor(start, a), Xor(start, b)) != 0
  {
    hide Xor;
    XorZero(Xor(start, a), Xor(start, b));
    if Xor(start, a) == Xor(start, b) {
      XorLaws(start, start, a);
      XorLaws(start, start, b);
      XorLaws(0, a, 0);
      XorLaws(0, b, 0);
      XorLaws(a, 0, 0);
      XorLaws(b, 0, 0);
    }
  }

  lemma NonZeroChanges(a: byte, d: byte)
    requires d != 0
    ensures Xor(a, d) != a
  {
    hide Xor;
    if Xor(a, d) == a {
      XorLaws(a, a, d);
      XorLaws(0, d, 0);
      XorLaws(d, 0, 0);
    }
  }

  // ----- The receive machine -----

  /** The read that is outstanding: the start byte, the length byte, or the body of a frame,
      of which some bytes have already arrived. */
  datatype Reading = StartOfFrame | FrameLength | FrameBody(length: byte, got: seq<byte>) {
    predicate Valid() {
      FrameBody? ==> |got| < length + 3
    }
  }

  datatype Received = Received(reading: Reading, frames: seq<Frame>)

  function ReceiveByte(reading: Reading, b: byte): (r: Received)
    requires reading.Valid()
    ensures r.reading.Valid()
  {
    match reading
    case StartOfFrame => Received(if b == SOF then FrameLength else StartOfFrame, [])
    case FrameLength => Received(FrameBody(b, []), [])
    case FrameBody(length, got) =>
      var body := got + [b];
      if |body| < length + 3 then Received(FrameBody(length, body), [])
      else Received(StartOfFrame, match Check(body) case Some(f) => [f] case None => [])
  }

  function Receive(reading: Reading, bytes: seq<byte>): (r: Received)
    requires reading.Valid()
    ensures r.reading.Valid()
    decreases |bytes|
  {
    if bytes == [] then Received(reading, [])
    else
      var first := ReceiveByte(reading, bytes[0]);
      var rest := Receive(first.reading, bytes[1..]);
      Received(rest.reading, first.frames + rest.frames)
  }

  lemma {:induction false} ReceiveConcat(reading: Reading, a: seq<byte>, b: seq<byte>)
    requires reading.Valid()
    ensures Receive(reading, a + b)
      == var x := Receive(reading, a);
         var y := Receive(x.reading, b);
         Received(y.reading, x.frames + y.frames)
    decreases |a|
  {
    hide ReceiveByte;
    if a == [] {
      assert [] + b == b;
    } else {
      var first := ReceiveByte(reading, a[0]);
      ReceiveConcat(first.reading, a[1..], b);
      assert (a + b)[1..] == a[1..] + b;
    }
  }

  lemma {:induction false} NoiseIsSkipped(noise: seq<byte>)
    requires SOF !in noise
    ensures Receive(StartOfFrame, noise) == Received(StartOfFrame, [])
    decreases |noise|
  {
    if noise != [] {
      NoiseIsSkipped(noise[1..]);
    }
  }

  lemma {:induction false} BodyIsCollected(length: byte, got: seq<byte>, rest: seq<byte>)
    requires |got| < length + 3 && |got + rest| == length + 3
    ensures Receive(FrameBody(length, got), rest)
      == Received(StartOfFrame, match Check(got + rest) case Some(f) => [f] case None => [])
    decreases |rest|
  {
    hide Check;
    if |rest| == 1 {
      assert rest[1..] == [] && got + [rest[0]] == got + rest;
      assert Receive(StartOfFrame, []) == Received(StartOfFrame, []);
    } else {
      assert got + [rest[0]] + rest[1..] == got + rest;
      BodyIsCollected(length, got + [rest[0]], rest[1..]);
    }
  }

  /** From the idle state a whole frame is read to its end, and delivered if it checks. */
  lemma FrameIsRead(body: seq<byte>)
    requires 3 <= |body| <= 258
    ensures Receive(StartOfFrame, WireFrame(body))
      == Received(StartOfFrame, match Check(body) case Some(f) => [f] case None => [])
  {
    hide Check;
    var w := WireFrame(body);
    assert w[1..] == [|body| - 3] + body && w[1..][1..] == body;
    BodyIsCollected(|body| - 3, [], body);
    assert [] + body == body;
    assert Receive(FrameLength, w[1..]) == Receive(FrameBody(|body| - 3, []), body);
  }

  /** A frame as it travels: noise ahead of it, and the body the line delivered. */
  datatype Transit = Transit(noise: seq<byte>, frame: Frame, body: seq<byte>) {
    ghost predicate Intact()
      requires |frame.payload| <= 255
    {
      body == Body(frame)
    }

    /** Well-formed noise and frame; the body is intact or visibly altered. */
    ghost predicate Valid() {
      && SOF !in noise
      && |frame.payload| <= 255 && frame.FitsHeader()
      && |body| == |frame.payload| + 3
      && (Intact() || XorDiffers(body, Body(frame)))
    }
  }

  ghost predicate AllValid(ts: seq<Transit>) {
    ts == [] || (ts[0].Valid() && AllValid(ts[1..]))
  }

  ghost function Line(ts: seq<Transit>): seq<byte>
    requires AllValid(ts)
  {
    if ts == [] then [] else ts[0].noise + WireFrame(ts[0].body) + Line(ts[1..])
  }

  ghost function IntactFrames(ts: seq<Transit>): seq<Frame>
    requires AllValid(ts)
  {
    if ts == [] then [] else (if ts[0].Intact() then [ts[0].frame] else []) + IntactFrames(ts[1..])
  }

  /** Whatever noise lies between frames and whichever frames are altered on the way: exactly
      the intact ones are delivered, in order, and the machine ends ready for the next. */
  lemma {:induction false} ReceiverSynchronises(ts: seq<Transit>)
    requires AllValid(ts)
    ensures Receive(StartOfFrame, Line(ts)) == Received(StartOfFrame, IntactFrames(ts))
    decreases |ts|
  {
    hide Receive, Check, Body;
    if ts == [] {
      EmptyInput();
    } else {
      var t, rest := ts[0], Line(ts[1..]);
      NoiseIsSkipped(t.noise);
      FrameIsRead(t.body);
      if t.Intact() {
        CheckOfBody(t.frame);
      } else {
        AlteredIsDropped(t.frame, t.body);
      }
      ReceiverSynchronises(ts[1..]);
      ReceiveConcat(StartOfFrame, t.noise, WireFrame(t.body));
      ReceiveConcat(StartOfFrame, t.noise + WireFrame(t.body), rest);
    }
  }

  /** How many more bytes the frame being read takes at most. */
  function Missing(reading: Reading): (n: nat)
    requires reading.Valid()
    ensures n <= 259
  {
    match reading
    case StartOfFrame => 0
    case FrameLength => 259
    case FrameBody(length, got) => length + 3 - |got|
  }

  /** From whatever state the machine is in, 259 bytes without a start byte bring it back to
      the idle state, with at most one frame delivered on the way. */
  lemma {:induction false} NoiseBringsIdle(reading: Reading, noise: seq<byte>)
    requires reading.Valid() && SOF !in noise && |noise| >= Missing(reading)
    ensures var r := Receive(reading, noise);
      r.reading == StartOfFrame && |r.frames| <= if reading == StartOfFrame then 0 else 1
    decreases |noise|
  {
    hide Check;
    if noise == [] {
      EmptyInput();
    } else {
      assert noise[0] in noise;
      NoiseBringsIdle(ReceiveByte(reading, noise[0]).reading, noise[1..]);
    }
  }

  /** Main result. Wherever the machine has got to, after such a pause exactly the intact
      frames that follow are delivered, in order. */
  lemma ReceiverResynchronises(reading: Reading, noise: seq<byte>, ts: seq<Transit>)
    requires reading.Valid() && SOF !in noise && |noise| >= 259 && AllValid(ts)
    ensures |Receive(reading, noise).frames| <= 1
    ensures Receive(reading, noise + Line(ts))
         == Received(StartOfFrame, Receive(reading, noise).frames + IntactFrames(ts))
  {
    hide Receive, Missing;
    NoiseBringsIdle(reading, noise);
    ReceiverSynchronises(ts);
    ReceiveConcat(reading, noise, Line(ts));
  }

  lemma EmptyInput()
    ensures Receive(StartOfFrame, []) == Received(StartOfFrame, [])
  {
  }

  // ----- The send queue -----

  /** written: buffers whose write completed; outstanding: an async_write has not completed. */
  datatype Sending = Sending(inProgress: bool, queue: seq<seq<byte>>, outstanding: bool, written: seq<seq<byte>>)

  const IDLE := Sending(false, [], false, [])

  function TrySendFrom(s: Sending): Sending {
    if s.inProgress || s.queue == [] then s else s.(inProgress := true, outstanding := true)
  }

  datatype SendEvent = Send(frame: Frame) | WriteDone(error: bool)

  /** SendFrame rejects long payloads; a completion only comes for an outstanding write. */
  function SendStep(s: Sending, e: SendEvent): Sending {
    match e
    case Send(f) =>
      if |f.payload| > 255 then s else TrySendFrom(s.(queue := s.queue + [WireFrame(Body(f))]))
    case WriteDone(error) =>
      if !s.outstanding then s
      else if error then s.(outstanding := false)
      else if s.queue == [] then TrySendFrom(s.(inProgress := false, outstanding := false))
      else TrySendFrom(s.(inProgress := false, outstanding := false, queue := s.queue[1..],
        written := s.written + [s.queue[0]]))
  }

  function SendRun(s: Sending, events: seq<SendEvent>): Sending
    decreases |events|
  {
    if events == [] then s else SendRun(SendStep(s, events[0]), events[1..])
  }

  /** The frames the run accepted for sending, in call order. */
  function Accepted(events: seq<SendEvent>): seq<Frame>
    decreases |events|
  {
    if events == [] then []
    else (if events[0].Send? && |events[0].frame.payload| <= 255 then [events[0].frame] else []) + Accepted(events[1..])
  }

  function Buffers(frames: seq<Frame>): seq<seq<byte>>
    requires forall f | f in frames :: |f.payload| <= 255
  {
    if frames == [] then [] else [WireFrame(Body(frames[0]))] + Buffers(frames[1..])
  }

  function Flatten(buffers: seq<seq<byte>>): seq<byte> {
    if buffers == [] then [] else buffers[0] + Flatten(buffers[1..])
  }

  /** One write at a time, and exactly while something is queued. */
  ghost predicate SendInvariant(s: Sending) {
    (s.inProgress <==> s.queue != []) && (s.outstanding ==> s.inProgress)
  }

  lemma {:induction false} AcceptedFit(events: seq<SendEvent>)
    ensures forall f | f in Accepted(events) :: |f.payload| <= 255
    decreases |events|
  {
    if events != [] {
      AcceptedFit(events[1..]);
    }
  }

  lemma {:induction false} BuffersConcat(a: seq<Frame>, b: seq<Frame>)
    requires forall f | f in a + b :: |f.payload| <= 255
    ensures (forall f | f in a :: f in a + b) && (forall f | f in b :: f in a + b)
    ensures Buffers(a + b) == Buffers(a) + Buffers(b)
    decreases |a|
  {
    hide Body, WireFrame;
    if a == [] {
      assert a + b == b;
    } else {
      assert (a + b)[1..] == a[1..] + b;
      BuffersConcat(a[1..], b);
    }
  }

  /** The buffers one event adds. */
  function Adds(e: SendEvent): seq<seq<byte>> {
    if e.Send? && |e.frame.payload| <= 255 then [WireFrame(Body(e.frame))] else []
  }

  lemma SendStepConserves(s: Sending, e: SendEvent)
    requires SendInvariant(s)
    ensures SendInvariant(SendStep(s, e))
    ensures SendStep(s, e).written + SendStep(s, e).queue == s.written + s.queue + Adds(e)
  {
    hide Body, WireFrame;
    var all := s.written + s.queue;
    assert all + [] == all;
    if e.Send? && |e.frame.payload| <= 255 {
      var b := WireFrame(Body(e.frame));
      assert s.written + (s.queue + [b]) == all + [b];
    } else if e.WriteDone? && s.queue != [] {
      assert (s.written + [s.queue[0]]) + s.queue[1..] == all;
    }
  }

  lemma AcceptedBuffers(events: seq<SendEvent>)
    requires events != []
    ensures (forall f | f in Accepted(events) :: |f.payload| <= 255)
    ensures (forall f | f in Accepted(events[1..]) :: |f.payload| <= 255)
    ensures Buffers(Accepted(events)) == Adds(events[0]) + Buffers(Accepted(events[1..]))
  {
    hide Body, WireFrame;
    AcceptedFit(events);
    AcceptedFit(events[1..]);
    var rest := Accepted(events[1..]);
    if events[0].Send? && |events[0].frame.payload| <= 255 {
      assert Accepted(events) == [events[0].frame] + rest;
      assert Accepted(events)[1..] == rest;
    } else {
      assert Accepted(events) == rest && [] + Buffers(rest) == Buffers(rest);
    }
  }

  /** Over any interleaving, what was written and what is queued are exactly the accepted
      frames in call order, and a write is in progress exactly while the queue is not empty. */
  lemma {:induction false} SendRunConserves(s: Sending, events: seq<SendEvent>)
    requires SendInvariant(s)
    ensures SendInvariant(SendRun(s, events))
    ensures (forall f | f in Accepted(events) :: |f.payload| <= 255)
    ensures SendRun(s, events).written + SendRun(s, events).queue == s.written + s.queue + Buffers(Accepted(events))
    decreases |events|
  {
    hide Body, WireFrame, SendStep, Accepted, Buffers, Adds, SendInvariant;
    if events == [] {
      NothingAccepted();
      assert s.written + s.queue + [] == s.written + s.queue;
    } else {
      AcceptedBuffers(events);
      SendStepConserves(s, events[0]);
      SendRunConserves(SendStep(s, events[0]), events[1..]);
      var all, more := s.written + s.queue, Buffers(Accepted(events[1..]));
      assert all + Adds(events[0]) + more == all + (Adds(events[0]) + more);
    }
  }

  lemma NothingAccepted()
    ensures Accepted([]) == [] && Buffers([]) == []
  {
  }

  lemma {:induction false} ReceiveBuffers(frames: seq<Frame>)
    requires forall f | f in frames :: |f.payload| <= 255 && f.FitsHeader()
    ensures Receive(StartOfFrame, Flatten(Buffers(frames))) == Received(StartOfFrame, frames)
    decreases |frames|
  {
    hide Receive, Check, Body, WireFrame;
    if frames == [] {
      EmptyInput();
    } else {
      var f := frames[0];
      CheckOfBody(f);
      FrameIsRead(Body(f));
      ReceiveBuffers(frames[1..]);
      var b := WireFrame(Body(f));
      assert Buffers(frames)[0] == b && Buffers(frames)[1..] == Buffers(frames[1..]);
      ReceiveConcat(StartOfFrame, b, Flatten(Buffers(frames[1..])));
      assert frames == [f] + frames[1..];
    }
  }

  lemma {:induction false} BuffersLength(frames: seq<Frame>)
    requires forall f | f in frames :: |f.payload| <= 255
    ensures |Buffers(frames)| == |frames|
    decreases |frames|
  {
    hide Body, WireFrame;
    if frames != [] {
      BuffersLength(frames[1..]);
    }
  }

  // ----- What must have been sent, counted from the events alone -----

  /** How many frames were accepted, how many writes were completed, and whether a write was
      reported to have failed; a completion counts while something accepted is unwritten. */
  datatype Progress = Progress(accepted: nat, done: nat, broken: bool)

  const NOTHING := Progress(0, 0, false)

  function ProgressStep(p: Progress, e: SendEvent): Progress {
    match e
    case Send(f) => if |f.payload| <= 255 then p.(accepted := p.accepted + 1) else p
    case WriteDone(error) =>
      if p.broken || p.done >= p.accepted then p
      else if error then p.(broken := true)
      else p.(done := p.done + 1)
  }

  function ProgressRun(p: Progress, events: seq<SendEvent>): Progress
    decreases |events|
  {
    if events == [] then p else ProgressRun(ProgressStep(p, events[0]), events[1..])
  }

  /** A write is outstanding whenever something is queued and no write has failed. */
  ghost predicate Agrees(s: Sending, p: Progress) {
    && |s.written| == p.done <= p.accepted && |s.queue| == p.accepted - p.done
    && (s.inProgress <==> p.done < p.accepted)
    && (s.outstanding <==> p.done < p.accepted && !p.broken)
    && (p.broken ==> p.done < p.accepted)
  }

  lemma {:induction false} RunAgrees(s: Sending, p: Progress, events: seq<SendEvent>)
    requires Agrees(s, p)
    ensures Agrees(SendRun(s, events), ProgressRun(p, events))
    ensures ProgressRun(p, events).accepted == p.accepted + |Accepted(events)|
    decreases |events|
  {
    hide Body, WireFrame;
    if events != [] {
      RunAgrees(SendStep(s, events[0]), ProgressStep(p, events[0]), events[1..]);
    }
  }

  /** Main result. Over every run, the completed writes are the first accepted frames, as many
      as completions came in for them, and the others are queued; and a write is outstanding
      exactly while something is queued and no write has failed. */
  lemma SendingMakesProgress(events: seq<SendEvent>)
    ensures forall f | f in Accepted(events) :: |f.payload| <= 255
    ensures var s, p, all := SendRun(IDLE, events), ProgressRun(NOTHING, events), Buffers(Accepted(events));
      && p.done <= |all| && p.accepted == |all|
      && s.written == all[..p.done] && s.queue == all[p.done..]
      && (s.inProgress <==> s.queue != [])
      && (s.outstanding <==> s.queue != [] && !p.broken)
  {
    hide Body, WireFrame;
    SendRunConserves(IDLE, events);
    RunAgrees(IDLE, NOTHING, events);
    BuffersLength(Accepted(events));
    var s, all := SendRun(IDLE, events), Buffers(Accepted(events));
    assert IDLE.written + IDLE.queue + all == all;
    assert s.written == (s.written + s.queue)[..|s.written|] && s.queue == (s.written + s.queue)[|s.written|..];
  }

  predicate NoErrors(events: seq<SendEvent>) {
    forall e :: e in events && e.WriteDone? ==> !e.error
  }

  lemma {:induction false} UnbrokenWithoutErrors(p: Progress, events: seq<SendEvent>)
    requires NoErrors(events)
    ensures ProgressRun(p, events).broken == p.broken
    decreases |events|
  {
    if events != [] {
      assert events[0] in events;
      assert forall e | e in events[1..] :: e in events;
      UnbrokenWithoutErrors(ProgressStep(p, events[0]), events[1..]);
    }
  }

  /** While no write fails, a write is outstanding exactly while something is queued; so once
      as many writes are completed as frames were accepted, all of them are on the line. */
  lemma SendsWithoutErrors(events: seq<SendEvent>)
    requires NoErrors(events)
    ensures forall f | f in Accepted(events) :: |f.payload| <= 255
    ensures var s, p := SendRun(IDLE, events), ProgressRun(NOTHING, events);
      && (s.outstanding <==> s.queue != [])
      && (p.done == |Accepted(events)| ==> s.written == Buffers(Accepted(events)) && s.queue == [])
  {
    hide Body, WireFrame;
    SendingMakesProgress(events);
    UnbrokenWithoutErrors(NOTHING, events);
    var all := Buffers(Accepted(events));
    assert all[..|all|] == all;
    BuffersLength(Accepted(events));
  }

  /** End to end, over any interleaving of sends and write completions: feeding the completed
      writes to a receiver gives back the first of the sent frames, as many as completions came in for them. */
  lemma EndToEnd(events: seq<SendEvent>)
    requires forall f | f in Accepted(events) :: f.FitsHeader()
    ensures var written := SendRun(IDLE, events).written;
      |written| == ProgressRun(NOTHING, events).done <= |Accepted(events)|
      && Receive(StartOfFrame, Flatten(written)) == Received(StartOfFrame, Accepted(events)[..|written|])
  {
    hide Receive, Body, WireFrame;
    SendRunConserves(IDLE, events);
    RunAgrees(IDLE, NOTHING, events);
    var frames, s := Accepted(events), SendRun(IDLE, events);
    var n := |s.written|;
    assert IDLE.written + IDLE.queue + Buffers(frames) == Buffers(frames);
    BuffersLength(frames);
    assert frames == frames[..n] + frames[n..];
    BuffersConcat(frames[..n], frames[n..]);
    BuffersLength(frames[..n]);
    assert s.written == Buffers(frames)[..n] == Buffers(frames[..n]);
    ReceiveBuffers(frames[..n]);
  }

  // ----- The port object -----

  /** The check byte: XOR over buffer[first..last]. */
  method ComputeCrc(buffer: seq<byte>, start: byte, first: nat, last: nat) returns (crc: byte)
    requires first <= last <= |buffer|
    ensures crc == XorAll(start, buffer[first..last])
  {
    hide Xor;
    crc := start;
    var i := first;
    assert buffer[first..first] == [];
    while i < last
      invariant first <= i <= last && crc == XorAll(start, buffer[first..i])
    {
      XorAllAppend(start, buffer[first..i], buffer[i]);
      assert buffer[first..i] + [buffer[i]] == buffer[first..i + 1];
      crc := Xor(crc, buffer[i]);
      i := i + 1;
    }
  }

  /** What is in the buffer before the check byte, and what it is with it. */
  lemma WireParts(buffer: seq<byte>, f: Frame)
    requires |f.payload| <= 255 && |buffer| == |f.payload| + 5
    requires buffer[0] == SOF && buffer[1] == |f.payload| && buffer[2] == Header(f) && buffer[3] == f.command.raw
    requires buffer[4..|buffer| - 1] == f.payload
    ensures buffer[1..|buffer| - 1] == [|f.payload|] + Content(f)
    ensures buffer[..|buffer| - 1] + [XorAll(|f.payload|, Content(f))] == WireFrame(Body(f))
  {
    hide Xor, XorAll, Header;
    var front := buffer[..|buffer| - 1];
    assert front == [SOF, |f.payload|] + Content(f);
    assert front[1..] == [|f.payload|] + Content(f);
  }

  /** The buffer SendFrame fills in place. */
  method FillBuffer(frame: Frame) returns (bytes: seq<byte>)
    requires |frame.payload| <= 255
    ensures bytes == WireFrame(Body(frame))
  {
    hide Xor, XorAll, Body, WireFrame, Content;
    var payload := frame.payload;
    var n := 1 + 1 + 2 + |payload| + 1;
    var buffer := new byte[n](_ => 0);
    buffer[0] := SOF;
    buffer[1] := |payload|;
    buffer[2] := (frame.typ * 16 + frame.command.subsystem % 16) % 256;
    buffer[3] := frame.command.raw;
    forall i | 0 <= i < |payload| {
      buffer[4 + i] := payload[i];
    }
    ghost var before := buffer[..];
    assert before[4..n - 1] == payload;
    WireParts(before, frame);
    var crc := ComputeCrc(buffer[..], 0, 1, n - 1);
    CrcStart(|payload|, Content(frame));
    buffer[n - 1] := crc;
    assert buffer[..] == before[..n - 1] + [crc];
    bytes := buffer[..];
  }

  class ZnpPort {
    var sendInProgress: bool
    var sendQueue: seq<seq<byte>>
    // Environment: whether an async_write is outstanding, and the buffers it has completed.
    ghost var outstanding: bool
    ghost var written: seq<seq<byte>>
    // The outstanding read, and the frames passed to on_frame_.
    var reading: Reading
    var onFrame: seq<Frame>

    ghost function Sends(): Sending
      reads this
    {
      Sending(sendInProgress, sendQueue, outstanding, written)
    }

    ghost predicate Valid()
      reads this
    {
      SendInvariant(Sends()) && reading.Valid()
    }

    constructor ()
      ensures Valid() && Sends() == IDLE && reading == StartOfFrame && onFrame == []
    {
      sendInProgress, sendQueue, outstanding, written := false, [], false, [];
      reading, onFrame := StartOfFrame, [];
    }

    /** ok is false when the payload is too long and an exception is thrown. */
    method SendFrame(frame: Frame) returns (ok: bool)
      requires Valid()
      modifies this
      ensures Valid()
      ensures ok <==> |frame.payload| <= 255
      ensures Sends() == SendStep(old(Sends()), Send(frame))
      ensures reading == old(reading) && onFrame == old(onFrame)
    {
      hide Body, WireFrame;
      if |frame.payload| > 255 {
        return false;
      }
      var buffer := FillBuffer(frame);
      sendQueue := sendQueue + [buffer];
      TrySend();
      return true;
    }

    method TrySend()
      modifies this
      ensures Sends() == TrySendFrom(old(Sends()))
      ensures reading == old(reading) && onFrame == old(onFrame)
    {
      if sendInProgress {
        return;
      }
      if sendQueue == [] {
        return;
      }
      sendInProgress := true;
      outstanding := true;
    }

    /** The completion of the outstanding async_write of the queue's first buffer. */
    method SendHandler(error: bool)
      requires Valid() && outstanding
      modifies this
      ensures Valid()
      ensures Sends() == SendStep(old(Sends()), WriteDone(error))
      ensures reading == old(reading) && onFrame == old(onFrame)
    {
      outstanding := false;
      if error {
        return;
      }
      if sendQueue != [] {
        written := written + [sendQueue[0]];
        sendQueue := sendQueue[1..];
      }
      sendInProgress := false;
      TrySend();
    }

    method StartReceive()
      modifies this`reading
      ensures reading == StartOfFrame
    {
      reading := StartOfFrame;
    }

    method StartOfFrameHandler(marker: byte)
      modifies this`reading
      ensures reading == if marker == SOF then FrameLength else StartOfFrame
    {
      if marker != SOF {
        StartReceive();
        return;
      }
      reading := FrameLength;
    }

    method FrameLengthHandler(length: byte)
      modifies this`reading
      ensures reading == FrameBody(length, [])
    {
      reading := FrameBody(length, []);
    }

    method FrameHandler(frame: seq<byte>)
      requires 3 <= |frame| <= 258
      modifies this`reading, this`onFrame
      ensures reading == StartOfFrame
      ensures onFrame == old(onFrame) + match Check(frame) case Some(f) => [f] case None => []
    {
      hide Xor;
      StartReceive();
      var crc: byte := 0;
      crc := Xor(crc, |frame| - 3);
      crc := ComputeCrc(frame, crc, 0, |frame| - 1);
      if crc != frame[|frame| - 1] {
        return;
      }
      var command := Command(frame[0] % 16, frame[1]);
      onFrame := onFrame + [Frame(frame[0] / 16, command, frame[2..|frame| - 1])];
    }

    /** A byte arrives for the outstanding read; when the read is full its handler runs. */
    method ByteArrives(b: byte)
      requires Valid()
      modifies this`reading, this`onFrame
      ensures Valid()
      ensures reading == ReceiveByte(old(reading), b).reading
      ensures onFrame == old(onFrame) + ReceiveByte(old(reading), b).frames
    {
      assert onFrame == onFrame + [];
      match reading {
        case StartOfFrame =>
          StartOfFrameHandler(b);
        case FrameLength =>
          FrameLengthHandler(b);
        case FrameBody(length, got) =>
          var body := got + [b];
          if |body| < length + 3 {
            reading := FrameBody(length, body);
          } else {
            FrameHandler(body);
          }
      }
    }
  }
}
