/**
 The events the dispatcher listens for from the start, with the C++ types of the signals'
 arguments: what it takes for an incoming frame to fire one of them.
 */
module ZnpEvents {
  import opened Bytes
  import opened ZnpTypes
  import opened ZnpApi
  import Typed = ZnpEncoding

  const U8 := Typed.UnsignedShape(1)
  const U16 := Typed.UnsignedShape(2)
  const U32 := Typed.UnsignedShape(4)
  const U64 := Typed.UnsignedShape(8)

  function Fields(first: Typed.Shape, rest: seq<Typed.Shape>): Typed.Shape
    decreases |rest|
  {
    if rest == [] then first else Typed.TupleShape(first, Fields(rest[0], rest[1..]))
  }

  /** A subscription: command, argument types, and whether trailing bytes are allowed. */
  datatype Subscription = Subscription(subsystem: nat, raw: byte, arguments: Typed.Shape, partially: bool)

  const RESET := Fields(U8, [U8, U8, U8, U8, U8])
  const ANNOUNCE := Fields(U16, [U16, U64, U8])
  const TRUST_CENTER := Fields(U16, [U64, U16])
  const INCOMING := Fields(U16, [U16, U16, U8, U8, U8, U8, U8, U32, U8, Typed.VectorShape(U8)])

  const SUBSCRIPTIONS: seq<Subscription> := [
    Subscription(1, 0x80, RESET, false),
    Subscription(5, 0xC0, U8, false),
    Subscription(5, 0xC1, ANNOUNCE, false),
    Subscription(5, 0xCA, TRUST_CENTER, false),
    Subscription(5, 0xCB, U8, false),
    Subscription(4, 0x81, INCOMING, true)
  ]

  predicate Parses(x: Subscription, data: seq<byte>) {
    var r := Typed.Dec(x.arguments, data);
    r.Got? && (x.partially || r.used == |data|)
  }

  /** How many bytes a value of a shape without vectors takes. */
  function Width(t: Typed.Shape): nat {
    match t
    case UnsignedShape(n) => n
    case TupleShape(first, rest) => Width(first) + Width(rest)
    case _ => 0
  }

  predicate Integers(t: Typed.Shape) {
    t.UnsignedShape? || (t.TupleShape? && Integers(t.first) && Integers(t.rest))
  }

  lemma {:induction false} IntegersParse(t: Typed.Shape, data: seq<byte>)
    requires Integers(t)
    ensures var r := Typed.Dec(t, data); (r.Got? <==> |data| >= Width(t)) && (r.Got? ==> r.used == Width(t))
    decreases t
  {
    if t.TupleShape? {
      IntegersParse(t.first, data);
      if |data| >= Width(t.first) {
        IntegersParse(t.rest, data[Width(t.first)..]);
      }
    }
  }

  /** Integers and then a vector of octets: its length byte must be there and must not
      promise more than there is. */
  lemma {:induction false} MessageParses(first: Typed.Shape, rest: seq<Typed.Shape>, data: seq<byte>)
    requires Integers(first) && forall t | t in rest :: Integers(t)
    ensures var n := Width(Fields(first, rest));
      Typed.Dec(Fields(first, rest + [Typed.VectorShape(U8)]), data).Got?
      <==> |data| > n && |data| - n - 1 >= data[n]
    decreases |rest|
  {
    IntegersParse(first, data);
    var k := Width(first);
    if rest == [] {
      assert rest + [Typed.VectorShape(U8)] == [Typed.VectorShape(U8)];
      if |data| > k {
        OctetsParse(data[k], data[k + 1..]);
        assert data[k..][1..] == data[k + 1..];
      }
    } else {
      var more := rest + [Typed.VectorShape(U8)];
      assert more[0] == rest[0] && more[1..] == rest[1..] + [Typed.VectorShape(U8)];
      assert rest[0] in rest;
      if |data| >= k {
        MessageParses(rest[0], rest[1..], data[k..]);
      }
    }
  }

  lemma {:induction false} OctetsParse(n: nat, data: seq<byte>)
    ensures Typed.DecAll(U8, n, data).Got? <==> |data| >= n
    decreases n
  {
    if n > 0 && data != [] {
      OctetsParse(n - 1, data[1..]);
    }
  }

  /** One field in front of others. */
  lemma FieldsStep(first: Typed.Shape, second: Typed.Shape, rest: seq<Typed.Shape>)
    ensures Fields(first, [second] + rest) == Typed.TupleShape(first, Fields(second, rest))
    ensures Integers(first) && Integers(Fields(second, rest)) ==> Integers(Fields(first, [second] + rest))
    ensures Width(Fields(first, [second] + rest)) == Width(first) + Width(Fields(second, rest))
  {
    assert ([second] + rest)[1..] == rest;
  }

  lemma FieldAlone(t: Typed.Shape)
    ensures Fields(t, []) == t
  {
  }

  lemma ResetWidth()
    ensures Integers(RESET) && Width(RESET) == 6
  {
    hide Fields;
    FieldAlone(U8);
    FieldsStep(U8, U8, []);
    assert [U8] + [] == [U8] && [U8] + [U8] == [U8, U8] && [U8] + [U8, U8] == [U8, U8, U8];
    FieldsStep(U8, U8, [U8]);
    FieldsStep(U8, U8, [U8, U8]);
    assert [U8] + [U8, U8, U8] == [U8, U8, U8, U8] && [U8] + [U8, U8, U8, U8] == [U8, U8, U8, U8, U8];
    FieldsStep(U8, U8, [U8, U8, U8]);
    FieldsStep(U8, U8, [U8, U8, U8, U8]);
  }

  lemma AnnounceWidths()
    ensures Integers(ANNOUNCE) && Width(ANNOUNCE) == 13
    ensures Integers(TRUST_CENTER) && Width(TRUST_CENTER) == 12
  {
    hide Fields;
    FieldAlone(U8);
    FieldAlone(U16);
    assert [U8] + [] == [U8] && [U64] + [U8] == [U64, U8] && [U16] + [U64, U8] == [U16, U64, U8];
    FieldsStep(U64, U8, []);
    FieldsStep(U16, U64, [U8]);
    FieldsStep(U16, U16, [U64, U8]);
    assert [U16] + [] == [U16] && [U64] + [U16] == [U64, U16];
    FieldsStep(U64, U16, []);
    FieldsStep(U16, U64, [U16]);
  }

  const HEAD: seq<Typed.Shape> := [U16, U16, U8, U8, U8, U8, U8, U32, U8]

  lemma HeadWidth()
    ensures Width(Fields(U16, HEAD)) == 16
  {
    hide Fields;
    FieldAlone(U8);
    var h7, h6, h5, h4, h3, h2, h1 := HEAD[8..], HEAD[7..], HEAD[6..], HEAD[5..], HEAD[4..], HEAD[3..], HEAD[2..];
    assert h7 == [U8] + [] && h6 == [U32] + h7 && h5 == [U8] + h6 && h4 == [U8] + h5 && h3 == [U8] + h4;
    assert h2 == [U8] + h3 && h1 == [U8] + h2 && HEAD[1..] == [U16] + h1 && HEAD == [U16] + HEAD[1..];
    assert Width(U8) == 1 && Width(U16) == 2 && Width(U32) == 4;
    FieldsStep(U32, U8, []);
    FieldsStep(U8, U32, h7);
    assert Width(Fields(U8, h6)) == 6;
    FieldsStep(U8, U8, h6);
    FieldsStep(U8, U8, h5);
    FieldsStep(U8, U8, h4);
    FieldsStep(U8, U8, h3);
    assert Width(Fields(U8, h2)) == 10;
    FieldsStep(U16, U8, h2);
    FieldsStep(U16, U16, h1);
    FieldsStep(U16, U16, HEAD[1..]);
  }

  /** The dispatcher decodes each event exactly when its arguments parse. */
  lemma DecodesIffParses(i: nat, data: seq<byte>)
    requires i < 6
    ensures |PERMANENT| == |SUBSCRIPTIONS| == 6
    ensures PERMANENT[i].event == Command(SUBSCRIPTIONS[i].subsystem, SUBSCRIPTIONS[i].raw)
    ensures Decodes(PERMANENT[i].arguments, data) <==> Parses(SUBSCRIPTIONS[i], data)
  {
    hide Fields, Width, Integers, Typed.Dec;
    ResetWidth();
    AnnounceWidths();
    OneByteWidth();
    if i < 5 {
      IntegersParse(SUBSCRIPTIONS[i].arguments, data);
    } else {
      HeadWidth();
      IntegerShapes();
      assert INCOMING == Fields(U16, HEAD + [Typed.VectorShape(U8)]) by {
        assert HEAD + [Typed.VectorShape(U8)] == [U16, U16, U8, U8, U8, U8, U8, U32, U8, Typed.VectorShape(U8)];
      }
      MessageParses(U16, HEAD, data);
    }
  }

  lemma OneByteWidth()
    ensures Integers(U8) && Width(U8) == 1
  {
  }

  lemma IntegerShapes()
    ensures Integers(U8) && Integers(U16) && Integers(U32) && forall t | t in HEAD :: Integers(t)
  {
  }

  /** Main result. In every reachable state an asynchronous frame for one of these commands
      fires that signal and changes nothing else if its payload parses as the signal's
      arguments, and is heard by none of them if not. */
  lemma SubscribedEventsFire(events: seq<Event>, i: nat, data: seq<byte>)
    requires i < 6
    ensures var s, f := Run(INITIAL, events), Frame(4, Command(SUBSCRIPTIONS[i].subsystem, SUBSCRIPTIONS[i].raw), data);
      && i < |s.handlers|
      && (Parses(SUBSCRIPTIONS[i], data) ==> Step(s, FrameArrives(f)) == s.(fired := s.fired + [(s.handlers[i], data)]))
      && (!Parses(SUBSCRIPTIONS[i], data) ==> forall h | h in s.handlers :: !Heard(h, f))
  {
    var s := Run(INITIAL, events);
    var f := Frame(4, Command(SUBSCRIPTIONS[i].subsystem, SUBSCRIPTIONS[i].raw), data);
    hide Run, Step, Parses, Decodes;
    DecodesIffParses(i, data);
    HandlersKeepTheirOrder(events);
    assert s.handlers[i] == PERMANENT[i];
    if Parses(SUBSCRIPTIONS[i], data) {
      EventsShadowWaits(events, f, i);
    } else {
      forall h | h in s.handlers
        ensures !Heard(h, f)
      {
        var k :| 0 <= k < |s.handlers| && s.handlers[k] == h;
        if k < 6 {
          DecodesIffParses(k, data);
          assert k != i ==> SUBSCRIPTIONS[k].raw != SUBSCRIPTIONS[i].raw;
        }
      }
    }
  }
}
