/**
 The formats on the wire, fixed byte by byte, mostly on the byte strings the repository's
 own tests promise.
 */
module WireExamples {
  import opened Bytes
  import opened FloatFormat
  import opened DataTypes
  import opened SearchableList
  import opened DynamicTypes
  import opened DynamicSpec
  import opened DynamicLeaves
  import opened DynamicRoundTrip
  import opened DynamicTheorems
  import ClusterDb
  import ZnpTypes
  import ZnpPort
  import Typed = ZnpEncoding
  import ZclFrame

  /** dt's values in n bytes: bs stands for v, in both directions. */
  ghost predicate Example(dt: byte, bs: seq<byte>, v: Json) {
    Enc(NoCluster, DataType(dt), v) == Ok(bs) && Dec(NoCluster, DataType(dt), bs, None) == Got(v, |bs|, None)
  }

  lemma FourBytes(a: byte, b: byte, c: byte, d: byte)
    ensures LeValue([a, b, c, d]) == a + 0x100 * b + 0x1_0000 * c + 0x100_0000 * d
  {
    assert [a, b, c, d][1..] == [b, c, d] && [b, c, d][1..] == [c, d] && [c, d][1..] == [d] && [d][1..] == [];
    assert LeValue([d]) == d && LeValue([c, d]) == c + 0x100 * d;
  }

  /** Positive and negative 32-bit integers, least significant byte first. */
  lemma Integers()
    ensures Example(0x2b, [0x78, 0x56, 0x34, 0x12], Num(0x12345678))
    ensures Example(0x2b, [0x88, 0xA9, 0xCB, 0xED], Num(-0x12345678))
    ensures Example(0x23, [0x88, 0xA9, 0xCB, 0xED], Num(0xEDCBA988))
  {
    hide *;
    FourBytes(0x78, 0x56, 0x34, 0x12);
    FourBytes(0x88, 0xA9, 0xCB, 0xED);
    SignedExample([0x78, 0x56, 0x34, 0x12], 0x12345678);
    SignedExample([0x88, 0xA9, 0xCB, 0xED], -0x12345678);
    UnsignedExample([0x88, 0xA9, 0xCB, 0xED], 0xEDCBA988);
  }

  lemma UnsignedExample(bs: seq<byte>, v: nat)
    requires |bs| == 4 && LeValue(bs) == v
    ensures Example(0x23, bs, Num(v))
  {
    hide LeValue, LeBytes, Pow256;
    Pow256Small(4);
    UnsignedReencode(bs);
    assert KindOf(0x23) == Unsigned(4);
    assert bs[..4] == bs;
  }

  lemma SignedExample(bs: seq<byte>, v: int)
    requires |bs| == 4 && -0x8000_0000 <= v < 0x8000_0000
    requires LeValue(bs) == if v < 0 then v + 0x1_0000_0000 else v
    ensures Example(0x2b, bs, Num(v))
  {
    hide LeValue, LeBytes, Pow256, EncodeSigned;
    Pow256Small(4);
    SignedRange(v, 4);
    LeBytesOfValue(bs);
    assert KindOf(0x2b) == Signed(4);
    assert bs[..4] == bs;
  }

  // ----- Floats -----

  lemma SemiExample(raw: nat, bs: seq<byte>, x: Float)
    requires raw < 2 * Pow2(15) && Decode(SEMI, raw) == x && !x.NaN?
    requires |bs| == 2 && LeValue(bs) == raw
    ensures Example(0x38, bs, Json.Real(x))
  {
    hide LeValue, LeBytes, Pow2, Pow256, Encode, Decode;
    assert KindOf(0x38) == Floating(SEMI) && SEMI.Width() == 2;
    EncodeOfDecode(SEMI, raw);
    PatternOfNumber(SEMI, raw);
    LeBytesOfValue(bs);
    assert bs[..2] == bs;
  }

  lemma PatternOfNumber(f: Format, raw: nat)
    requires f.Valid() && !Decode(f, raw).NaN?
    ensures !IsNaNPattern(f, raw)
  {
  }

  lemma SemiPowers()
    ensures Pow2(4) == 16 && Pow2(5) == 32 && Pow2(10) == 1024 && Pow2(15) == 32768
    ensures Exp2(6) == 64.0 && Exp2(-14) == 1.0 / 16384.0
  {
    Pow2Add(5, 5);
    Pow2Add(10, 5);
    assert Exp2(3) == 8.0;
    assert Exp2(-4) == 1.0 / 16.0;
    assert Exp2(-8) == 1.0 / 256.0;
    assert Exp2(-12) == 1.0 / 4096.0;
  }

  /** 123.375, and the subnormal 2^-15, in half precision. */
  lemma HalfPrecision()
    ensures Example(0x38, [0xB6, 0x57], Json.Real(Finite(false, 123.375)))
    ensures Example(0x38, [0x00, 0x02], Json.Real(Finite(false, 1.0 / 32768.0)))
  {
    hide Pow2, Exp2, Encode, Enc, Dec;
    SemiPowers();
    assert SEMI.Bias() == 15 && MantissaCount(SEMI) == 1024 && Reserved(SEMI) == 31;
    assert DecodeMagnitude(SEMI, 0x57B6) == 123.375;
    assert DecodeMagnitude(SEMI, 0x0200) == 1.0 / 32768.0;
    assert [0x57][1..] == [] && [0xB6, 0x57][1..] == [0x57] && LeValue([0x57]) == 0x57;
    assert [0x02][1..] == [] && [0x00, 0x02][1..] == [0x02] && LeValue([0x02]) == 0x02;
    SemiExample(0x57B6, [0xB6, 0x57], Finite(false, 123.375));
    SemiExample(0x0200, [0x00, 0x02], Finite(false, 1.0 / 32768.0));
  }

  // ----- Strings and containers -----

  const HELLO: seq<byte> := [0x48, 0x65, 0x6C, 0x6C, 0x6F]

  /** Length, then the characters; the all-ones length for null. */
  lemma Strings()
    ensures Example(STRING, [5] + HELLO, Str("Hello"))
    ensures Example(0x44, [5, 0] + HELLO, Str("Hello"))
    ensures Example(STRING, [0xFF], Null)
    ensures Example(0x44, [0xFF, 0xFF], Null)
  {
    StringExample(1, [5], STRING);
    StringExample(2, [5, 0], 0x44);
    NullExample(1, [0xFF], STRING);
    NullExample(2, [0xFF, 0xFF], 0x44);
  }

  lemma HelloCharacters()
    ensures OctetsOf("Hello") == HELLO && CharsOf(HELLO) == "Hello"
  {
    assert OctetsOf("o") == [0x6F] && OctetsOf("lo") == [0x6C, 0x6F] && OctetsOf("llo") == [0x6C, 0x6C, 0x6F];
    assert "Hello"[1..] == "ello" && "ello"[1..] == "llo" && "llo"[1..] == "lo" && "lo"[1..] == "o" && "o"[1..] == "";
    assert OctetsOf("ello") == [0x65, 0x6C, 0x6C, 0x6F];
    CharsOfOctets("Hello");
    assert IsOctets("o") && IsOctets("lo") && IsOctets("llo") && IsOctets("ello");
  }

  lemma LengthBytes(n: nat, prefix: seq<byte>)
    requires (n == 1 && prefix == [5]) || (n == 2 && prefix == [5, 0])
    ensures LeValue(prefix) == 5 && Pow256(n) >= 256 && EncodeUnsigned(5, n) == Ok(prefix)
  {
    assert [5][1..] == [] && [5, 0][1..] == [0] && [0][1..] == [];
    assert LeValue([0]) == 0;
    UnsignedReencode(prefix);
    Pow256Small(n);
  }

  lemma StringExample(n: nat, prefix: seq<byte>, dt: byte)
    requires (n == 1 && prefix == [5] && dt == STRING) || (n == 2 && prefix == [5, 0] && dt == 0x44)
    ensures Example(dt, prefix + HELLO, Str("Hello"))
  {
    hide LeValue, LeBytes, Pow256, OctetsOf, CharsOf, EncodeUnsigned;
    HelloCharacters();
    LengthBytes(n, prefix);
    assert KindOf(dt) == CharString(n);
    var bs := prefix + HELLO;
    assert bs[..n] == prefix && bs[n..n + 5] == HELLO;
    assert DecodeRun(bs, n, None) == Got(Some(HELLO), n + 5, None);
  }

  lemma NullRun(n: nat, bs: seq<byte>)
    requires (n == 1 && bs == [0xFF]) || (n == 2 && bs == [0xFF, 0xFF])
    ensures LeBytes(Pow256(n) - 1, n) == bs && DecodeRun(bs, n, None) == Got(None, n, None)
  {
    hide LeBytes, Pow256;
    assert [0xFF][1..] == [] && [0xFF, 0xFF][1..] == [0xFF] && LeValue([0xFF]) == 0xFF;
    Pow256Small(n);
    LeBytesOfValue(bs);
    assert bs[..n] == bs;
  }

  lemma NullExample(n: nat, bs: seq<byte>, dt: byte)
    requires (n == 1 && bs == [0xFF] && dt == STRING) || (n == 2 && bs == [0xFF, 0xFF] && dt == 0x44)
    ensures Example(dt, bs, Null)
  {
    hide LeBytes, LeValue, Pow256, DecodeRun, DecItems, EncItems, EncTyped;
    NullRun(n, bs);
    assert KindOf(dt) == CharString(n);
  }

  /** Null, false and true as one byte each. */
  function BoolByte(v: Json): byte
    requires v.Null? || v.Bool?
  {
    if v.Null? then 0xFF else if v.b then 1 else 0
  }

  lemma BoolExample(v: Json, rest: seq<byte>, last: Option<int>)
    requires v.Null? || v.Bool?
    ensures Enc(NoCluster, DataType(BOOL), v) == Ok([BoolByte(v)])
    ensures Dec(NoCluster, DataType(BOOL), [BoolByte(v)] + rest, last) == Got(v, 1, last)
  {
    hide DecItems, EncItems, EncTyped;
    assert KindOf(BOOL) == Boolean;
  }

  lemma BoolVariant(cx: Context, b: bool, rest: seq<byte>, last: Option<int>)
    ensures Dec(cx, VariantType, [BOOL, if b then 1 else 0] + rest, last) == Got(TypedValue(BOOL, Bool(b)), 2, last)
  {
    hide DecItems, TypeName, DecEntries;
    var bs := [BOOL, if b then 1 else 0] + rest;
    assert KindOf(BOOL) == Boolean;
    assert bs[1..] == [if b then 1 else 0] + rest;
    assert Dec(cx, DataType(BOOL), bs[1..], last) == Got(Bool(b), 1, last);
  }

  /** Error-or: status 0 and the value, or the status alone. */
  lemma ErrorOrsDecode()
    ensures Dec(NoCluster, ErrorOrType(DataType(BOOL)), [0x00, 0x01], None)
      == Got(Obj(map["success" := Bool(true)]), 2, None)
    ensures Dec(NoCluster, ErrorOrType(DataType(BOOL)), [0x12], None) == Got(Obj(map["error" := Num(0x12)]), 1, None)
  {
    hide Dec;
    BoolExample(Bool(true), [], None);
    assert [0x01] + [] == [0x01];
    SuccessFollows(NoCluster, DataType(BOOL), [0x01], None);
    assert [0x00] + [0x01] == [0x00, 0x01];
    ErrorAlone(NoCluster, DataType(BOOL), 0x12, [], None);
    assert [0x12] + [] == [0x12];
  }

  lemma SuccessFollows(cx: Context, s: Schema, rest: seq<byte>, last: Option<int>)
    ensures var r := Dec(cx, s, rest, last);
      r.Got? ==> Dec(cx, ErrorOrType(s), [0x00] + rest, last) == Got(Obj(map["success" := r.value]), 1 + r.used, r.last)
  {
    hide DecItems, DecGreedy, DecProperties, DecLeaf, DecEntries, KindOf;
    assert ([0x00] + rest)[1..] == rest;
  }

  lemma ErrorAlone(cx: Context, s: Schema, status: byte, rest: seq<byte>, last: Option<int>)
    requires status != 0
    ensures Dec(cx, ErrorOrType(s), [status] + rest, last) == Got(Obj(map["error" := Num(status)]), 1, last)
  {
    hide DecItems, DecGreedy, DecProperties, DecLeaf, DecEntries, KindOf;
  }

  lemma ErrorOrsEncode()
    ensures Enc(NoCluster, ErrorOrType(DataType(BOOL)), Obj(map["success" := Bool(true)])) == Ok([0x00, 0x01])
    ensures Enc(NoCluster, ErrorOrType(DataType(BOOL)), Obj(map["error" := Num(0x12)])) == Ok([0x12])
  {
    hide KindOf, EncLeaf, EncodeUnsigned;
    BoolExample(Bool(true), [], None);
    StatusByte(0);
    StatusByte(0x12);
    var success, error := map["success" := Bool(true)], map["error" := Num(0x12)];
    assert success["success"] == Bool(true) && "error" !in success;
    assert error["error"] == Num(0x12) && "success" !in error;
    assert [0x00] + [0x01] == [0x00, 0x01] && [0x12] + [] == [0x12];
  }

  lemma StatusByte(b: byte)
    ensures EncodeUnsigned(b, 1) == Ok([b])
  {
    assert [b][1..] == [];
    assert LeValue([b]) == b;
    UnsignedReencode([b]);
  }

  // ----- A report -----

  const ON_OFF := Cluster([Item(0, "OnOff", Some(BOOL))])

  const RECORD := ObjectType([Property("Attribute identifier", DataType(ATTRIBID)), Property("data", VariantType)])

  function RecordValue(b: bool): Json {
    Obj(map["Attribute identifier" := Str("OnOff"), "data" := TypedValue(BOOL, Bool(b))])
  }

  function RecordBytes(b: bool): seq<byte> {
    [0x00, 0x00, BOOL, if b then 1 else 0]
  }

  lemma AttributeExample(rest: seq<byte>, last: Option<int>)
    ensures Dec(ON_OFF, DataType(ATTRIBID), [0x00, 0x00] + rest, last) == Got(Str("OnOff"), 2, Some(0))
  {
    hide DecItems;
    assert KindOf(ATTRIBID) == AttributeId;
    assert ([0x00, 0x00] + rest)[..2] == [0x00, 0x00];
    assert [0x00, 0x00][1..] == [0x00] && LeValue([0x00]) == 0 && LeValue([0x00, 0x00]) == 0;
    assert SearchId(ON_OFF.attributes, 0) == Some(Item(0, "OnOff", Some(BOOL)));
  }

  lemma RecordExample(b: bool, rest: seq<byte>, last: Option<int>)
    ensures Dec(ON_OFF, RECORD, RecordBytes(b) + rest, last) == Got(RecordValue(b), 4, Some(0))
  {
    hide LeValue, KindOf, TypedValue;
    var bs := RecordBytes(b) + rest;
    var tail := [BOOL, if b then 1 else 0] + rest;
    assert bs == [0x00, 0x00] + tail && bs[2..] == tail;
    AttributeExample(tail, last);
    BoolVariant(ON_OFF, b, rest, Some(0));
    var ps := RECORD.properties;
    assert ps[1..] == [Property("data", VariantType)] && ps[1..][1..] == [];
    var data := TypedValue(BOOL, Bool(b));
    assert DecProperties(ON_OFF, [], tail[2..], Some(0)) == Got(map[], 0, Some(0));
    assert map["data" := data] + map[] == map["data" := data];
    assert DecProperties(ON_OFF, ps[1..], tail, Some(0)) == Got(map["data" := data], 2, Some(0));
    assert map["Attribute identifier" := Str("OnOff")] + map["data" := data] == RecordValue(b).fields;
  }

  /** A Report Attributes payload with two readings of one attribute. */
  lemma Report()
    ensures Dec(ON_OFF, ArrayType(0, RECORD), [0x00, 0x00, 0x10, 0x01, 0x00, 0x00, 0x10, 0x00], None)
         == Got(Arr([RecordValue(true), RecordValue(false)]), 8, Some(0))
  {
    hide Dec, RecordValue;
    var bs := RecordBytes(true) + RecordBytes(false);
    RecordExample(true, RecordBytes(false), None);
    RecordExample(false, [], Some(0));
    assert RecordBytes(false) + [] == RecordBytes(false) && bs[4..] == RecordBytes(false);
    GreedyExample(bs);
    assert bs == [0x00, 0x00, 0x10, 0x01, 0x00, 0x00, 0x10, 0x00];
  }

  lemma GreedyExample(bs: seq<byte>)
    requires |bs| == 8
    requires Dec(ON_OFF, RECORD, bs, None) == Got(RecordValue(true), 4, Some(0))
    requires Dec(ON_OFF, RECORD, bs[4..], Some(0)) == Got(RecordValue(false), 4, Some(0))
    ensures Dec(ON_OFF, ArrayType(0, RECORD), bs, None) == Got(Arr([RecordValue(true), RecordValue(false)]), 8, Some(0))
  {
    hide RecordValue, DecGreedy;
    assert bs[4..][4..] == [];
    GreedyEnd(ON_OFF, RECORD, Some(0));
    GreedyNext(ON_OFF, RECORD, bs[4..], Some(0));
    GreedyNext(ON_OFF, RECORD, bs, None);
    var one: seq<Json> := [RecordValue(false)];
    assert one + [] == one && [RecordValue(true)] + one == [RecordValue(true), RecordValue(false)];
  }

  lemma GreedyEnd(cx: Context, t: Schema, last: Option<int>)
    ensures DecGreedy(cx, t, [], last) == Got([], 0, last)
  {
  }

  lemma GreedyNext(cx: Context, t: Schema, bs: seq<byte>, last: Option<int>)
    requires bs != [] && Dec(cx, t, bs, last).Got? && Dec(cx, t, bs, last).used > 0
    ensures var x := Dec(cx, t, bs, last); var y := DecGreedy(cx, t, bs[x.used..], x.last);
      DecGreedy(cx, t, bs, last) == if y.Got? then Got([x.value] + y.value, x.used + y.used, y.last) else y
  {
    hide Dec;
  }

  lemma AttributeEncodes()
    ensures Enc(ON_OFF, DataType(ATTRIBID), Str("OnOff")) == Ok([0x00, 0x00])
  {
    hide EncItems, EncTyped;
    assert KindOf(ATTRIBID) == AttributeId;
    assert SearchName(ON_OFF.attributes, "OnOff") == Some(Item(0, "OnOff", Some(BOOL)));
    assert LeBytes(0, 1) == [0x00] + LeBytes(0, 0);
    assert LeBytes(0, 2) == [0x00, 0x00];
  }

  lemma BoolVariantEncodes(b: bool)
    ensures Enc(ON_OFF, VariantType, TypedValue(BOOL, Bool(b))) == Ok([BOOL, if b then 1 else 0])
  {
    hide EncItems, EncTyped, TypeName, TypeOfName, EncProperties;
    TypeNameRoundTrip(BOOL);
    var v := TypedValue(BOOL, Bool(b));
    assert v.fields["type"] == Str(TypeName(BOOL)) && v.fields["value"] == Bool(b);
    assert KindOf(BOOL) == Boolean;
    assert Enc(ON_OFF, DataType(BOOL), Bool(b)) == Ok([if b then 1 else 0]);
    assert [BOOL] + [if b then 1 else 0] == [BOOL, if b then 1 else 0];
  }

  lemma RecordEncodes(b: bool)
    ensures Enc(ON_OFF, RECORD, RecordValue(b)) == Ok(RecordBytes(b))
  {
    hide EncItems, EncTyped, EncLeaf, KindOf, TypedValue;
    AttributeEncodes();
    BoolVariantEncodes(b);
    var ps, v := RECORD.properties, RecordValue(b);
    var data: seq<byte> := [BOOL, if b then 1 else 0];
    assert v.fields["Attribute identifier"] == Str("OnOff") && v.fields["data"] == TypedValue(BOOL, Bool(b));
    assert ps[1..] == [Property("data", VariantType)] && ps[1..][1..] == [];
    assert EncProperties(ON_OFF, ps[1..][1..], v) == Ok([]);
    assert data + [] == data;
    assert EncProperties(ON_OFF, ps[1..], v) == Ok(data);
    assert [0x00, 0x00] + data == RecordBytes(b);
  }

  lemma ItemsEncode(cx: Context, t: Schema, items: seq<Json>, first: seq<byte>, rest: seq<byte>)
    requires items != [] && Enc(cx, t, items[0]) == Ok(first) && EncItems(cx, t, items[1..]) == Ok(rest)
    ensures EncItems(cx, t, items) == Ok(first + rest)
  {
    hide Enc;
  }

  /** The report is encoded to its bytes, and is one of the values the round trip is about. */
  lemma ReportEncodes()
    ensures var t, v := ArrayType(0, RECORD), Arr([RecordValue(true), RecordValue(false)]);
      && ON_OFF.Valid() && TailGreedy(t) && Unambiguous(t)
      && Enc(ON_OFF, t, v) == Ok([0x00, 0x00, 0x10, 0x01, 0x00, 0x00, 0x10, 0x00])
      && Canon(ON_OFF, t, v) && Track(ON_OFF, t, v, None).Some?
  {
    hide Dec, Canon, Track, TailGreedy, Unambiguous, EndsGreedy, RecordValue, EncProperties, EncItems;
    var t, items := ArrayType(0, RECORD), [RecordValue(true), RecordValue(false)];
    var bs := RecordBytes(true) + RecordBytes(false);
    RecordEncodes(true);
    RecordEncodes(false);
    NoItemsEncode(ON_OFF, RECORD);
    assert items[1..] == [RecordValue(false)] && items[1..][1..] == [];
    assert RecordBytes(false) + [] == RecordBytes(false) && [] + bs == bs;
    ItemsEncode(ON_OFF, RECORD, items[1..], RecordBytes(false), []);
    ItemsEncode(ON_OFF, RECORD, items, RecordBytes(true), RecordBytes(false));
    assert bs == [0x00, 0x00, 0x10, 0x01, 0x00, 0x00, 0x10, 0x00];
    assert Enc(ON_OFF, t, Arr(items)) == Ok(bs);
    Report();
    ReportTypeBehaves();
    assert bs + [] == bs;
    RoundTrip(ON_OFF, t, Arr(items), [], None);
  }

  lemma NoItemsEncode(cx: Context, t: Schema)
    ensures EncItems(cx, t, []) == Ok([])
  {
  }

  lemma ReportTypeBehaves()
    ensures TailGreedy(ArrayType(0, RECORD)) && Unambiguous(ArrayType(0, RECORD)) && ON_OFF.Valid()
  {
    hide KindOf;
    ClusterDb.RecordsBehave("Attribute identifier", "data");
  }

  // ----- Typed variants and frames -----

  /** A typed variant: data type, then the integer in two's complement. */
  lemma TypedVariant()
    ensures var v := Typed.Variant(0x2b, Some(Typed.Num(-0x12345678)));
      var bs: seq<byte> := [0x2b, 0x88, 0xA9, 0xCB, 0xED];
      Typed.Dec(Typed.VariantShape, bs) == Typed.Got(v, 5)
      && Typed.HasShape(Typed.VariantShape, v) && Typed.Enc(Typed.VariantShape, v) == Some(bs)
  {
    hide LeValue, LeBytes, Pow256;
    var tail: seq<byte> := [0x88, 0xA9, 0xCB, 0xED];
    FourBytes(0x88, 0xA9, 0xCB, 0xED);
    LeBytesOfValue(tail);
    Pow256Small(4);
    assert Typed.ContentOf(0x2b) == Typed.Integer(4, 4, true);
    assert [0x2b, 0x88, 0xA9, 0xCB, 0xED][1..] == tail && tail[..4] == tail;
    assert [0x2b] + tail == [0x2b, 0x88, 0xA9, 0xCB, 0xED];
  }

  /** The dongle's ping: start byte, length, type and subsystem, command, XOR. */
  lemma PingFrame()
    ensures ZnpPort.WireFrame(ZnpPort.Body(ZnpTypes.Frame(ZnpTypes.SREQ, ZnpTypes.Command(1, 1), [])))
         == [0xFE, 0x00, 0x21, 0x01, 0x20]
  {
    hide ZnpPort.Xor;
    ZnpPort.XorLaws(0x21, 0, 0);
    PingCheck();
    var content: seq<byte> := [0x21, 0x01];
    assert content[1..] == [0x01] && [0x01][1..] == [];
    assert ZnpPort.XorAll(0x20, []) == 0x20 && ZnpPort.XorAll(0x21, [0x01]) == 0x20;
  }

  lemma PingCheck()
    ensures ZnpPort.Xor(0x21, 0x01) == 0x20
  {
    assert ZnpPort.XorBits(2, 0, 4) == 2;
  }

  /** A ZCL frame with a manufacturer code. */
  lemma ManufacturerFrame(payload: seq<byte>)
    ensures var f := ZclFrame.Frame(ZclFrame.GLOBAL, Some(0x115F), 1, true, 0, 5, 0x0A, payload);
      f.Valid() && ZclFrame.EncodeFrame(f) == [0x1C, 0x5F, 0x11, 5, 0x0A] + payload
  {
    assert LeBytes(0x11, 1) == [0x11] + LeBytes(0, 0);
    assert LeBytes(0x115F, 2) == [0x5F, 0x11];
  }
}
