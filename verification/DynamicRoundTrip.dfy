/**
 Encode then decode: for every schema whose greedy arrays stand in tail position, decoding
 an encoding gives the value back and stops where the encoding stops.
 */
module DynamicRoundTrip {
  import opened Bytes
  import opened DataTypes
  import opened DynamicTypes
  import opened DynamicSpec
  import opened DynamicLeaves

  /** The object has exactly the given members. */
  ghost predicate HasExactly(v: Json, names: set<string>) {
    v.Obj? && v.fields.Keys == names
  }

  /** v is in the form the decoder produces: nothing left to default, no alternative
      spelling, every number in its exact range. */
  ghost predicate Canon(cx: Context, t: Schema, v: Json)
    decreases v, 1, 0
  {
    match t
    case XiaomiFF01Type => false
    case VariantType =>
      HasExactly(v, {"type", "value"}) && v.fields["type"].Str?
      && (match TypeOfName(v.fields["type"].s)
          case None => false
          case Some(dt) => v.fields["type"].s == TypeName(dt) && Canon(cx, DataType(dt), v.fields["value"]))
    case DataType(dt) =>
      (match KindOf(dt)
       case Structure => v.Null? || (v.Arr? && |v.items| < 0xFFFF && CanonItems(cx, VariantType, v.items))
       case TypedArray => CanonTyped(cx, v)
       case k => CanonLeaf(cx, k, v))
    case ObjectType(ps) => HasExactly(v, Names(ps)) && CanonProperties(cx, ps, v)
    case ArrayType(n, e) => v.Arr? && CanonItems(cx, e, v.items)
    case ErrorOrType(s) =>
      || (HasExactly(v, {"error"}) && v.fields["error"].Num? && 1 <= v.fields["error"].n <= 255)
      || (HasExactly(v, {"success"}) && Canon(cx, s, v.fields["success"]))
  }

  ghost predicate CanonTyped(cx: Context, v: Json)
    decreases v, 0, 0
  {
    HasExactly(v, {"element_type", "elements"}) && v.fields["element_type"].Str?
    && (match TypeOfName(v.fields["element_type"].s)
        case None => false
        case Some(dt) =>
          v.fields["element_type"].s == TypeName(dt)
          && (match v.fields["elements"]
              case Null => true
              case Arr(items) => |items| < 0xFFFF && CanonItems(cx, DataType(dt), items)
              case _ => false))
  }

  ghost predicate CanonItems(cx: Context, t: Schema, items: seq<Json>)
    decreases items, 0, 0
  {
    items == [] || (Canon(cx, t, items[0]) && CanonItems(cx, t, items[1..]))
  }

  ghost predicate CanonProperties(cx: Context, ps: seq<Property>, v: Json)
    requires v.Obj?
    decreases v, 0, |ps|
  {
    ps == []
    || (ps[0].name in v.fields && Canon(cx, ps[0].typ, v.fields[ps[0].name]) && CanonProperties(cx, ps[1..], v))
  }

  /** The attribute id the decoder remembers after reading v, or None when, on the way, a
      variant of type string is met while FF01 is the attribute id read last, and is taken for
      a Xiaomi block instead. */
  ghost function Track(cx: Context, t: Schema, v: Json, last: Option<int>): Option<Option<int>>
    decreases v, 1, 0
  {
    match t
    case XiaomiFF01Type => None
    case VariantType =>
      if !v.Obj? || !Member(v, "type").Str? || "value" !in v.fields then None
      else (match TypeOfName(v.fields["type"].s)
            case None => None
            case Some(dt) =>
              if dt == STRING && last == Some(FF01) then None
              else Track(cx, DataType(dt), v.fields["value"], last))
    case DataType(dt) =>
      (match KindOf(dt)
       case Structure => if v.Arr? then TrackItems(cx, VariantType, v.items, last) else Some(last)
       case TypedArray => TrackTyped(cx, v, last)
       case k => Some(LeafTrack(cx, k, v, last)))
    case ObjectType(ps) => if v.Obj? then TrackProperties(cx, ps, v, last) else Some(last)
    case ArrayType(n, e) => if v.Arr? then TrackItems(cx, e, v.items, last) else Some(last)
    case ErrorOrType(s) =>
      if v.Obj? && "success" in v.fields then Track(cx, s, v.fields["success"], last) else Some(last)
  }

  ghost function TrackTyped(cx: Context, v: Json, last: Option<int>): Option<Option<int>>
    decreases v, 0, 0
  {
    if !v.Obj? || !Member(v, "element_type").Str? then None
    else match TypeOfName(v.fields["element_type"].s)
      case None => None
      case Some(dt) =>
        match Member(v, "elements")
        case Arr(items) => TrackItems(cx, DataType(dt), items, last)
        case _ => Some(last)
  }

  ghost function TrackItems(cx: Context, t: Schema, items: seq<Json>, last: Option<int>): Option<Option<int>>
    decreases items, 0, 0
  {
    if items == [] then Some(last)
    else match Track(cx, t, items[0], last)
      case None => None
      case Some(l) => TrackItems(cx, t, items[1..], l)
  }

  ghost function TrackProperties(cx: Context, ps: seq<Property>, v: Json, last: Option<int>): Option<Option<int>>
    requires v.Obj?
    decreases v, 0, |ps|
  {
    if ps == [] then Some(last)
    else match (if ps[0].name in v.fields then Track(cx, ps[0].typ, v.fields[ps[0].name], last) else None)
      case None => None
      case Some(l) => TrackProperties(cx, ps[1..], v, l)
  }

  // ----- Facts about single layers -----

  /** The members of v that ps names. */
  ghost function Pick(v: Json, ps: seq<Property>): map<string, Json>
    requires v.Obj? && Names(ps) <= v.fields.Keys
  {
    map name | name in Names(ps) :: v.fields[name]
  }

  lemma PickStep(v: Json, ps: seq<Property>)
    requires v.Obj? && ps != [] && Names(ps) <= v.fields.Keys
    ensures Names(ps[1..]) <= v.fields.Keys && ps[0].name in v.fields
    ensures map[ps[0].name := v.fields[ps[0].name]] + Pick(v, ps[1..]) == Pick(v, ps)
  {
  }

  lemma EmptyPick(v: Json)
    requires v.Obj?
    ensures Names([]) <= v.fields.Keys && Pick(v, []) == map[]
  {
  }

  lemma LastOfRest(ps: seq<Property>)
    ensures |ps| > 1 ==> ps[1..][|ps[1..]| - 1] == ps[|ps| - 1]
  {
  }

  lemma {:induction false} CanonHasNames(cx: Context, ps: seq<Property>, v: Json)
    requires v.Obj? && CanonProperties(cx, ps, v)
    ensures Names(ps) <= v.fields.Keys
  {
    if ps != [] {
      CanonHasNames(cx, ps[1..], v);
    }
  }

  /** An encoding of an element that consumes a byte is not empty. */
  lemma {:induction false} EncodingNonEmpty(cx: Context, t: Schema, v: Json)
    requires ConsumesByte(t) && TailGreedy(t) && !EndsGreedy(t)
    requires Enc(cx, t, v).Ok?
    ensures Enc(cx, t, v).bytes != []
    decreases t
  {
    match t
    case DataType(dt) =>
      LeafNonEmpty(cx, dt, v);
    case ObjectType(ps) =>
      if v.Obj? {
        PropertiesNonEmpty(cx, ps, v);
      }
    case _ =>
  }

  lemma LeafNonEmpty(cx: Context, dt: byte, v: Json)
    requires KindOf(dt) != Empty
    ensures EncLeaf(cx, KindOf(dt), v).Ok? ==> EncLeaf(cx, KindOf(dt), v).bytes != []
  {
  }

  lemma {:induction false} PropertiesNonEmpty(cx: Context, ps: seq<Property>, v: Json)
    requires v.Obj? && SomeConsumes(ps) && AllTailGreedy(ps) && !EndsGreedy(ps[|ps| - 1].typ)
    requires EncProperties(cx, ps, v).Ok?
    ensures EncProperties(cx, ps, v).bytes != []
    decreases ps
  {
    var t := ps[0].typ;
    assert !EndsGreedy(t);
    if ConsumesByte(t) {
      if ps[0].name in v.fields {
        EncodingNonEmpty(cx, t, v.fields[ps[0].name]);
      } else {
        EncodingNonEmpty(cx, t, Null);
      }
    } else {
      assert ps[1..][|ps[1..]| - 1] == ps[|ps| - 1];
      PropertiesNonEmpty(cx, ps[1..], v);
    }
  }

  // ----- The round trip -----

  lemma Prefix(a: seq<byte>, b: seq<byte>, c: seq<byte>)
    ensures (a + b + c)[..|a|] == a && (a + b + c)[|a|..] == b + c
  {
  }

  /** Decoding Enc(v) + suffix, and where it stops. */
  ghost predicate DecodesBack(cx: Context, t: Schema, v: Json, suffix: seq<byte>, last: Option<int>)
    requires Enc(cx, t, v).Ok? && Track(cx, t, v, last).Some?
  {
    var b := Enc(cx, t, v).bytes;
    Dec(cx, t, b + suffix, last) == Got(v, |b|, Track(cx, t, v, last).value)
  }

  lemma {:induction false} RoundTripForward(cx: Context, t: Schema, v: Json, suffix: seq<byte>, last: Option<int>)
    requires cx.Valid() && TailGreedy(t) && (EndsGreedy(t) ==> suffix == [])
    requires Enc(cx, t, v).Ok? && Canon(cx, t, v) && Track(cx, t, v, last).Some?
    ensures DecodesBack(cx, t, v, suffix, last)
    decreases v, 3, 0
  {
    hide KindOf, DecItems, EncItems, CanonItems, TrackItems, DecLeaf, EncLeaf, CanonLeaf, LeafTrack, EncTyped,
      CanonTyped, TrackTyped, TypeOfName, EncodeUnsigned;
    match t
    case VariantType =>
      RoundTripVariant(cx, v, suffix, last);
    case DataType(dt) =>
      RoundTripData(cx, dt, v, suffix, last);
    case ObjectType(ps) =>
      CanonHasNames(cx, ps, v);
      RoundTripProperties(cx, ps, v, suffix, last);
      assert Pick(v, ps) == v.fields;
    case ArrayType(n, e) =>
      RoundTripArray(cx, n, e, v, suffix, last);
    case ErrorOrType(s) =>
      RoundTripErrorOr(cx, s, v, suffix, last);
  }

  lemma {:induction false} RoundTripVariant(cx: Context, v: Json, suffix: seq<byte>, last: Option<int>)
    requires cx.Valid()
    requires Enc(cx, VariantType, v).Ok? && Canon(cx, VariantType, v) && Track(cx, VariantType, v, last).Some?
    ensures DecodesBack(cx, VariantType, v, suffix, last)
    decreases v, 1, 0
  {
    hide DecLeaf, EncLeaf, LeBytes, LeValue, Pow256, EncodeUnsigned, TypeOfName, TypeName;
    var dt := TypeOfName(v.fields["type"].s).value;
    var x := v.fields["value"];
    RoundTripForward(cx, DataType(dt), x, suffix, last);
    Prefix([dt], Enc(cx, DataType(dt), x).bytes, suffix);
    assert v.fields == map["type" := Str(TypeName(dt)), "value" := x];
  }

  lemma {:induction false} RoundTripData(cx: Context, dt: byte, v: Json, suffix: seq<byte>, last: Option<int>)
    requires cx.Valid()
    requires Enc(cx, DataType(dt), v).Ok? && Canon(cx, DataType(dt), v) && Track(cx, DataType(dt), v, last).Some?
    ensures DecodesBack(cx, DataType(dt), v, suffix, last)
    decreases v, 2, 0
  {
    hide KindOf, DecItems, EncItems, CanonItems, TrackItems, DecLeaf, EncLeaf, CanonLeaf, LeafTrack, EncTyped,
      TrackTyped, TypeOfName, EncodeUnsigned, LeBytes, LeValue;
    match KindOf(dt)
    case Structure =>
      if v.Null? {
        NullMarker();
        TakePrefix([0xFF, 0xFF], suffix);
      } else {
        var length := EncodeLength(|v.items|, 2).bytes;
        CountPrefix(|v.items|);
        RoundTripItems(cx, VariantType, v.items, suffix, last);
        Prefix(length, EncItems(cx, VariantType, v.items).bytes, suffix);
      }
    case TypedArray =>
      RoundTripTyped(cx, dt, v, suffix, last);
    case k =>
      LeafRoundTrip(cx, k, v, suffix, last);
  }

  lemma NullMarker()
    ensures LeValue([0xFF, 0xFF]) == 0xFFFF
  {
    assert LeValue([0xFF, 0xFF][1..]) == 0xFF;
  }

  lemma CountPrefix(size: nat)
    requires size < 0xFFFF
    ensures EncodeLength(size, 2).Ok? && |EncodeLength(size, 2).bytes| == 2
    ensures LeValue(EncodeLength(size, 2).bytes) == size
  {
    UnsignedRoundTrip(size, 2);
    Pow256Small(2);
  }

  lemma {:induction false} RoundTripTyped(cx: Context, dt: byte, v: Json, suffix: seq<byte>, last: Option<int>)
    requires cx.Valid() && KindOf(dt).TypedArray?
    requires EncTyped(cx, v).Ok? && CanonTyped(cx, v) && TrackTyped(cx, v, last).Some?
    ensures var b := EncTyped(cx, v).bytes;
      Dec(cx, DataType(dt), b + suffix, last) == Got(v, |b|, TrackTyped(cx, v, last).value)
    decreases v, 1, 0
  {
    hide KindOf, DecItems, EncItems, CanonItems, TrackItems, DecLeaf, EncLeaf, CanonLeaf, LeafTrack, TypeOfName,
      EncodeUnsigned, LeBytes, LeValue, TypeName;
    var et := TypeOfName(v.fields["element_type"].s).value;
    var elements := v.fields["elements"];
    var bs := EncTyped(cx, v).bytes + suffix;
    if elements.Null? {
      NullMarker();
      assert bs[0] == et && bs[1..3] == [0xFF, 0xFF];
    } else {
      var length, body := EncodeLength(|elements.items|, 2).bytes, EncItems(cx, DataType(et), elements.items).bytes;
      CountPrefix(|elements.items|);
      RoundTripItems(cx, DataType(et), elements.items, suffix, last);
      assert bs == [et] + length + body + suffix;
      assert bs[0] == et && bs[1..3] == length && bs[3..] == body + suffix;
    }
    assert v.fields == map["element_type" := Str(TypeName(et)), "elements" := elements];
  }

  /** One element, then the others: the decoder's loops taken one step apart. */
  lemma ItemsStep(cx: Context, t: Schema, n: nat, b: seq<byte>, rest: seq<byte>, last: Option<int>)
    requires n > 0 && Dec(cx, t, b + rest, last).Got? && Dec(cx, t, b + rest, last).used == |b|
    ensures var x := Dec(cx, t, b + rest, last);
      var y := DecItems(cx, t, n - 1, rest, x.last);
      y.Got? ==> DecItems(cx, t, n, b + rest, last) == Got([x.value] + y.value, |b| + y.used, y.last)
  {
    hide Dec;
    TakePrefix(b, rest);
  }

  lemma GreedyStep(cx: Context, t: Schema, b: seq<byte>, rest: seq<byte>, last: Option<int>)
    requires b != [] && Dec(cx, t, b + rest, last).Got? && Dec(cx, t, b + rest, last).used == |b|
    ensures var x := Dec(cx, t, b + rest, last);
      var y := DecGreedy(cx, t, rest, x.last);
      y.Got? ==> DecGreedy(cx, t, b + rest, last) == Got([x.value] + y.value, |b| + y.used, y.last)
  {
    hide Dec;
    TakePrefix(b, rest);
  }

  lemma PropertiesStep(cx: Context, ps: seq<Property>, b: seq<byte>, rest: seq<byte>, last: Option<int>)
    requires ps != [] && Dec(cx, ps[0].typ, b + rest, last).Got? && Dec(cx, ps[0].typ, b + rest, last).used == |b|
    ensures var x := Dec(cx, ps[0].typ, b + rest, last);
      var y := DecProperties(cx, ps[1..], rest, x.last);
      y.Got? ==>
        DecProperties(cx, ps, b + rest, last) == Got(map[ps[0].name := x.value] + y.value, |b| + y.used, y.last)
  {
    hide Dec;
    TakePrefix(b, rest);
  }

  lemma Associate(a: seq<byte>, b: seq<byte>, c: seq<byte>)
    ensures a + b + c == a + (b + c)
  {
  }

  /** What is known of a non-empty list of items is known of its head and its tail. */
  lemma ItemsParts(cx: Context, t: Schema, items: seq<Json>, last: Option<int>)
    requires items != []
    requires EncItems(cx, t, items).Ok? && CanonItems(cx, t, items) && TrackItems(cx, t, items, last).Some?
    ensures Enc(cx, t, items[0]).Ok? && EncItems(cx, t, items[1..]).Ok?
    ensures EncItems(cx, t, items).bytes == Enc(cx, t, items[0]).bytes + EncItems(cx, t, items[1..]).bytes
    ensures Canon(cx, t, items[0]) && CanonItems(cx, t, items[1..])
    ensures Track(cx, t, items[0], last).Some?
    ensures TrackItems(cx, t, items[1..], Track(cx, t, items[0], last).value) == TrackItems(cx, t, items, last)
    ensures items == [items[0]] + items[1..]
  {
    hide Enc, Canon, Track;
  }

  lemma NoItems(cx: Context, t: Schema, last: Option<int>)
    ensures EncItems(cx, t, []) == Ok([]) && TrackItems(cx, t, [], last) == Some(last)
    ensures forall bs :: DecItems(cx, t, 0, bs, last) == Got([], 0, last)
    ensures DecGreedy(cx, t, [], last) == Got([], 0, last)
  {
  }

  lemma {:induction false} RoundTripItems(cx: Context, t: Schema, items: seq<Json>, suffix: seq<byte>,
      last: Option<int>)
    requires cx.Valid() && TailGreedy(t) && !EndsGreedy(t)
    requires EncItems(cx, t, items).Ok? && CanonItems(cx, t, items) && TrackItems(cx, t, items, last).Some?
    ensures var b := EncItems(cx, t, items).bytes;
      DecItems(cx, t, |items|, b + suffix, last) == Got(items, |b|, TrackItems(cx, t, items, last).value)
    decreases items, 0, 0
  {
    hide Dec, Enc, Canon, Track, TailGreedy, EndsGreedy, DecItems, EncItems, CanonItems, TrackItems;
    if items == [] {
      NoItems(cx, t, last);
    } else {
      ItemsParts(cx, t, items, last);
      var b, rest := Enc(cx, t, items[0]).bytes, EncItems(cx, t, items[1..]).bytes;
      RoundTripForward(cx, t, items[0], rest + suffix, last);
      RoundTripItems(cx, t, items[1..], suffix, Track(cx, t, items[0], last).value);
      ItemsStep(cx, t, |items|, b, rest + suffix, last);
      Associate(b, rest, suffix);
    }
  }

  lemma {:induction false} RoundTripGreedy(cx: Context, t: Schema, items: seq<Json>, last: Option<int>)
    requires cx.Valid() && TailGreedy(t) && !EndsGreedy(t) && ConsumesByte(t)
    requires EncItems(cx, t, items).Ok? && CanonItems(cx, t, items) && TrackItems(cx, t, items, last).Some?
    ensures var b := EncItems(cx, t, items).bytes;
      DecGreedy(cx, t, b, last) == Got(items, |b|, TrackItems(cx, t, items, last).value)
    decreases items, 0, 0
  {
    hide Dec, Enc, Canon, Track, TailGreedy, EndsGreedy, ConsumesByte, DecGreedy, EncItems, CanonItems, TrackItems;
    if items == [] {
      NoItems(cx, t, last);
    } else {
      ItemsParts(cx, t, items, last);
      var b, rest := Enc(cx, t, items[0]).bytes, EncItems(cx, t, items[1..]).bytes;
      EncodingNonEmpty(cx, t, items[0]);
      RoundTripForward(cx, t, items[0], rest, last);
      RoundTripGreedy(cx, t, items[1..], Track(cx, t, items[0], last).value);
      GreedyStep(cx, t, b, rest, last);
    }
  }

  lemma {:induction false} RoundTripArray(cx: Context, n: nat, e: Schema, v: Json, suffix: seq<byte>, last: Option<int>)
    requires cx.Valid() && TailGreedy(ArrayType(n, e)) && (n == 0 ==> suffix == [])
    requires var t := ArrayType(n, e); Enc(cx, t, v).Ok? && Canon(cx, t, v) && Track(cx, t, v, last).Some?
    ensures DecodesBack(cx, ArrayType(n, e), v, suffix, last)
    decreases v, 1, 0
  {
    hide DecItems, DecGreedy, EncItems, CanonItems, TrackItems, DecLeaf, EncLeaf, EncodeUnsigned, LeBytes, LeValue,
      Pow256;
    var body := EncItems(cx, e, v.items).bytes;
    if n == 0 {
      RoundTripGreedy(cx, e, v.items, last);
      assert [] + body + suffix == body;
    } else {
      var length := EncodeLength(|v.items|, n).bytes;
      UnsignedRoundTrip(|v.items|, n);
      RoundTripItems(cx, e, v.items, suffix, last);
      Prefix(length, body, suffix);
    }
  }

  lemma {:induction false} RoundTripErrorOr(cx: Context, s: Schema, v: Json, suffix: seq<byte>, last: Option<int>)
    requires cx.Valid() && TailGreedy(s) && (EndsGreedy(s) ==> suffix == [])
    requires var t := ErrorOrType(s); Enc(cx, t, v).Ok? && Canon(cx, t, v) && Track(cx, t, v, last).Some?
    ensures DecodesBack(cx, ErrorOrType(s), v, suffix, last)
    decreases v, 1, 0
  {
    hide DecLeaf, EncLeaf, LeBytes, LeValue, Pow256, EncodeUnsigned;
    if "error" in v.fields {
      var status := v.fields["error"].n;
      UnsignedRoundTrip(status, 1);
      OneByte(status);
      assert v.fields == map["error" := Num(status)];
    } else {
      var x := v.fields["success"];
      OneByte(0);
      RoundTripForward(cx, s, x, suffix, last);
      Prefix([0], Enc(cx, s, x).bytes, suffix);
      assert v.fields == map["success" := x];
    }
  }

  lemma OneByte(v: nat)
    requires v < 256
    ensures EncodeUnsigned(v, 1) == Ok([v])
  {
    UnsignedReencode([v]);
  }

  lemma {:induction false} RoundTripProperties(cx: Context, ps: seq<Property>, v: Json, suffix: seq<byte>,
      last: Option<int>)
    requires cx.Valid() && AllTailGreedy(ps) && (ps != [] && EndsGreedy(ps[|ps| - 1].typ) ==> suffix == [])
    requires v.Obj? && Names(ps) <= v.fields.Keys
    requires EncProperties(cx, ps, v).Ok? && CanonProperties(cx, ps, v) && TrackProperties(cx, ps, v, last).Some?
    ensures var b := EncProperties(cx, ps, v).bytes;
      DecProperties(cx, ps, b + suffix, last) == Got(Pick(v, ps), |b|, TrackProperties(cx, ps, v, last).value)
    decreases v, 0, |ps|
  {
    hide Dec, Enc, Canon, Track, TailGreedy, EndsGreedy, Names, Pick;
    if ps == [] {
      EmptyPick(v);
    } else {
      var x := v.fields[ps[0].name];
      var b, rest := Enc(cx, ps[0].typ, x).bytes, EncProperties(cx, ps[1..], v).bytes;
      LastOfRest(ps);
      assert |ps| == 1 ==> rest + suffix == suffix;
      RoundTripForward(cx, ps[0].typ, x, rest + suffix, last);
      PickStep(v, ps);
      RoundTripProperties(cx, ps[1..], v, suffix, Track(cx, ps[0].typ, x, last).value);
      PropertiesStep(cx, ps, b, rest + suffix, last);
      Associate(b, rest, suffix);
    }
  }
}
