/**
 Decode then encode: re-encoding a decoded value reproduces exactly the consumed bytes when,
 and only when, those bytes are clean. With it, the round trip of DynamicRoundTrip becomes
 an equivalence.
 */
module DynamicReencode {
  import opened Bytes
  import opened DataTypes
  import opened DynamicTypes
  import opened DynamicSpec
  import opened DynamicLeaves
  import opened DynamicRoundTrip

  /** No byte read on the way loses information: Booleans are 00, 01 or FF, bitmaps have no
      bit from 31 up, integers are at most 7 bytes wide, a NaN is the quiet one the encoder
      writes, and no Xiaomi block is entered. */
  ghost predicate Clean(cx: Context, t: Schema, bs: seq<byte>, last: Option<int>)
    decreases |bs|, t, 0
  {
    match t
    case VariantType =>
      bs != [] && !(bs[0] == STRING && last == Some(FF01)) && Clean(cx, DataType(bs[0]), bs[1..], last)
    case XiaomiFF01Type => false
    case DataType(dt) =>
      (match KindOf(dt)
       case Structure =>
         |bs| >= 2 && (LeValue(bs[..2]) == 0xFFFF || CleanItems(cx, VariantType, LeValue(bs[..2]), bs[2..], last))
       case TypedArray =>
         |bs| >= 3 && (LeValue(bs[1..3]) == 0xFFFF || CleanItems(cx, DataType(bs[0]), LeValue(bs[1..3]), bs[3..], last))
       case k => CleanLeaf(k, bs))
    case ObjectType(ps) => CleanProperties(cx, ps, bs, last)
    case ArrayType(n, e) =>
      if n == 0 then CleanGreedy(cx, e, bs, last)
      else |bs| >= n && CleanItems(cx, e, LeValue(bs[..n]), bs[n..], last)
    case ErrorOrType(s) => bs != [] && (bs[0] != 0 || Clean(cx, s, bs[1..], last))
  }

  ghost predicate CleanItems(cx: Context, t: Schema, n: nat, bs: seq<byte>, last: Option<int>)
    decreases |bs|, t, 1 + n
  {
    n == 0
    || (Clean(cx, t, bs, last)
        && (match Dec(cx, t, bs, last)
            case Failed(_) => false
            case Got(_, k, l) => CleanItems(cx, t, n - 1, bs[k..], l)))
  }

  ghost predicate CleanGreedy(cx: Context, t: Schema, bs: seq<byte>, last: Option<int>)
    decreases |bs|, t, 1
  {
    bs == []
    || (Clean(cx, t, bs, last)
        && (match Dec(cx, t, bs, last)
            case Failed(_) => false
            case Got(_, k, l) => k > 0 && CleanGreedy(cx, t, bs[k..], l)))
  }

  ghost predicate CleanProperties(cx: Context, ps: seq<Property>, bs: seq<byte>, last: Option<int>)
    decreases |bs|, ps, 1
  {
    ps == []
    || (Clean(cx, ps[0].typ, bs, last)
        && (match Dec(cx, ps[0].typ, bs, last)
            case Failed(_) => false
            case Got(_, k, l) => CleanProperties(cx, ps[1..], bs[k..], l)))
  }

  /** How an encoding compares with the bytes a value was decoded from. */
  ghost predicate Matches(e: Encoded, bs: seq<byte>, used: nat, clean: bool)
    requires used <= |bs|
  {
    (e.Ok? ==> |e.bytes| == used) && (e == Ok(bs[..used]) <==> clean)
  }

  /** Sequencing two pieces sequences their comparison. */
  lemma MatchesThen(e1: Encoded, e2: Encoded, bs: seq<byte>, k1: nat, k2: nat, clean1: bool, clean2: bool)
    requires k1 + k2 <= |bs|
    requires Matches(e1, bs, k1, clean1) && Matches(e2, bs[k1..], k2, clean2)
    ensures Matches(e1.Then(e2), bs, k1 + k2, clean1 && clean2)
  {
    assert bs[..k1 + k2] == bs[..k1] + bs[k1..][..k2];
    if e1.Ok? && e2.Ok? {
      assert (e1.bytes + e2.bytes)[..k1] == e1.bytes && (e1.bytes + e2.bytes)[k1..] == e2.bytes;
      assert bs[..k1 + k2][..k1] == bs[..k1] && bs[..k1 + k2][k1..] == bs[k1..][..k2];
    }
  }

  /** Re-encoding what was decoded from bs: the exact bytes iff clean, canonical and tracked. */
  ghost predicate Reencodes(cx: Context, t: Schema, bs: seq<byte>, last: Option<int>)
    requires Dec(cx, t, bs, last).Got?
  {
    var r := Dec(cx, t, bs, last);
    && Matches(Enc(cx, t, r.value), bs, r.used, Clean(cx, t, bs, last))
    && (Enc(cx, t, r.value).Ok? ==> Canon(cx, t, r.value) && Track(cx, t, r.value, last) == Some(r.last))
  }

  lemma {:induction false} Reencode(cx: Context, t: Schema, bs: seq<byte>, last: Option<int>)
    requires cx.Valid() && Unambiguous(t) && Dec(cx, t, bs, last).Got?
    ensures Reencodes(cx, t, bs, last)
    decreases |bs|, t, 3
  {
    hide KindOf, DecItems, DecGreedy, EncItems, CanonItems, TrackItems, CleanItems, CleanGreedy, DecLeaf, EncLeaf,
      CanonLeaf, CleanLeaf, LeafTrack, EncTyped, CanonTyped, TrackTyped, TypeOfName, EncodeUnsigned, LeBytes, LeValue;
    match t
    case VariantType =>
      ReencodeVariant(cx, bs, last);
    case XiaomiFF01Type =>
      assert Enc(cx, t, Dec(cx, t, bs, last).value).Err?;
    case DataType(dt) =>
      ReencodeData(cx, dt, bs, last);
    case ObjectType(ps) =>
      ReencodeObject(cx, ps, bs, last);
    case ArrayType(n, e) =>
      ReencodeArray(cx, n, e, bs, last);
    case ErrorOrType(s) =>
      ReencodeErrorOr(cx, s, bs, last);
  }

  lemma {:induction false} ReencodeVariant(cx: Context, bs: seq<byte>, last: Option<int>)
    requires cx.Valid() && Dec(cx, VariantType, bs, last).Got?
    ensures Reencodes(cx, VariantType, bs, last)
    decreases |bs|, VariantType, 2
  {
    hide KindOf, DecItems, EncItems, CanonItems, TrackItems, CleanItems, DecLeaf, EncLeaf, DecEntries,
      CanonLeaf, CleanLeaf, LeafTrack, EncTyped, CanonTyped, TrackTyped, TypeOfName, TypeName, EncodeUnsigned, LeBytes,
      LeValue;
    var v := Dec(cx, VariantType, bs, last).value;
    if bs[0] == STRING && last == Some(FF01) {
      XiaomiIsNoType();
      assert v.fields["type"] == Str("xiaomi_ff01");
      assert Enc(cx, VariantType, v).Err?;
    } else {
      var x := Dec(cx, DataType(bs[0]), bs[1..], last);
      TypeNameRoundTrip(bs[0]);
      Reencode(cx, DataType(bs[0]), bs[1..], last);
      assert v == TypedValue(bs[0], x.value);
      assert v.fields["value"] == x.value && v.fields["type"] == Str(TypeName(bs[0]));
      assert Matches(Ok([bs[0]]), bs, 1, true);
      MatchesThen(Ok([bs[0]]), Enc(cx, DataType(bs[0]), x.value), bs, 1, x.used, true,
        Clean(cx, DataType(bs[0]), bs[1..], last));
    }
  }

  lemma {:induction false} ReencodeData(cx: Context, dt: byte, bs: seq<byte>, last: Option<int>)
    requires cx.Valid() && Dec(cx, DataType(dt), bs, last).Got?
    ensures Reencodes(cx, DataType(dt), bs, last)
    decreases |bs|, DataType(dt), 2
  {
    hide KindOf, DecItems, EncItems, CanonItems, TrackItems, CleanItems, DecLeaf, EncLeaf,
      CanonLeaf, CleanLeaf, LeafTrack, EncTyped, TrackTyped, TypeOfName, TypeName, EncodeUnsigned, LeBytes, LeValue;
    match KindOf(dt)
    case Structure =>
      ReencodeStructure(cx, dt, bs, last);
    case TypedArray =>
      ReencodeTyped(cx, dt, bs, last);
    case k =>
      LeafReencode(cx, k, bs, last);
  }

  lemma CountReencode(bs: seq<byte>)
    requires |bs| == 2
    ensures EncodeLength(LeValue(bs), 2) == Ok(bs) && LeValue(bs) <= 0xFFFF
    ensures LeValue(bs) == 0xFFFF <==> bs == [0xFF, 0xFF]
  {
    UnsignedReencode(bs);
    Pow256Small(2);
    LeBytesOfValue(bs);
    NullMarker();
    LeBytesOfValue([0xFF, 0xFF]);
  }

  lemma {:induction false} ReencodeStructure(cx: Context, dt: byte, bs: seq<byte>, last: Option<int>)
    requires cx.Valid() && KindOf(dt).Structure? && Dec(cx, DataType(dt), bs, last).Got?
    ensures Reencodes(cx, DataType(dt), bs, last)
    decreases |bs|, DataType(dt), 1
  {
    hide KindOf, DecItems, EncItems, CanonItems, TrackItems, CleanItems, DecLeaf, EncLeaf, CanonLeaf, CleanLeaf,
      LeafTrack, EncTyped, CanonTyped, TrackTyped, EncodeUnsigned, LeBytes, LeValue;
    var n := LeValue(bs[..2]);
    CountReencode(bs[..2]);
    if n != 0xFFFF {
      var x := DecItems(cx, VariantType, n, bs[2..], last);
      ReencodeItems(cx, VariantType, n, bs[2..], last);
      MatchesThen(EncodeLength(n, 2), EncItems(cx, VariantType, x.value), bs, 2, x.used, true,
                  CleanItems(cx, VariantType, n, bs[2..], last));
    }
  }

  lemma {:induction false} ReencodeTyped(cx: Context, dt: byte, bs: seq<byte>, last: Option<int>)
    requires cx.Valid() && KindOf(dt).TypedArray? && Dec(cx, DataType(dt), bs, last).Got?
    ensures Reencodes(cx, DataType(dt), bs, last)
    decreases |bs|, DataType(dt), 1
  {
    hide KindOf, DecItems, EncItems, CanonItems, TrackItems, CleanItems, DecLeaf, EncLeaf, CanonLeaf, CleanLeaf,
      LeafTrack, EncodeUnsigned, LeBytes, LeValue, TypeOfName, TypeName;
    var et, n, v := bs[0], LeValue(bs[1..3]), Dec(cx, DataType(dt), bs, last).value;
    CountReencode(bs[1..3]);
    TypeNameRoundTrip(et);
    assert v.fields["element_type"] == Str(TypeName(et));
    assert Matches(Ok([et]), bs, 1, true);
    if n == 0xFFFF {
      assert v.fields["elements"] == Null;
      MatchesThen(Ok([et]), Ok([0xFF, 0xFF]), bs, 1, 2, true, true);
      assert Enc(cx, DataType(dt), v) == Ok([et]).Then(Ok([0xFF, 0xFF]));
      assert Clean(cx, DataType(dt), bs, last);
      assert CanonTyped(cx, v);
      assert Track(cx, DataType(dt), v, last) == Some(last);
    } else {
      var x := DecItems(cx, DataType(et), n, bs[3..], last);
      assert v.fields["elements"] == Arr(x.value);
      ReencodeItems(cx, DataType(et), n, bs[3..], last);
      assert bs[1..][2..] == bs[3..] && bs[1..][..2] == bs[1..3];
      var clean := CleanItems(cx, DataType(et), n, bs[3..], last);
      MatchesThen(EncodeLength(n, 2), EncItems(cx, DataType(et), x.value), bs[1..], 2, x.used, true, clean);
      var body := EncodeLength(n, 2).Then(EncItems(cx, DataType(et), x.value));
      MatchesThen(Ok([et]), body, bs, 1, 2 + x.used, true, clean);
      assert Enc(cx, DataType(dt), v) == Ok([et]).Then(body);
      assert Clean(cx, DataType(dt), bs, last) == clean;
      assert Dec(cx, DataType(dt), bs, last).used == 3 + x.used;
      assert Matches(Enc(cx, DataType(dt), v), bs, 3 + x.used, clean);
      if body.Ok? {
        assert CanonTyped(cx, v);
        assert Track(cx, DataType(dt), v, last) == TrackItems(cx, DataType(et), x.value, last);
      }
    }
  }

  lemma {:induction false} ReencodeItems(cx: Context, t: Schema, n: nat, bs: seq<byte>, last: Option<int>)
    requires cx.Valid() && Unambiguous(t) && DecItems(cx, t, n, bs, last).Got?
    ensures var r := DecItems(cx, t, n, bs, last);
      && |r.value| == n
      && Matches(EncItems(cx, t, r.value), bs, r.used, CleanItems(cx, t, n, bs, last))
      && (EncItems(cx, t, r.value).Ok? ==>
            CanonItems(cx, t, r.value) && TrackItems(cx, t, r.value, last) == Some(r.last))
    decreases |bs|, t, 4 + n
  {
    hide Dec, Enc, Canon, Track, Clean, Unambiguous;
    if n > 0 {
      var x := Dec(cx, t, bs, last);
      var y := DecItems(cx, t, n - 1, bs[x.used..], x.last);
      Reencode(cx, t, bs, last);
      ReencodeItems(cx, t, n - 1, bs[x.used..], x.last);
      MatchesThen(Enc(cx, t, x.value), EncItems(cx, t, y.value), bs, x.used, y.used,
                  Clean(cx, t, bs, last), CleanItems(cx, t, n - 1, bs[x.used..], x.last));
      var items := DecItems(cx, t, n, bs, last).value;
      assert items == [x.value] + y.value && items[1..] == y.value;
    }
  }

  lemma {:induction false} ReencodeGreedy(cx: Context, t: Schema, bs: seq<byte>, last: Option<int>)
    requires cx.Valid() && Unambiguous(t) && DecGreedy(cx, t, bs, last).Got?
    ensures var r := DecGreedy(cx, t, bs, last);
      && Matches(EncItems(cx, t, r.value), bs, r.used, CleanGreedy(cx, t, bs, last))
      && (EncItems(cx, t, r.value).Ok? ==>
            CanonItems(cx, t, r.value) && TrackItems(cx, t, r.value, last) == Some(r.last))
    decreases |bs|, t, 4
  {
    hide Dec, Enc, Canon, Track, Clean, Unambiguous;
    if bs != [] {
      var x := Dec(cx, t, bs, last);
      var y := DecGreedy(cx, t, bs[x.used..], x.last);
      Reencode(cx, t, bs, last);
      ReencodeGreedy(cx, t, bs[x.used..], x.last);
      MatchesThen(Enc(cx, t, x.value), EncItems(cx, t, y.value), bs, x.used, y.used,
                  Clean(cx, t, bs, last), CleanGreedy(cx, t, bs[x.used..], x.last));
      var items := DecGreedy(cx, t, bs, last).value;
      assert items == [x.value] + y.value && items[1..] == y.value;
    }
  }

  lemma {:induction false} ReencodeArray(cx: Context, n: nat, e: Schema, bs: seq<byte>, last: Option<int>)
    requires cx.Valid() && Unambiguous(ArrayType(n, e)) && Dec(cx, ArrayType(n, e), bs, last).Got?
    ensures Reencodes(cx, ArrayType(n, e), bs, last)
    decreases |bs|, ArrayType(n, e), 2
  {
    hide DecItems, DecGreedy, EncItems, CanonItems, TrackItems, CleanItems, CleanGreedy, DecLeaf, EncLeaf,
      EncodeUnsigned, LeBytes, LeValue;
    if n == 0 {
      ReencodeGreedy(cx, e, bs, last);
      var x := DecGreedy(cx, e, bs, last);
      MatchesThen(Ok([]), EncItems(cx, e, x.value), bs, 0, x.used, true, CleanGreedy(cx, e, bs, last));
      assert bs[0..] == bs;
    } else {
      var size := LeValue(bs[..n]);
      var x := DecItems(cx, e, size, bs[n..], last);
      UnsignedReencode(bs[..n]);
      ReencodeItems(cx, e, size, bs[n..], last);
      MatchesThen(EncodeLength(size, n), EncItems(cx, e, x.value), bs, n, x.used, true,
                  CleanItems(cx, e, size, bs[n..], last));
    }
  }

  lemma {:induction false} ReencodeErrorOr(cx: Context, s: Schema, bs: seq<byte>, last: Option<int>)
    requires cx.Valid() && Unambiguous(s) && Dec(cx, ErrorOrType(s), bs, last).Got?
    ensures Reencodes(cx, ErrorOrType(s), bs, last)
    decreases |bs|, ErrorOrType(s), 2
  {
    hide DecLeaf, EncLeaf, LeBytes, LeValue, EncodeUnsigned, Unambiguous;
    if bs[0] != 0 {
      ReencodeError(cx, s, bs, last);
    } else {
      Reencode(cx, s, bs[1..], last);
      ReencodeSuccess(cx, s, bs, last);
    }
  }

  lemma ReencodeError(cx: Context, s: Schema, bs: seq<byte>, last: Option<int>)
    requires bs != [] && bs[0] != 0
    ensures Dec(cx, ErrorOrType(s), bs, last).Got? && Reencodes(cx, ErrorOrType(s), bs, last)
  {
    hide DecLeaf, EncLeaf, LeBytes, LeValue, EncodeUnsigned;
    OneByte(bs[0]);
    var v := Dec(cx, ErrorOrType(s), bs, last).value;
    assert v.fields == map["error" := Num(bs[0])];
    assert Enc(cx, ErrorOrType(s), v) == Ok([bs[0]] + []);
  }

  function SuccessValue(x: Json): Json {
    Obj(map["success" := x])
  }

  lemma EncodeSuccess(cx: Context, s: Schema, x: Json)
    ensures Enc(cx, ErrorOrType(s), SuccessValue(x)) == Ok([0]).Then(Enc(cx, s, x))
  {
    hide DecLeaf, EncLeaf, LeBytes, LeValue, EncodeUnsigned;
    OneByte(0);
    assert SuccessValue(x).fields["success"] == x;
  }

  lemma CanonSuccess(cx: Context, s: Schema, x: Json, last: Option<int>)
    ensures Canon(cx, ErrorOrType(s), SuccessValue(x)) == Canon(cx, s, x)
    ensures Track(cx, ErrorOrType(s), SuccessValue(x), last) == Track(cx, s, x, last)
  {
    assert SuccessValue(x).fields["success"] == x;
    assert "success" in SuccessValue(x).fields.Keys && "error" !in SuccessValue(x).fields.Keys;
  }

  lemma ReencodeSuccess(cx: Context, s: Schema, bs: seq<byte>, last: Option<int>)
    requires bs != [] && bs[0] == 0 && Dec(cx, s, bs[1..], last).Got? && Reencodes(cx, s, bs[1..], last)
    ensures Dec(cx, ErrorOrType(s), bs, last).Got? && Reencodes(cx, ErrorOrType(s), bs, last)
  {
    hide Enc, Canon, Track;
    var x := Dec(cx, s, bs[1..], last);
    assert Dec(cx, ErrorOrType(s), bs, last) == Got(SuccessValue(x.value), 1 + x.used, x.last);
    EncodeSuccess(cx, s, x.value);
    CanonSuccess(cx, s, x.value, last);
    assert Matches(Ok([0]), bs, 1, true);
    MatchesThen(Ok([0]), Enc(cx, s, x.value), bs, 1, x.used, true, Clean(cx, s, bs[1..], last));
  }

  // ----- Objects -----

  lemma {:induction false} DecodedNames(cx: Context, ps: seq<Property>, bs: seq<byte>, last: Option<int>)
    requires DecProperties(cx, ps, bs, last).Got?
    ensures DecProperties(cx, ps, bs, last).value.Keys == Names(ps)
    decreases ps
  {
    hide Dec;
    if ps != [] {
      var x := Dec(cx, ps[0].typ, bs, last);
      DecodedNames(cx, ps[1..], bs[x.used..], x.last);
    }
  }

  /** Encoding the properties ps looks only at the members they name. */
  lemma {:induction false} PropertiesOnly(cx: Context, ps: seq<Property>, a: Json, b: Json, last: Option<int>)
    requires a.Obj? && b.Obj? && Names(ps) <= a.fields.Keys && Names(ps) <= b.fields.Keys
    requires forall name | name in Names(ps) :: a.fields[name] == b.fields[name]
    ensures EncProperties(cx, ps, a) == EncProperties(cx, ps, b)
    ensures CanonProperties(cx, ps, a) == CanonProperties(cx, ps, b)
    ensures TrackProperties(cx, ps, a, last) == TrackProperties(cx, ps, b, last)
    decreases ps
  {
    hide Enc, Canon, Track;
    if ps != [] {
      var x := a.fields[ps[0].name];
      assert x == b.fields[ps[0].name];
      match Track(cx, ps[0].typ, x, last)
      case None =>
        PropertiesOnly(cx, ps[1..], a, b, last);
      case Some(l) =>
        PropertiesOnly(cx, ps[1..], a, b, l);
    }
  }

  lemma {:induction false} ReencodeProperties(cx: Context, ps: seq<Property>, bs: seq<byte>, last: Option<int>)
    requires cx.Valid() && AllUnambiguous(ps) && DecProperties(cx, ps, bs, last).Got?
    ensures var r := DecProperties(cx, ps, bs, last);
      && Matches(EncProperties(cx, ps, Obj(r.value)), bs, r.used, CleanProperties(cx, ps, bs, last))
      && (EncProperties(cx, ps, Obj(r.value)).Ok? ==>
            CanonProperties(cx, ps, Obj(r.value)) && TrackProperties(cx, ps, Obj(r.value), last) == Some(r.last))
    decreases |bs|, ps, 4
  {
    hide Dec, Enc, Canon, Track, Clean, Unambiguous;
    if ps != [] {
      var x := Dec(cx, ps[0].typ, bs, last);
      var y := DecProperties(cx, ps[1..], bs[x.used..], x.last);
      Reencode(cx, ps[0].typ, bs, last);
      ReencodeProperties(cx, ps[1..], bs[x.used..], x.last);
      DecodedNames(cx, ps[1..], bs[x.used..], x.last);
      var v := Obj(DecProperties(cx, ps, bs, last).value);
      assert v.fields == map[ps[0].name := x.value] + y.value;
      PropertiesOnly(cx, ps[1..], v, Obj(y.value), x.last);
      MatchesThen(Enc(cx, ps[0].typ, x.value), EncProperties(cx, ps[1..], v), bs, x.used, y.used,
                  Clean(cx, ps[0].typ, bs, last), CleanProperties(cx, ps[1..], bs[x.used..], x.last));
    }
  }

  lemma {:induction false} ReencodeObject(cx: Context, ps: seq<Property>, bs: seq<byte>, last: Option<int>)
    requires cx.Valid() && AllUnambiguous(ps) && Dec(cx, ObjectType(ps), bs, last).Got?
    ensures Reencodes(cx, ObjectType(ps), bs, last)
    decreases |bs|, ObjectType(ps), 2
  {
    hide DecProperties, EncProperties, CanonProperties, TrackProperties, CleanProperties, Names, AllUnambiguous;
    ReencodeProperties(cx, ps, bs, last);
    DecodedNames(cx, ps, bs, last);
  }
}
