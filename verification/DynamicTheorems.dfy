/**
 The laws of the schema-driven codec over every schema, value and input: exact round trips
 in both directions, self-delimitation, termination, and the extent of a Xiaomi block.
 */
module DynamicTheorems {
  import opened Bytes
  import opened DataTypes
  import opened DynamicTypes
  import opened DynamicSpec
  import opened DynamicLeaves
  import opened DynamicRoundTrip
  import opened DynamicReencode

  // ----- Round trips -----

  /** An accepted value comes back from its encoding, followed by anything the schema leaves
      to others, if and only if it is canonical and no string variant is met on the way while
      FF01 is the attribute id read last. */
  lemma RoundTrip(cx: Context, t: Schema, v: Json, suffix: seq<byte>, last: Option<int>)
    requires cx.Valid() && TailGreedy(t) && Unambiguous(t) && (EndsGreedy(t) ==> suffix == [])
    requires Enc(cx, t, v).Ok?
    ensures var b := Enc(cx, t, v).bytes;
      var r := Dec(cx, t, b + suffix, last);
      r.Got? && r.value == v && r.used == |b| <==> Canon(cx, t, v) && Track(cx, t, v, last).Some?
  {
    hide Enc, Dec, Canon, Track, TailGreedy, Unambiguous, EndsGreedy, Clean;
    var b := Enc(cx, t, v).bytes;
    if Canon(cx, t, v) && Track(cx, t, v, last).Some? {
      RoundTripForward(cx, t, v, suffix, last);
    }
    if Dec(cx, t, b + suffix, last).Got? {
      Reencode(cx, t, b + suffix, last);
    }
  }

  /** Re-encoding a decoded value reproduces exactly the consumed bytes if and only if they
      are clean; and a re-encoding that succeeds always has their length. */
  lemma ReencodeExact(cx: Context, t: Schema, bs: seq<byte>, last: Option<int>)
    requires cx.Valid() && Unambiguous(t) && Dec(cx, t, bs, last).Got?
    ensures var r := Dec(cx, t, bs, last);
      && (Enc(cx, t, r.value) == Ok(bs[..r.used]) <==> Clean(cx, t, bs, last))
      && (Enc(cx, t, r.value).Ok? ==> |Enc(cx, t, r.value).bytes| == r.used)
  {
    hide Enc, Dec, Canon, Track, Unambiguous, Clean;
    Reencode(cx, t, bs, last);
  }

  /** Decoding never makes up a value the schema's encoder would read differently: decode,
      encode, decode gives the same value again. */
  lemma DecodeEncodeDecode(cx: Context, t: Schema, bs: seq<byte>, last: Option<int>)
    requires cx.Valid() && TailGreedy(t) && Unambiguous(t) && Dec(cx, t, bs, last).Got?
    requires Enc(cx, t, Dec(cx, t, bs, last).value).Ok?
    ensures var r := Dec(cx, t, bs, last);
      Dec(cx, t, Enc(cx, t, r.value).bytes, last) == r
  {
    hide Enc, Dec, Canon, Track, TailGreedy, Unambiguous, EndsGreedy, Clean;
    var r := Dec(cx, t, bs, last);
    Reencode(cx, t, bs, last);
    RoundTripForward(cx, t, r.value, [], last);
    assert Enc(cx, t, r.value).bytes + [] == Enc(cx, t, r.value).bytes;
  }

  // ----- Self-delimitation -----

  /** No value inside v was read as a Xiaomi block. */
  ghost predicate NoXiaomi(v: Json) {
    match v
    case Arr(items) => NoXiaomiItems(items)
    case Obj(m) => !("type" in m && m["type"] == Str("xiaomi_ff01")) && forall name | name in m :: NoXiaomi(m[name])
    case _ => true
  }

  ghost predicate NoXiaomiItems(items: seq<Json>) {
    items == [] || (NoXiaomi(items[0]) && NoXiaomiItems(items[1..]))
  }

  /** An outcome that used the first k bytes of bs can be carried over to other: they share
      those bytes, and either other ends there, or bs went on (so no greedy array and no
      clipped block took its rest), or nothing that was read looks for the end at all. */
  ghost predicate Shares(k: nat, bs: seq<byte>, other: seq<byte>, endless: bool) {
    k <= |bs| && k <= |other| && other[..k] == bs[..k] && (|other| == k || k < |bs| || endless)
  }

  lemma SharesParts(k1: nat, k2: nat, bs: seq<byte>, other: seq<byte>, endless: bool)
    requires Shares(k1 + k2, bs, other, endless)
    ensures Shares(k1, bs, other, endless) && Shares(k2, bs[k1..], other[k1..], endless)
    ensures forall i | 0 <= i < k1 :: other[i] == bs[i]
  {
    assert other[..k1] == other[..k1 + k2][..k1] && bs[..k1] == bs[..k1 + k2][..k1];
    assert other[k1..][..k2] == other[..k1 + k2][k1..] && bs[k1..][..k2] == bs[..k1 + k2][k1..];
    forall i | 0 <= i < k1 ensures other[i] == bs[i] {
      assert other[i] == other[..k1][i];
    }
  }

  lemma RunTransfer(n: nat, bs: seq<byte>, other: seq<byte>, last: Option<int>)
    requires DecodeRun(bs, n, last).Got?
    requires var u := DecodeRun(bs, n, last).used; u <= |other| && other[..u] == bs[..u]
    ensures DecodeRun(other, n, last) == DecodeRun(bs, n, last)
  {
    hide LeValue, Pow256;
    var u := DecodeRun(bs, n, last).used;
    assert other[..u][..n] == other[..n] && bs[..u][..n] == bs[..n];
    assert other[..u][n..] == other[n..u] && bs[..u][n..] == bs[n..u];
  }

  lemma LeafTransfer(cx: Context, k: Kind, bs: seq<byte>, other: seq<byte>, last: Option<int>)
    requires WellSized(k) && DecLeaf(cx, k, bs, last).Got?
    requires var u := DecLeaf(cx, k, bs, last).used; u <= |other| && other[..u] == bs[..u]
    ensures DecLeaf(cx, k, other, last) == DecLeaf(cx, k, bs, last)
  {
    hide LeValue, Pow256, BitsOf, NumsOf, CharsOf, DecodeReal, DecodeSigned, AttributeName, DecodeRun;
    match k
    case OctetString(n) =>
      RunTransfer(n, bs, other, last);
    case CharString(n) =>
      RunTransfer(n, bs, other, last);
    case Boolean =>
      assert other[0] == other[..1][0] && bs[0] == bs[..1][0];
    case _ =>
  }

  /** Reading v under t never asks where the input ends. */
  ghost predicate Endless(t: Schema, v: Json) {
    NoGreedy(t) && Unambiguous(t) && NoXiaomi(v)
  }

  ghost predicate EndlessItems(t: Schema, items: seq<Json>) {
    NoGreedy(t) && Unambiguous(t) && NoXiaomiItems(items)
  }

  ghost predicate EndlessFields(ps: seq<Property>, m: map<string, Json>) {
    NoneGreedy(ps) && AllUnambiguous(ps) && forall name | name in m :: NoXiaomi(m[name])
  }

  lemma {:induction false} Transfer(cx: Context, t: Schema, bs: seq<byte>, other: seq<byte>, last: Option<int>)
    requires Dec(cx, t, bs, last).Got?
    requires var r := Dec(cx, t, bs, last); Shares(r.used, bs, other, Endless(t, r.value))
    ensures Dec(cx, t, other, last) == Dec(cx, t, bs, last)
    decreases |bs|, t, 3
  {
    hide KindOf, DecItems, DecGreedy, DecLeaf, DecEntries, DecProperties, LeValue, TypeName, NoGreedy, NoXiaomi;
    match t
    case VariantType =>
      TransferVariant(cx, bs, other, last);
    case XiaomiFF01Type =>
      TransferBlock(cx, bs, other, last);
    case DataType(dt) =>
      match KindOf(dt) {
        case Structure =>
          TransferStructure(cx, dt, bs, other, last);
        case TypedArray =>
          TransferTyped(cx, dt, bs, other, last);
        case k =>
          LeafTransfer(cx, k, bs, other, last);
      }
    case ObjectType(ps) =>
      TransferObject(cx, ps, bs, other, last);
    case ArrayType(n, e) =>
      TransferArray(cx, n, e, bs, other, last);
    case ErrorOrType(s) =>
      TransferErrorOr(cx, s, bs, other, last);
  }

  lemma TypedIsNoXiaomi(dt: byte, v: Json)
    ensures NoXiaomi(TypedValue(dt, v)) ==> NoXiaomi(v)
  {
    assert TypedValue(dt, v).fields["value"] == v;
  }

  lemma {:induction false} TransferVariant(cx: Context, bs: seq<byte>, other: seq<byte>, last: Option<int>)
    requires Dec(cx, VariantType, bs, last).Got?
    requires var r := Dec(cx, VariantType, bs, last); Shares(r.used, bs, other, Endless(VariantType, r.value))
    ensures Dec(cx, VariantType, other, last) == Dec(cx, VariantType, bs, last)
    decreases |bs|, VariantType, 2
  {
    hide KindOf, DecItems, DecLeaf, DecEntries, LeValue, TypeName, NoXiaomi, TypedValue;
    var r := Dec(cx, VariantType, bs, last);
    SharesParts(1, r.used - 1, bs, other, Endless(VariantType, r.value));
    assert other[0] == bs[0];
    if bs[0] == STRING && last == Some(FF01) {
      Transfer(cx, XiaomiFF01Type, bs[1..], other[1..], last);
    } else {
      TypedIsNoXiaomi(bs[0], Dec(cx, DataType(bs[0]), bs[1..], last).value);
      Transfer(cx, DataType(bs[0]), bs[1..], other[1..], last);
    }
  }

  lemma XiaomiIsXiaomi(m: map<string, Json>)
    ensures !NoXiaomi(XiaomiValue(m))
  {
    assert XiaomiValue(m).fields["type"] == Str("xiaomi_ff01");
  }

  /** The extent of a block: one length byte, then that many bytes or all there are. */
  lemma BlockExtent(cx: Context, bs: seq<byte>, last: Option<int>)
    requires Dec(cx, XiaomiFF01Type, bs, last).Got?
    ensures bs != [] && Dec(cx, XiaomiFF01Type, bs, last).used == (if 1 + bs[0] <= |bs| then 1 + bs[0] else |bs|)
  {
    hide DecEntries;
  }

  lemma TransferBlock(cx: Context, bs: seq<byte>, other: seq<byte>, last: Option<int>)
    requires Dec(cx, XiaomiFF01Type, bs, last).Got?
    requires var r := Dec(cx, XiaomiFF01Type, bs, last); Shares(r.used, bs, other, Endless(XiaomiFF01Type, r.value))
    ensures Dec(cx, XiaomiFF01Type, other, last) == Dec(cx, XiaomiFF01Type, bs, last)
  {
    hide DecEntries, NoXiaomi, XiaomiValue;
    BlockExtent(cx, bs, last);
    var r := Dec(cx, XiaomiFF01Type, bs, last);
    XiaomiIsXiaomi(DecEntries(cx, bs[1..r.used], None).value);
    if r.used == |bs| {
      assert other == other[..r.used] && bs == bs[..r.used];
    } else {
      SharesParts(1, r.used - 1, bs, other, false);
      assert other[0] == bs[0];
      assert other[1..r.used] == other[..r.used][1..] && bs[1..r.used] == bs[..r.used][1..];
    }
  }

  lemma {:induction false} TransferStructure(cx: Context, dt: byte, bs: seq<byte>, other: seq<byte>, last: Option<int>)
    requires KindOf(dt).Structure? && Dec(cx, DataType(dt), bs, last).Got?
    requires var r := Dec(cx, DataType(dt), bs, last); Shares(r.used, bs, other, Endless(DataType(dt), r.value))
    ensures Dec(cx, DataType(dt), other, last) == Dec(cx, DataType(dt), bs, last)
    decreases |bs|, DataType(dt), 2
  {
    hide KindOf, DecItems, DecLeaf, DecEntries, LeValue, NoXiaomiItems;
    var r := Dec(cx, DataType(dt), bs, last);
    SharesParts(2, r.used - 2, bs, other, Endless(DataType(dt), r.value));
    if LeValue(bs[..2]) != 0xFFFF {
      TransferItems(cx, VariantType, LeValue(bs[..2]), bs[2..], other[2..], last);
    }
  }

  lemma {:induction false} TransferTyped(cx: Context, dt: byte, bs: seq<byte>, other: seq<byte>, last: Option<int>)
    requires KindOf(dt).TypedArray? && Dec(cx, DataType(dt), bs, last).Got?
    requires var r := Dec(cx, DataType(dt), bs, last); Shares(r.used, bs, other, Endless(DataType(dt), r.value))
    ensures Dec(cx, DataType(dt), other, last) == Dec(cx, DataType(dt), bs, last)
    decreases |bs|, DataType(dt), 2
  {
    hide KindOf, DecItems, DecLeaf, DecEntries, LeValue, NoXiaomiItems, TypeName;
    var r := Dec(cx, DataType(dt), bs, last);
    SharesParts(3, r.used - 3, bs, other, Endless(DataType(dt), r.value));
    assert other[0] == bs[0];
    assert other[..3][1..] == other[1..3] && bs[..3][1..] == bs[1..3];
    if LeValue(bs[1..3]) != 0xFFFF {
      var x := DecItems(cx, DataType(bs[0]), LeValue(bs[1..3]), bs[3..], last);
      assert "elements" in r.value.fields && r.value.fields["elements"] == Arr(x.value);
      assert NoXiaomi(r.value) ==> NoXiaomi(Arr(x.value));
      TransferItems(cx, DataType(bs[0]), LeValue(bs[1..3]), bs[3..], other[3..], last);
    }
  }

  lemma {:induction false} TransferItems(cx: Context, t: Schema, n: nat, bs: seq<byte>, other: seq<byte>,
      last: Option<int>)
    requires DecItems(cx, t, n, bs, last).Got?
    requires var r := DecItems(cx, t, n, bs, last); Shares(r.used, bs, other, EndlessItems(t, r.value))
    ensures DecItems(cx, t, n, other, last) == DecItems(cx, t, n, bs, last)
    decreases |bs|, t, 4 + n
  {
    hide Dec, NoGreedy, NoXiaomi, Unambiguous;
    if n > 0 {
      var x := Dec(cx, t, bs, last);
      var y := DecItems(cx, t, n - 1, bs[x.used..], x.last);
      var items := DecItems(cx, t, n, bs, last).value;
      assert items[0] == x.value && items[1..] == y.value;
      SharesParts(x.used, y.used, bs, other, EndlessItems(t, items));
      Transfer(cx, t, bs, other, last);
      TransferItems(cx, t, n - 1, bs[x.used..], other[x.used..], x.last);
    }
  }

  lemma {:induction false} TransferArray(cx: Context, n: nat, e: Schema, bs: seq<byte>, other: seq<byte>,
      last: Option<int>)
    requires Dec(cx, ArrayType(n, e), bs, last).Got?
    requires var r := Dec(cx, ArrayType(n, e), bs, last); Shares(r.used, bs, other, Endless(ArrayType(n, e), r.value))
    ensures Dec(cx, ArrayType(n, e), other, last) == Dec(cx, ArrayType(n, e), bs, last)
    decreases |bs|, ArrayType(n, e), 2
  {
    hide DecItems, DecGreedy, LeValue, NoXiaomiItems;
    var r := Dec(cx, ArrayType(n, e), bs, last);
    if n == 0 {
      assert other == other[..r.used] && bs == bs[..r.used];
    } else {
      SharesParts(n, r.used - n, bs, other, Endless(ArrayType(n, e), r.value));
      TransferItems(cx, e, LeValue(bs[..n]), bs[n..], other[n..], last);
    }
  }

  lemma {:induction false} TransferErrorOr(cx: Context, s: Schema, bs: seq<byte>, other: seq<byte>, last: Option<int>)
    requires Dec(cx, ErrorOrType(s), bs, last).Got?
    requires var r := Dec(cx, ErrorOrType(s), bs, last); Shares(r.used, bs, other, Endless(ErrorOrType(s), r.value))
    ensures Dec(cx, ErrorOrType(s), other, last) == Dec(cx, ErrorOrType(s), bs, last)
    decreases |bs|, ErrorOrType(s), 2
  {
    var r := Dec(cx, ErrorOrType(s), bs, last);
    SharesParts(1, r.used - 1, bs, other, Endless(ErrorOrType(s), r.value));
    assert other[0] == bs[0];
    if bs[0] == 0 {
      assert r.value.fields["success"] == Dec(cx, s, bs[1..], last).value;
      Transfer(cx, s, bs[1..], other[1..], last);
    }
  }

  lemma {:induction false} TransferObject(cx: Context, ps: seq<Property>, bs: seq<byte>, other: seq<byte>,
      last: Option<int>)
    requires Dec(cx, ObjectType(ps), bs, last).Got?
    requires var r := Dec(cx, ObjectType(ps), bs, last); Shares(r.used, bs, other, Endless(ObjectType(ps), r.value))
    ensures Dec(cx, ObjectType(ps), other, last) == Dec(cx, ObjectType(ps), bs, last)
    decreases |bs|, ObjectType(ps), 2
  {
    hide DecProperties, NoneGreedy, AllUnambiguous;
    TransferProperties(cx, ps, bs, other, last);
  }

  lemma {:induction false} TransferProperties(cx: Context, ps: seq<Property>, bs: seq<byte>, other: seq<byte>,
      last: Option<int>)
    requires DecProperties(cx, ps, bs, last).Got?
    requires var r := DecProperties(cx, ps, bs, last); Shares(r.used, bs, other, EndlessFields(ps, r.value))
    ensures DecProperties(cx, ps, other, last) == DecProperties(cx, ps, bs, last)
    decreases |bs|, ps, 4
  {
    hide Dec, NoGreedy, NoXiaomi, Unambiguous;
    if ps != [] {
      var x := Dec(cx, ps[0].typ, bs, last);
      var y := DecProperties(cx, ps[1..], bs[x.used..], x.last);
      var m := DecProperties(cx, ps, bs, last).value;
      assert m == map[ps[0].name := x.value] + y.value;
      DecodedNames(cx, ps[1..], bs[x.used..], x.last);
      if EndlessFields(ps, m) {
        RestOfFields(m, ps[0].name, x.value, y.value);
      }
      SharesParts(x.used, y.used, bs, other, EndlessFields(ps, m));
      Transfer(cx, ps[0].typ, bs, other, last);
      TransferProperties(cx, ps[1..], bs[x.used..], other[x.used..], x.last);
    }
  }

  lemma RestOfFields(m: map<string, Json>, name: string, v: Json, rest: map<string, Json>)
    requires m == map[name := v] + rest && name !in rest
    requires forall n | n in m :: NoXiaomi(m[n])
    ensures NoXiaomi(v) && forall n | n in rest :: NoXiaomi(rest[n])
  {
    hide NoXiaomi;
    assert m[name] == v;
    forall n | n in rest ensures NoXiaomi(rest[n]) {
      assert n in m && m[n] == rest[n];
    }
  }

  /** The value and its length are decided by the consumed bytes alone: cutting the input
      right behind them changes nothing. Holds for every schema, greedy or not. */
  lemma SelfDelimiting(cx: Context, t: Schema, bs: seq<byte>, last: Option<int>)
    requires Dec(cx, t, bs, last).Got?
    ensures Dec(cx, t, bs[..Dec(cx, t, bs, last).used], last) == Dec(cx, t, bs, last)
  {
    hide Dec;
    var k := Dec(cx, t, bs, last).used;
    assert bs[..k][..k] == bs[..k];
    Transfer(cx, t, bs, bs[..k], last);
  }

  /** More input behind the consumed bytes changes nothing either, if there already was more,
      or if the schema has no greedy array and no Xiaomi block was read. */
  lemma IndependentOfRest(cx: Context, t: Schema, bs: seq<byte>, rest: seq<byte>, last: Option<int>)
    requires Dec(cx, t, bs, last).Got?
    requires Dec(cx, t, bs, last).used < |bs| || Endless(t, Dec(cx, t, bs, last).value)
    ensures Dec(cx, t, bs[..Dec(cx, t, bs, last).used] + rest, last) == Dec(cx, t, bs, last)
  {
    hide Dec;
    var k := Dec(cx, t, bs, last).used;
    assert (bs[..k] + rest)[..k] == bs[..k];
    Transfer(cx, t, bs, bs[..k] + rest, last);
  }

  // ----- Termination -----

  /** With productive greedy arrays decoding always ends, on every input. */
  lemma {:induction false} Terminates(cx: Context, t: Schema, bs: seq<byte>, last: Option<int>)
    requires Productive(t)
    ensures Dec(cx, t, bs, last) != Failed(Diverges)
    ensures Dec(cx, t, bs, last).Got? && bs != [] && ConsumesByte(t) ==> Dec(cx, t, bs, last).used > 0
    decreases |bs|, t, 3
  {
    hide KindOf, DecItems, DecGreedy, DecLeaf, DecEntries, DecProperties, LeValue;
    match t
    case VariantType =>
      if bs != [] {
        Terminates(cx, DataType(bs[0]), bs[1..], last);
        Terminates(cx, XiaomiFF01Type, bs[1..], last);
      }
    case XiaomiFF01Type =>
      if bs != [] {
        EntriesTerminate(cx, bs[1..1 + (if bs[0] > |bs| - 1 then |bs| - 1 else bs[0])], None);
      }
    case DataType(dt) =>
      DataTerminates(cx, dt, bs, last);
    case ObjectType(ps) =>
      PropertiesTerminate(cx, ps, bs, last);
    case ArrayType(n, e) =>
      if n == 0 {
        GreedyTerminates(cx, e, bs, last);
      } else if |bs| >= n {
        ItemsTerminate(cx, e, LeValue(bs[..n]), bs[n..], last);
      }
    case ErrorOrType(s) =>
      if bs != [] {
        Terminates(cx, s, bs[1..], last);
      }
  }

  lemma LeafTerminates(cx: Context, dt: byte, bs: seq<byte>, last: Option<int>)
    ensures DecLeaf(cx, KindOf(dt), bs, last) != Failed(Diverges)
    ensures DecLeaf(cx, KindOf(dt), bs, last).Got? && KindOf(dt) != Empty ==> DecLeaf(cx, KindOf(dt), bs, last).used > 0
  {
    hide LeValue, DecodeReal, DecodeSigned;
  }

  lemma {:induction false} DataTerminates(cx: Context, dt: byte, bs: seq<byte>, last: Option<int>)
    ensures Dec(cx, DataType(dt), bs, last) != Failed(Diverges)
    ensures Dec(cx, DataType(dt), bs, last).Got? && ConsumesByte(DataType(dt)) ==>
      Dec(cx, DataType(dt), bs, last).used > 0
    decreases |bs|, DataType(dt), 2
  {
    hide KindOf, DecItems, DecLeaf, LeValue;
    LeafTerminates(cx, dt, bs, last);
    if KindOf(dt).Structure? && |bs| >= 2 {
      ItemsTerminate(cx, VariantType, LeValue(bs[..2]), bs[2..], last);
    } else if KindOf(dt).TypedArray? && |bs| >= 3 {
      ItemsTerminate(cx, DataType(bs[0]), LeValue(bs[1..3]), bs[3..], last);
    }
  }

  lemma {:induction false} ItemsTerminate(cx: Context, t: Schema, n: nat, bs: seq<byte>, last: Option<int>)
    requires Productive(t)
    ensures DecItems(cx, t, n, bs, last) != Failed(Diverges)
    decreases |bs|, t, 4 + n
  {
    hide Dec, Productive;
    if n > 0 {
      var x := Dec(cx, t, bs, last);
      assert x != Failed(Diverges) by { Terminates(cx, t, bs, last); }
      if x.Got? {
        ItemsTerminate(cx, t, n - 1, bs[x.used..], x.last);
      }
    }
  }

  lemma {:induction false} GreedyTerminates(cx: Context, t: Schema, bs: seq<byte>, last: Option<int>)
    requires Productive(t) && ConsumesByte(t)
    ensures DecGreedy(cx, t, bs, last) != Failed(Diverges)
    decreases |bs|, t, 4
  {
    hide Dec, Productive, ConsumesByte;
    if bs != [] {
      Terminates(cx, t, bs, last);
      match Dec(cx, t, bs, last)
      case Failed(_) =>
      case Got(_, k, l) =>
        GreedyTerminates(cx, t, bs[k..], l);
    }
  }

  lemma {:induction false} PropertiesTerminate(cx: Context, ps: seq<Property>, bs: seq<byte>, last: Option<int>)
    requires AllProductive(ps)
    ensures DecProperties(cx, ps, bs, last) != Failed(Diverges)
    ensures DecProperties(cx, ps, bs, last).Got? && bs != [] && SomeConsumes(ps) ==>
      DecProperties(cx, ps, bs, last).used > 0
    decreases |bs|, ps, 4
  {
    hide Dec, Productive, ConsumesByte, DecProperties;
    PropertiesUnfold(cx, ps, bs, last);
    if ps != [] {
      var x := Dec(cx, ps[0].typ, bs, last);
      Terminates(cx, ps[0].typ, bs, last);
      if x.Got? {
        PropertiesTerminate(cx, ps[1..], bs[x.used..], x.last);
      }
    }
  }

  lemma PropertiesUnfold(cx: Context, ps: seq<Property>, bs: seq<byte>, last: Option<int>)
    ensures ps == [] ==> DecProperties(cx, ps, bs, last) == Got(map[], 0, last)
    ensures ps != [] ==>
      var x := Dec(cx, ps[0].typ, bs, last); var r := DecProperties(cx, ps, bs, last);
      if x.Failed? then r == Failed(x.why)
      else
        var y := DecProperties(cx, ps[1..], bs[x.used..], x.last);
        if y.Failed? then r == Failed(y.why) else r.Got? && r.used == x.used + y.used
  {
    hide Dec;
  }

  lemma {:induction false} EntriesTerminate(cx: Context, bs: seq<byte>, last: Option<int>)
    ensures DecEntries(cx, bs, last) != Failed(Diverges)
    decreases |bs|, XiaomiFF01Type, 2
  {
    hide Dec;
    if bs != [] {
      Terminates(cx, VariantType, bs[1..], last);
      match Dec(cx, VariantType, bs[1..], last)
      case Failed(_) =>
      case Got(_, k, l) =>
        EntriesTerminate(cx, bs[1 + k..], l);
    }
  }

  /** A greedy array of elements that can consume nothing repeats forever on every
      non-empty input on which the elements do not fail. */
  lemma UnproductiveDiverges(cx: Context, e: Schema, bs: seq<byte>, last: Option<int>)
    requires Productive(e) && !ConsumesByte(e) && bs != []
    ensures Dec(cx, ArrayType(0, e), bs, last) == Failed(Diverges)
  {
    NothingConsumed(cx, e, bs, last);
  }

  lemma {:induction false} NothingConsumed(cx: Context, t: Schema, bs: seq<byte>, last: Option<int>)
    requires Productive(t) && !ConsumesByte(t)
    ensures Dec(cx, t, bs, last).Got? && Dec(cx, t, bs, last).used == 0
    decreases t
  {
    match t
    case DataType(dt) =>
    case ObjectType(ps) =>
      NoPropertyConsumes(cx, ps, bs, last);
  }

  lemma {:induction false} NoPropertyConsumes(cx: Context, ps: seq<Property>, bs: seq<byte>, last: Option<int>)
    requires AllProductive(ps) && !SomeConsumes(ps)
    ensures DecProperties(cx, ps, bs, last).Got? && DecProperties(cx, ps, bs, last).used == 0
    decreases ps
  {
    hide Dec, Productive, ConsumesByte;
    if ps != [] {
      NothingConsumed(cx, ps[0].typ, bs, last);
      NoPropertyConsumes(cx, ps[1..], bs[0..], Dec(cx, ps[0].typ, bs, last).last);
    }
  }

  // ----- Inputs on which the unconditional laws fail -----

  /** 200 passes the range test of int8 and comes back as -56. */
  lemma SignedCounterexample()
    ensures EncodeSigned(200, 1) == Ok([200]) && DecodeSigned([200]) == Some(-56)
  {
    assert [200][1..] == [];
    assert LeValue([200]) == 200;
    Pow256Small(1);
    SignedRange(200, 1);
    assert LeBytes(200, 1) == [200];
  }

  /** Boolean byte 02 is read as true and written back as 01. */
  lemma BooleanCounterexample(cx: Context, last: Option<int>)
    ensures Dec(cx, DataType(BOOL), [2], last) == Got(Bool(true), 1, last)
    ensures Enc(cx, DataType(BOOL), Bool(true)) == Ok([1])
  {
    hide DecItems, EncItems, EncTyped, LeValue, LeBytes, DecodeReal, EncodeReal, EncodeUnsigned;
    assert KindOf(BOOL) == Boolean;
    assert DecLeaf(cx, Boolean, [2], last) == Got(Bool(true), 1, last);
    assert EncLeaf(cx, Boolean, Bool(true)) == Ok([1]);
  }

  /** A string variant read while FF01 is the attribute id read last is never given back,
      whatever its text. */
  lemma StringAfterFF01(cx: Context, text: string, suffix: seq<byte>)
    requires cx.Valid() && Enc(cx, VariantType, TypedValue(STRING, Str(text))).Ok?
    ensures var v := TypedValue(STRING, Str(text));
      var r := Dec(cx, VariantType, Enc(cx, VariantType, v).bytes + suffix, Some(FF01));
      r.Got? ==> r.value != v
  {
    hide Enc, Dec, Canon, TypeOfName, TypeName;
    var v := TypedValue(STRING, Str(text));
    TypeNameRoundTrip(STRING);
    assert v.fields["type"] == Str(TypeName(STRING)) && "value" in v.fields;
    assert Track(cx, VariantType, v, Some(FF01)).None?;
    if Dec(cx, VariantType, Enc(cx, VariantType, v).bytes + suffix, Some(FF01)).Got? {
      Reencode(cx, VariantType, Enc(cx, VariantType, v).bytes + suffix, Some(FF01));
    }
  }
}
