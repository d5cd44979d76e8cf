/**
 The decoder as the source runs it: a cursor that every visitor advances, the attribute id
 read last, and result arrays that grow inside loops. Every method is proved to compute Dec.
 */
module DynamicDecoder {
  import opened Bytes
  import opened FloatFormat
  import opened DataTypes
  import opened SearchableList
  import opened DynamicTypes
  import opened DynamicSpec
  import opened DynamicLeaves
  import opened DynamicTheorems

  type AttributeList = SearchableList?<int, string, Option<byte>>

  /** What a visitor returns, or the exception that leaves it. */
  datatype Outcome<+T> = Value(value: T) | Exception(why: Failure) {
    predicate IsFailure() {
      Exception?
    }

    function PropagateFailure<U>(): Outcome<U>
      requires Exception?
    {
      Exception(why)
    }

    function Extract(): T
      requires Value?
    {
      value
    }
  }

  lemma EmptyInteger()
    ensures LeValue([]) == 0 && Pow256(0) == 1
  {
  }

  lemma IntegerStep(bs: seq<byte>, b: byte, value: nat, shift: nat)
    requires value == LeValue(bs) && shift == Pow256(|bs|)
    ensures value + b * shift == LeValue(bs + [b]) && 256 * shift == Pow256(|bs| + 1)
  {
    LeValueAppend(bs, b);
  }

  /** The outcome of a run of items whose first part is already decoded. */
  ghost function Continue(done: seq<Json>, used: nat, rest: Decoded<seq<Json>>): Decoded<seq<Json>> {
    match rest
    case Failed(e) => Failed(e)
    case Got(vs, k, l) => Got(done + vs, used + k, l)
  }

  ghost function ContinueMap(done: map<string, Json>, used: nat, rest: Decoded<map<string, Json>>)
    : Decoded<map<string, Json>>
  {
    match rest
    case Failed(e) => Failed(e)
    case Got(m, k, l) => Got(done + m, used + k, l)
  }

  // Each loop of the decoder starts with nothing done, moves one element from the rest of
  // the run to the part that is done, and stops when nothing is left.

  lemma ItemsStart(cx: Context, t: Schema, n: nat, bs: seq<byte>, last: Option<int>)
    ensures Continue([], 0, DecItems(cx, t, n, bs, last)) == DecItems(cx, t, n, bs, last)
    ensures Continue([], 0, DecGreedy(cx, t, bs, last)) == DecGreedy(cx, t, bs, last)
  {
    hide DecItems, DecGreedy;
    var a, b := DecItems(cx, t, n, bs, last), DecGreedy(cx, t, bs, last);
    assert a.Got? ==> [] + a.value == a.value;
    assert b.Got? ==> [] + b.value == b.value;
  }

  lemma ItemsUnfold(cx: Context, t: Schema, n: nat, bs: seq<byte>, last: Option<int>)
    requires n > 0
    ensures var x := Dec(cx, t, bs, last);
      DecItems(cx, t, n, bs, last) == if x.Failed? then Failed(x.why)
         else var y := DecItems(cx, t, n - 1, bs[x.used..], x.last);
           if y.Failed? then y else Got([x.value] + y.value, x.used + y.used, y.last)
  {
    hide Dec;
  }

  lemma GreedyUnfold(cx: Context, t: Schema, bs: seq<byte>, last: Option<int>)
    requires bs != [] && !(Dec(cx, t, bs, last).Got? && Dec(cx, t, bs, last).used == 0)
    ensures var x := Dec(cx, t, bs, last);
      DecGreedy(cx, t, bs, last) == if x.Failed? then Failed(x.why)
         else var y := DecGreedy(cx, t, bs[x.used..], x.last);
           if y.Failed? then y else Got([x.value] + y.value, x.used + y.used, y.last)
  {
    hide Dec;
  }

  /** One more item in front of the rest of a run. */
  lemma ContinueStep(done: seq<Json>, used: nat, v: Json, k: nat, rest: Decoded<seq<Json>>)
    ensures Continue(done, used, if rest.Failed? then rest else Got([v] + rest.value, k + rest.used, rest.last))
         == Continue(done + [v], used + k, rest)
  {
    if rest.Got? {
      assert done + ([v] + rest.value) == done + [v] + rest.value;
    }
  }

  lemma ContinueFailed(done: seq<Json>, used: nat, why: Failure)
    ensures Continue(done, used, Failed(why)) == Failed(why)
  {
  }

  lemma ContinueEmpty(done: seq<Json>, used: nat, last: Option<int>)
    ensures Continue(done, used, Got([], 0, last)) == Got(done, used, last)
  {
    assert done + [] == done;
  }

  lemma ItemsEnd(cx: Context, t: Schema, bs: seq<byte>, last: Option<int>, done: seq<Json>, used: nat)
    ensures Continue(done, used, DecItems(cx, t, 0, bs, last)) == Got(done, used, last)
  {
    ContinueEmpty(done, used, last);
  }

  lemma ItemsAdvance(cx: Context, t: Schema, n: nat, bs: seq<byte>, last: Option<int>, done: seq<Json>, used: nat)
    requires n > 0
    ensures var x := Dec(cx, t, bs, last);
      Continue(done, used, DecItems(cx, t, n, bs, last))
      == if x.Failed? then Failed(x.why)
         else Continue(done + [x.value], used + x.used, DecItems(cx, t, n - 1, bs[x.used..], x.last))
  {
    hide Dec, DecItems, Continue;
    ItemsUnfold(cx, t, n, bs, last);
    var x := Dec(cx, t, bs, last);
    if x.Got? {
      ContinueStep(done, used, x.value, x.used, DecItems(cx, t, n - 1, bs[x.used..], x.last));
    } else {
      ContinueFailed(done, used, x.why);
    }
  }

  lemma GreedyAdvance(cx: Context, t: Schema, bs: seq<byte>, last: Option<int>, done: seq<Json>, used: nat)
    requires bs != [] && !(Dec(cx, t, bs, last).Got? && Dec(cx, t, bs, last).used == 0)
    ensures var x := Dec(cx, t, bs, last);
      Continue(done, used, DecGreedy(cx, t, bs, last))
      == if x.Failed? then Failed(x.why)
         else Continue(done + [x.value], used + x.used, DecGreedy(cx, t, bs[x.used..], x.last))
  {
    hide Dec, DecGreedy, Continue;
    GreedyUnfold(cx, t, bs, last);
    var x := Dec(cx, t, bs, last);
    if x.Got? {
      ContinueStep(done, used, x.value, x.used, DecGreedy(cx, t, bs[x.used..], x.last));
    } else {
      ContinueFailed(done, used, x.why);
    }
  }

  lemma GreedyEnd(cx: Context, t: Schema, last: Option<int>, done: seq<Json>, used: nat)
    ensures Continue(done, used, DecGreedy(cx, t, [], last)) == Got(done, used, last)
  {
    ContinueEmpty(done, used, last);
  }

  lemma MapsStart(cx: Context, ps: seq<Property>, bs: seq<byte>, last: Option<int>)
    ensures ContinueMap(map[], 0, DecProperties(cx, ps, bs, last)) == DecProperties(cx, ps, bs, last)
    ensures ContinueMap(map[], 0, DecEntries(cx, bs, last)) == DecEntries(cx, bs, last)
  {
    hide DecProperties, DecEntries;
    var a, b := DecProperties(cx, ps, bs, last), DecEntries(cx, bs, last);
    assert a.Got? ==> map[] + a.value == a.value;
    assert b.Got? ==> map[] + b.value == b.value;
  }

  lemma MapShift(done: map<string, Json>, key: string, v: Json, rest: map<string, Json>)
    ensures done + (map[key := v] + rest) == done[key := v] + rest
  {
  }

  lemma PropertiesUnfold(cx: Context, ps: seq<Property>, bs: seq<byte>, last: Option<int>)
    requires ps != []
    ensures var x := Dec(cx, ps[0].typ, bs, last);
      DecProperties(cx, ps, bs, last) == if x.Failed? then Failed(x.why)
         else var y := DecProperties(cx, ps[1..], bs[x.used..], x.last);
           if y.Failed? then y else Got(map[ps[0].name := x.value] + y.value, x.used + y.used, y.last)
  {
    hide Dec;
  }

  lemma ContinueMapEmpty(done: map<string, Json>, used: nat, last: Option<int>)
    ensures ContinueMap(done, used, Got(map[], 0, last)) == Got(done, used, last)
  {
    assert done + map[] == done;
  }

  lemma PropertiesAdvance(cx: Context, ps: seq<Property>, bs: seq<byte>, last: Option<int>, done: map<string, Json>,
      used: nat)
    ensures ps == [] ==> ContinueMap(done, used, DecProperties(cx, ps, bs, last)) == Got(done, used, last)
    ensures ps != [] ==>
      var x := Dec(cx, ps[0].typ, bs, last);
      ContinueMap(done, used, DecProperties(cx, ps, bs, last))
      == if x.Failed? then Failed(x.why)
         else ContinueMap(done[ps[0].name := x.value], used + x.used, DecProperties(cx, ps[1..], bs[x.used..], x.last))
  {
    if ps == [] {
      ContinueMapEmpty(done, used, last);
    } else {
      hide Dec, DecProperties;
      PropertiesUnfold(cx, ps, bs, last);
      var x := Dec(cx, ps[0].typ, bs, last);
      if x.Got? {
        var y := DecProperties(cx, ps[1..], bs[x.used..], x.last);
        if y.Got? {
          MapShift(done, ps[0].name, x.value, y.value);
        }
      }
    }
  }

  lemma EntriesAdvance(cx: Context, bs: seq<byte>, last: Option<int>, done: map<string, Json>, used: nat)
    ensures bs == [] ==> ContinueMap(done, used, DecEntries(cx, bs, last)) == Got(done, used, last)
    ensures bs != [] ==>
      var x := Dec(cx, VariantType, bs[1..], last);
      ContinueMap(done, used, DecEntries(cx, bs, last))
      == if x.Failed? then Failed(x.why)
         else ContinueMap(done[Decimal(bs[0]) := x.value], used + 1 + x.used, DecEntries(cx, bs[1 + x.used..], x.last))
  {
    hide Dec, Decimal;
    if bs == [] {
      ContinueMapEmpty(done, used, last);
    } else {
      EntriesStep(cx, bs, last, done, used);
    }
  }

  lemma EntriesUnfold(cx: Context, bs: seq<byte>, last: Option<int>)
    requires bs != []
    ensures var x := Dec(cx, VariantType, bs[1..], last);
      DecEntries(cx, bs, last) == if x.Failed? then Failed(x.why)
         else var y := DecEntries(cx, bs[1 + x.used..], x.last);
           if y.Failed? then y else Got(map[Decimal(bs[0]) := x.value] + y.value, 1 + x.used + y.used, y.last)
  {
    hide Dec, Decimal;
  }

  lemma EntriesStep(cx: Context, bs: seq<byte>, last: Option<int>, done: map<string, Json>, used: nat)
    requires bs != []
    ensures var x := Dec(cx, VariantType, bs[1..], last);
      ContinueMap(done, used, DecEntries(cx, bs, last))
      == if x.Failed? then Failed(x.why)
         else ContinueMap(done[Decimal(bs[0]) := x.value], used + 1 + x.used, DecEntries(cx, bs[1 + x.used..], x.last))
  {
    hide Dec, Decimal, DecEntries;
    EntriesUnfold(cx, bs, last);
    var x := Dec(cx, VariantType, bs[1..], last);
    if x.Got? {
      var y := DecEntries(cx, bs[1 + x.used..], x.last);
      if y.Got? {
        MapShift(done, Decimal(bs[0]), x.value, y.value);
      }
    }
  }

  lemma RestProductive(ps: seq<Property>, i: nat)
    requires i < |ps| && AllProductive(ps[i..])
    ensures ps[i..] != [] && ps[i..][0] == ps[i] && ps[i..][1..] == ps[i + 1..]
    ensures Productive(ps[i].typ) && AllProductive(ps[i + 1..])
  {
    assert ps[i..][1..] == ps[i + 1..];
  }

  lemma TypedUnfold(cx: Context, dt: byte, bs: seq<byte>, last: Option<int>)
    requires KindOf(dt).TypedArray?
    ensures |bs| < 3 ==> Dec(cx, DataType(dt), bs, last) == Failed(Thrown)
    ensures |bs| >= 3 && LeValue(bs[1..3]) == 0xFFFF ==>
      Dec(cx, DataType(dt), bs, last) == Got(TypedElements(bs[0], Null), 3, last)
    ensures |bs| >= 3 && LeValue(bs[1..3]) != 0xFFFF ==>
      var x := DecItems(cx, DataType(bs[0]), LeValue(bs[1..3]), bs[3..], last);
      Dec(cx, DataType(dt), bs, last)
      == if x.Failed? then Failed(x.why) else Got(TypedElements(bs[0], Arr(x.value)), 3 + x.used, x.last)
  {
    hide KindOf, DecItems, LeValue, TypedElements;
  }

  lemma SliceOfSlice(data: seq<byte>, a: nat, e: nat, i: nat, j: nat)
    requires a <= e <= |data| && i <= j <= e - a
    ensures data[a..e][i..j] == data[a + i..a + j]
  {
    var s, t := data[a..e][i..j], data[a + i..a + j];
    assert |s| == |t|;
    forall k | 0 <= k < |s| ensures s[k] == t[k] {
      assert s[k] == data[a..e][i + k];
    }
  }

  lemma {:induction false} NumsOfAppend(bs: seq<byte>, b: byte)
    ensures NumsOf(bs + [b]) == NumsOf(bs) + [Num(b)]
  {
    if bs == [] {
      assert [b][1..] == [];
    } else {
      NumsOfAppend(bs[1..], b);
      assert (bs + [b])[1..] == bs[1..] + [b];
    }
  }

  method BitLoop(value: nat, bits: nat) returns (ret: seq<Json>)
    ensures ret == BitsOf(value, bits)
  {
    ret := [];
    var rest, bit: nat := value, 0;
    while bit < bits
      invariant bit <= bits
      invariant BitsOf(value, bits) == ret + BitsOf(rest, bits - bit)
    {
      ret := ret + [Bool(rest % 2 == 1)];
      rest := rest / 2;
      bit := bit + 1;
    }
  }

  class Decoder {
    const data: seq<byte>
    const cluster: AttributeList
    var begin: nat
    var lastAttributeId: Option<int>

    constructor (data: seq<byte>, cluster: AttributeList)
      ensures this.data == data && this.cluster == cluster && begin == 0 && lastAttributeId == None
    {
      this.data, this.cluster, begin, lastAttributeId := data, cluster, 0, None;
    }

    ghost function Ctx(): Context
      reads cluster
    {
      if cluster == null then NoCluster else Cluster(cluster.items)
    }

    /** end is where the current window stops: the end of the data, or of a Xiaomi block. */
    ghost predicate Ready(end: nat)
      reads this, cluster
    {
      begin <= end <= |data| && (cluster != null ==> cluster.Valid())
    }

    /** The method that started at start did what the specification says. */
    ghost predicate Did<T>(start: nat, end: nat, expected: Decoded<T>, r: Outcome<T>)
      reads this
    {
      match expected
      case Failed(e) => r == Exception(e)
      case Got(v, k, l) => r == Value(v) && begin == start + k && begin <= end && lastAttributeId == l
    }

    method DecodeInteger(bytes: nat, end: nat) returns (r: Outcome<nat>)
      requires Ready(end)
      modifies this
      ensures end - old(begin) < bytes ==> r == Exception(Thrown)
      ensures end - old(begin) >= bytes ==>
        r == Value(LeValue(data[old(begin)..old(begin) + bytes])) && begin == old(begin) + bytes
      ensures lastAttributeId == old(lastAttributeId)
    {
      hide Indexed, LeValue, Pow256;
      EmptyInteger();
      var value: nat, shift: nat := 0, 1;
      var byte: nat := 0;
      while byte < bytes
        invariant 0 <= byte <= bytes && begin == old(begin) + byte <= end
        invariant value == LeValue(data[old(begin)..begin]) && shift == Pow256(byte)
        invariant lastAttributeId == old(lastAttributeId)
      {
        if begin == end {
          return Exception(Thrown);
        }
        assert data[old(begin)..begin + 1] == data[old(begin)..begin] + [data[begin]];
        IntegerStep(data[old(begin)..begin], data[begin], value, shift);
        value := value + data[begin] * shift;
        begin := begin + 1;
        shift := 256 * shift;
        byte := byte + 1;
      }
      return Value(value);
    }

    /** Reads the type byte of a variant or of an array. */
    method DecodeByte(end: nat) returns (r: Outcome<byte>)
      requires Ready(end)
      modifies this
      ensures old(begin) == end ==> r == Exception(Thrown)
      ensures old(begin) < end ==> r == Value(data[old(begin)]) && begin == old(begin) + 1
      ensures lastAttributeId == old(lastAttributeId)
    {
      hide Indexed;
      if begin == end {
        return Exception(Thrown);
      }
      begin := begin + 1;
      return Value(data[begin - 1]);
    }

    /** Octets pushed onto an array one at a time. */
    method DecodeOctets(count: nat, end: nat) returns (r: Outcome<seq<Json>>)
      requires Ready(end)
      modifies this
      ensures end - old(begin) < count ==> r == Exception(Thrown)
      ensures end - old(begin) >= count ==>
        r == Value(NumsOf(data[old(begin)..old(begin) + count])) && begin == old(begin) + count
      ensures lastAttributeId == old(lastAttributeId)
    {
      hide Indexed;
      var ret: seq<Json>, i: nat := [], 0;
      while i < count
        invariant 0 <= i <= count && begin == old(begin) + i <= end
        invariant ret == NumsOf(data[old(begin)..begin])
        invariant lastAttributeId == old(lastAttributeId)
      {
        ghost var before := data[old(begin)..begin];
        var octet :- DecodeByte(end);
        assert data[old(begin)..begin] == before + [octet];
        NumsOfAppend(before, octet);
        ret := ret + [Num(octet)];
        i := i + 1;
      }
      return Value(ret);
    }

    /** A length prefix and the octets it announces; None is the all-ones length. */
    method DecodeLength(sizeBytes: nat, end: nat) returns (r: Outcome<Option<nat>>)
      requires Ready(end) && 1 <= sizeBytes <= 2
      modifies this
      ensures end - old(begin) < sizeBytes ==> r == Exception(Thrown)
      ensures end - old(begin) >= sizeBytes ==>
        var size := LeValue(data[old(begin)..old(begin) + sizeBytes]);
        if size == Pow256(sizeBytes) - 1 then r == Value(None) && begin == old(begin) + sizeBytes
        else if end - old(begin) - sizeBytes < size then r == Exception(Thrown)
        else r == Value(Some(size)) && begin == old(begin) + sizeBytes
      ensures lastAttributeId == old(lastAttributeId)
    {
      hide Indexed;
      var invalidSize := Pow256(sizeBytes) - 1;
      var size :- DecodeInteger(sizeBytes, end);
      if size == invalidSize {
        return Value(None);
      }
      if end - begin < size {
        return Exception(Thrown);
      }
      return Value(Some(size));
    }

    /** The two's complement of the bytes read; undefined for a negative of full width. */
    method DecodeSignedInteger(n: nat, end: nat) returns (r: Outcome<int>)
      requires Ready(end) && n >= 1
      modifies this
      ensures end - old(begin) < n ==> r == Exception(Thrown)
      ensures end - old(begin) >= n ==>
        (match DecodeSigned(data[old(begin)..old(begin) + n])
         case None => r == Exception(Undefined)
         case Some(v) => r == Value(v) && begin == old(begin) + n)
      ensures lastAttributeId == old(lastAttributeId)
    {
      hide Indexed;
      var value :- DecodeInteger(n, end);
      if value >= Pow256(n) / 2 {
        if n >= 8 {
          return Exception(Undefined);
        }
        return Value(value - Pow256(n));
      }
      return Value(value);
    }

    method DecodeReal(f: Format, end: nat) returns (r: Outcome<Json>)
      requires Ready(end) && f in {SEMI, SINGLE, DOUBLE}
      modifies this
      ensures f.Valid()
      ensures end - old(begin) < f.Width() ==> r == Exception(Thrown)
      ensures end - old(begin) >= f.Width() ==>
        r == Value(Real(DynamicSpec.DecodeReal(f, data[old(begin)..old(begin) + f.Width()])))
        && begin == old(begin) + f.Width()
      ensures lastAttributeId == old(lastAttributeId)
    {
      hide Indexed, Decode, Pow2, LeValue;
      FormatFits(f);
      var raw :- DecodeInteger(f.Width(), end);
      var value := DecodeFloat(f, raw);
      return Value(Real(value));
    }

    method DecodeOctetString(n: nat, end: nat) returns (r: Outcome<Json>)
      requires Ready(end) && 1 <= n <= 2
      modifies this
      ensures Did(old(begin), end, DecLeaf(Ctx(), OctetString(n), data[old(begin)..end], old(lastAttributeId)), r)
    {
      hide Indexed, LeValue, NumsOf, Pow256;
      ghost var start, bs := begin, data[begin..end];
      assert |bs| >= n ==> bs[..n] == data[start..start + n];
      var size :- DecodeLength(n, end);
      if size == None {
        return Value(Null);
      }
      SliceOfSlice(data, start, end, n, n + size.value);
      var items := DecodeOctets(size.value, end);
      return Value(Arr(items.value));
    }

    method DecodeCharString(n: nat, end: nat) returns (r: Outcome<Json>)
      requires Ready(end) && 1 <= n <= 2
      modifies this
      ensures Did(old(begin), end, DecLeaf(Ctx(), CharString(n), data[old(begin)..end], old(lastAttributeId)), r)
    {
      hide Indexed, LeValue, CharsOf, Pow256;
      ghost var start, bs := begin, data[begin..end];
      assert |bs| >= n ==> bs[..n] == data[start..start + n];
      var size :- DecodeLength(n, end);
      if size == None {
        return Value(Null);
      }
      SliceOfSlice(data, start, end, n, n + size.value);
      var ret := CharsOf(data[begin..begin + size.value]);
      begin := begin + size.value;
      return Value(Str(ret));
    }

    method DecodeAttributeId(end: nat) returns (r: Outcome<Json>)
      requires Ready(end)
      modifies this
      ensures Did(old(begin), end, DecLeaf(Ctx(), AttributeId, data[old(begin)..end], old(lastAttributeId)), r)
    {
      hide Indexed, LeValue;
      ghost var start, bs := begin, data[begin..end];
      assert |bs| >= 2 ==> bs[..2] == data[start..start + 2];
      var id :- DecodeInteger(2, end);
      lastAttributeId := Some(id);
      if cluster != null {
        var info := cluster.FindById(id);
        if info.Some? {
          return Value(Str(info.value.name));
        }
      }
      return Value(Num(id));
    }

    /** The types of a fixed number of bytes that are no floats. */
    method DecodeFixed(k: Kind, end: nat) returns (r: Outcome<Json>)
      requires Ready(end) && (k.Octets? || k.Bitmap? || k.Unsigned? || k.Signed?) && k.n >= 1
      modifies this
      ensures Did(old(begin), end, DecLeaf(Ctx(), k, data[old(begin)..end], old(lastAttributeId)), r)
    {
      hide Indexed, LeValue, NumsOf, BitsOf, DecodeSigned;
      ghost var start, bs := begin, data[begin..end];
      assert |bs| >= k.n ==> bs[..k.n] == data[start..start + k.n];
      match k {
        case Octets(n) =>
          var items :- DecodeOctets(n, end);
          return Value(Arr(items));
        case Bitmap(n) =>
          var value :- DecodeInteger(n, end);
          var items := BitLoop(value, 8 * n);
          return Value(Arr(items));
        case Unsigned(n) =>
          var value :- DecodeInteger(n, end);
          return Value(Num(value));
        case Signed(n) =>
          var value :- DecodeSignedInteger(n, end);
          return Value(Num(value));
      }
    }

    method DecodeLeaf(k: Kind, end: nat) returns (r: Outcome<Json>)
      requires Ready(end) && WellSized(k)
      modifies this
      ensures Did(old(begin), end, DecLeaf(Ctx(), k, data[old(begin)..end], old(lastAttributeId)), r)
    {
      hide Indexed;
      if k.Octets? || k.Bitmap? || k.Unsigned? || k.Signed? {
        r := DecodeFixed(k, end);
        return;
      }
      hide LeValue, LeBytes, Pow256, DynamicSpec.DecodeReal, DecodeRun, AttributeName, NumsOf, CharsOf, BitsOf,
        DecodeSigned;
      ghost var start, bs := begin, data[begin..end];
      match k {
        case Empty =>
          return Value(Null);
        case Boolean =>
          var x :- DecodeByte(end);
          assert bs[0] == x;
          return Value(if x == 0xFF then Null else Bool(x != 0));
        case Floating(f) =>
          assert |bs| >= f.Width() ==> bs[..f.Width()] == data[start..start + f.Width()];
          r := DecodeReal(f, end);
        case OctetString(n) =>
          r := DecodeOctetString(n, end);
        case CharString(n) =>
          r := DecodeCharString(n, end);
        case AttributeId =>
          r := DecodeAttributeId(end);
        case _ =>
          return Exception(Thrown);
      }
    }

    method DecodeVariant(end: nat) returns (r: Outcome<Json>)
      requires Ready(end)
      modifies this
      ensures Did(old(begin), end, Dec(Ctx(), VariantType, data[old(begin)..end], old(lastAttributeId)), r)
      decreases end - begin, VariantType, 3
    {
      hide Indexed, KindOf, TypedValue;
      ghost var bs := data[begin..end];
      var dt :- DecodeByte(end);
      assert bs[0] == dt && bs[1..] == data[begin..end];
      if dt == STRING && lastAttributeId == Some(FF01) {
        r := DecodeBlock(end);
        return;
      }
      var value :- DecodeData(dt, end);
      return Value(TypedValue(dt, value));
    }

    method DecodeBlock(end: nat) returns (r: Outcome<Json>)
      requires Ready(end)
      modifies this
      ensures Did(old(begin), end, Dec(Ctx(), XiaomiFF01Type, data[old(begin)..end], old(lastAttributeId)), r)
      decreases end - begin, XiaomiFF01Type, 3
    {
      hide Indexed, DecEntries, XiaomiValue;
      ghost var start, bs := begin, data[begin..end];
      var size :- DecodeInteger(1, end);
      assert data[start..start + 1] == [bs[0]] && LeValue([bs[0]]) == bs[0];
      if size > end - begin {
        size := end - begin;
      }
      var attributeEnd := begin + size;
      SliceOfSlice(data, start, end, 1, 1 + size);
      lastAttributeId := None;
      var entries :- DecodeEntries(attributeEnd);
      return Value(XiaomiValue(entries));
    }

    /** The sub-decoder's loop over the window of a block. */
    method DecodeEntries(end: nat) returns (r: Outcome<map<string, Json>>)
      requires Ready(end)
      modifies this
      ensures Did(old(begin), end, DecEntries(Ctx(), data[old(begin)..end], old(lastAttributeId)), r)
      decreases end - begin, XiaomiFF01Type, 1
    {
      hide Indexed, Dec, DecEntries, Decimal, ContinueMap;
      ghost var cx := Ctx();
      ghost var start, expected := begin, DecEntries(cx, data[begin..end], lastAttributeId);
      MapsStart(cx, [], data[begin..end], lastAttributeId);
      var ret: map<string, Json> := map[];
      while begin != end
        invariant Ctx() == cx && Ready(end) && start <= begin
        invariant expected == ContinueMap(ret, begin - start, DecEntries(cx, data[begin..end], lastAttributeId))
        decreases end - begin
      {
        ghost var at, bs := begin, data[begin..end];
        EntriesAdvance(cx, bs, lastAttributeId, ret, begin - start);
        var octet := DecodeByte(end);
        var key := octet.value;
        assert bs[0] == key && bs[1..] == data[begin..end];
        var value :- DecodeVariant(end);
        assert bs[begin - at..] == data[begin..end];
        ret := ret[Decimal(key) := value];
      }
      EntriesAdvance(cx, data[begin..end], lastAttributeId, ret, begin - start);
      return Value(ret);
    }

    /** n values of type t: the loops of structures, typed arrays and counted arrays. */
    method DecodeItems(t: Schema, n: nat, end: nat) returns (r: Outcome<seq<Json>>)
      requires Ready(end) && Productive(t)
      modifies this
      ensures Did(old(begin), end, DecItems(Ctx(), t, n, data[old(begin)..end], old(lastAttributeId)), r)
      decreases end - begin, t, 5
    {
      hide Indexed, Dec, DecItems, Productive, Continue;
      ghost var cx := Ctx();
      ghost var start, expected := begin, DecItems(cx, t, n, data[begin..end], lastAttributeId);
      ItemsStart(cx, t, n, data[begin..end], lastAttributeId);
      var ret: seq<Json>, size := [], n;
      while size > 0
        invariant Ctx() == cx && Ready(end) && start <= begin
        invariant expected == Continue(ret, begin - start, DecItems(cx, t, size, data[begin..end], lastAttributeId))
        decreases size
      {
        ghost var at := begin;
        ItemsAdvance(cx, t, size, data[begin..end], lastAttributeId, ret, begin - start);
        var value :- DecodeValue(t, end);
        SliceOfSlice(data, at, end, begin - at, end - at);
        ret := ret + [value];
        size := size - 1;
      }
      ItemsEnd(cx, t, data[begin..end], lastAttributeId, ret, begin - start);
      return Value(ret);
    }

    method DecodeStructure(dt: byte, end: nat) returns (r: Outcome<Json>)
      requires Ready(end) && KindOf(dt).Structure?
      modifies this
      ensures Did(old(begin), end, Dec(Ctx(), DataType(dt), data[old(begin)..end], old(lastAttributeId)), r)
      decreases end - begin, DataType(dt), 1
    {
      hide Indexed, KindOf, DecItems, LeValue;
      ghost var start, bs := begin, data[begin..end];
      assert |bs| >= 2 ==> bs[..2] == data[start..start + 2];
      var size :- DecodeInteger(2, end);
      assert bs[2..] == data[begin..end];
      if size == 0xFFFF {
        return Value(Null);
      }
      var items :- DecodeItems(VariantType, size, end);
      return Value(Arr(items));
    }

    method DecodeTyped(dt: byte, end: nat) returns (r: Outcome<Json>)
      requires Ready(end) && KindOf(dt).TypedArray?
      modifies this
      ensures Did(old(begin), end, Dec(Ctx(), DataType(dt), data[old(begin)..end], old(lastAttributeId)), r)
      decreases end - begin, DataType(dt), 1
    {
      hide Indexed, KindOf, Dec, DecItems, LeValue, TypedElements;
      ghost var start, bs := begin, data[begin..end];
      TypedUnfold(Ctx(), dt, bs, lastAttributeId);
      if |bs| >= 3 {
        SliceOfSlice(data, start, end, 1, 3);
      }
      var et :- DecodeByte(end);
      var size :- DecodeInteger(2, end);
      assert bs[0] == et && bs[3..] == data[begin..end];
      if size == 0xFFFF {
        return Value(TypedElements(et, Null));
      }
      var items :- DecodeItems(DataType(et), size, end);
      return Value(TypedElements(et, Arr(items)));
    }

    method DecodeData(dt: byte, end: nat) returns (r: Outcome<Json>)
      requires Ready(end)
      modifies this
      ensures Did(old(begin), end, Dec(Ctx(), DataType(dt), data[old(begin)..end], old(lastAttributeId)), r)
      decreases end - begin, DataType(dt), 2
    {
      hide Indexed, KindOf, DecItems, LeValue, DecLeaf;
      match KindOf(dt) {
        case Structure =>
          r := DecodeStructure(dt, end);
        case TypedArray =>
          r := DecodeTyped(dt, end);
        case k =>
          r := DecodeLeaf(k, end);
      }
    }

    method DecodeProperties(ps: seq<Property>, end: nat) returns (r: Outcome<map<string, Json>>)
      requires Ready(end) && AllProductive(ps)
      modifies this
      ensures Did(old(begin), end, DecProperties(Ctx(), ps, data[old(begin)..end], old(lastAttributeId)), r)
      decreases end - begin, ps, 5
    {
      hide Indexed, Dec, DecProperties, Productive, AllProductive, ContinueMap;
      ghost var cx := Ctx();
      ghost var start, expected := begin, DecProperties(cx, ps, data[begin..end], lastAttributeId);
      MapsStart(cx, ps, data[begin..end], lastAttributeId);
      var ret: map<string, Json>, i: nat := map[], 0;
      assert ps[0..] == ps;
      while i < |ps|
        invariant i <= |ps| && Ctx() == cx && Ready(end) && start <= begin && AllProductive(ps[i..])
        invariant expected == ContinueMap(ret, begin - start,
          DecProperties(cx, ps[i..], data[begin..end], lastAttributeId))
        decreases |ps| - i
      {
        ghost var at := begin;
        RestProductive(ps, i);
        PropertiesAdvance(cx, ps[i..], data[begin..end], lastAttributeId, ret, begin - start);
        var value :- DecodeValue(ps[i].typ, end);
        assert data[at..end][begin - at..] == data[begin..end];
        ret := ret[ps[i].name := value];
        i := i + 1;
      }
      PropertiesAdvance(cx, ps[i..], data[begin..end], lastAttributeId, ret, begin - start);
      return Value(ret);
    }

    method DecodeObject(ps: seq<Property>, end: nat) returns (r: Outcome<Json>)
      requires Ready(end) && AllProductive(ps)
      modifies this
      ensures Did(old(begin), end, Dec(Ctx(), ObjectType(ps), data[old(begin)..end], old(lastAttributeId)), r)
      decreases end - begin, ObjectType(ps), 2
    {
      hide Indexed, DecProperties, AllProductive;
      var ret :- DecodeProperties(ps, end);
      return Value(Obj(ret));
    }

    /** Elements until the window is empty. */
    method DecodeGreedy(element: Schema, end: nat) returns (r: Outcome<seq<Json>>)
      requires Ready(end) && Productive(element) && ConsumesByte(element)
      modifies this
      ensures Did(old(begin), end, DecGreedy(Ctx(), element, data[old(begin)..end], old(lastAttributeId)), r)
      decreases end - begin, element, 5
    {
      hide Indexed, Dec, DecGreedy, Productive, ConsumesByte, Continue;
      ghost var cx := Ctx();
      ghost var start, expected := begin, DecGreedy(cx, element, data[begin..end], lastAttributeId);
      ItemsStart(cx, element, 0, data[begin..end], lastAttributeId);
      var ret: seq<Json> := [];
      while begin != end
        invariant Ctx() == cx && Ready(end) && start <= begin
        invariant expected == Continue(ret, begin - start, DecGreedy(cx, element, data[begin..end], lastAttributeId))
        decreases end - begin
      {
        ghost var at := begin;
        Terminates(cx, element, data[begin..end], lastAttributeId);
        GreedyAdvance(cx, element, data[begin..end], lastAttributeId, ret, begin - start);
        var value :- DecodeValue(element, end);
        assert data[at..end][begin - at..] == data[begin..end];
        ret := ret + [value];
      }
      GreedyEnd(cx, element, lastAttributeId, ret, begin - start);
      return Value(ret);
    }

    method DecodeArray(lengthSize: nat, element: Schema, end: nat) returns (r: Outcome<Json>)
      requires Ready(end) && Productive(ArrayType(lengthSize, element))
      modifies this
      ensures Did(old(begin), end,
                  Dec(Ctx(), ArrayType(lengthSize, element), data[old(begin)..end], old(lastAttributeId)), r)
      decreases end - begin, ArrayType(lengthSize, element), 2
    {
      hide Indexed, DecItems, DecGreedy, LeValue;
      ghost var start, bs := begin, data[begin..end];
      if lengthSize == 0 {
        var items :- DecodeGreedy(element, end);
        return Value(Arr(items));
      } else {
        assert |bs| >= lengthSize ==> bs[..lengthSize] == data[start..start + lengthSize];
        var length :- DecodeInteger(lengthSize, end);
        assert bs[lengthSize..] == data[begin..end];
        var items :- DecodeItems(element, length, end);
        return Value(Arr(items));
      }
    }

    method DecodeErrorOr(success: Schema, end: nat) returns (r: Outcome<Json>)
      requires Ready(end) && Productive(success)
      modifies this
      ensures Did(old(begin), end, Dec(Ctx(), ErrorOrType(success), data[old(begin)..end], old(lastAttributeId)), r)
      decreases end - begin, ErrorOrType(success), 2
    {
      hide Indexed;
      ghost var bs := data[begin..end];
      var status :- DecodeByte(end);
      assert bs[0] == status && bs[1..] == data[begin..end];
      if status != 0 {
        return Value(Obj(map["error" := Num(status)]));
      }
      var value :- DecodeValue(success, end);
      return Value(Obj(map["success" := value]));
    }

    /** Dispatch on the schema. */
    method DecodeValue(t: Schema, end: nat) returns (r: Outcome<Json>)
      requires Ready(end) && Productive(t)
      modifies this
      ensures Did(old(begin), end, Dec(Ctx(), t, data[old(begin)..end], old(lastAttributeId)), r)
      decreases end - begin, t, 4
    {
      hide Indexed;
      match t {
        case VariantType =>
          r := DecodeVariant(end);
        case XiaomiFF01Type =>
          r := DecodeBlock(end);
        case DataType(dt) =>
          r := DecodeData(dt, end);
        case ObjectType(ps) =>
          r := DecodeObject(ps, end);
        case ArrayType(n, e) =>
          r := DecodeArray(n, e, end);
        case ErrorOrType(s) =>
          r := DecodeErrorOr(s, end);
      }
    }
  }
}
