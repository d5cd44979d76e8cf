/**
 What the schema-driven codec computes, as functions: Enc from JSON values to bytes, Dec
 from bytes to JSON values. Dec works on the bytes between the cursor and the end of its
 window and threads the attribute id read last, which decides how a later string variant
 is read.
 */
module DynamicSpec {
  import opened Bytes
  import opened FloatFormat
  import opened DataTypes
  import opened SearchableList
  import opened DynamicTypes

  // ----- Encoding -----

  datatype Encoded = Ok(bytes: seq<byte>) | Err(why: Failure) {
    /** These bytes, followed by what next encodes, if both succeed. */
    function Then(next: Encoded): Encoded {
      if Err? then this else if next.Err? then next else Ok(bytes + next.bytes)
    }
  }

  const TWO_64: nat := 0x1_0000_0000_0000_0000
  const TWO_63: int := 0x8000_0000_0000_0000
  const TWO_32: nat := 0x1_0000_0000

  /** EncodeInteger for unsigned operands. */
  function EncodeUnsigned(v: nat, n: nat): Encoded {
    if n >= 8 then Err(Undefined)
    else if v / Pow256(n) != 0 then Err(Thrown)
    else Ok(LeBytes(v, n))
  }

  /** EncodeInteger for int64 operands: the range test works on the two's complement. */
  function EncodeSigned(v: int, n: nat): Encoded {
    if n >= 8 then Err(Undefined)
    else
      var u: nat := v % TWO_64;
      var rest := u / Pow256(n);
      var restNegative := (TWO_64 - 1) / Pow256(n);
      if rest != 0 && rest != restNegative then Err(Thrown)
      else Ok(LeBytes(u, n))
  }

  /** The octets of a JSON array of integers below 256. */
  function EncodeOctets(items: seq<Json>): Encoded {
    if items == [] then Ok([])
    else if !items[0].Num? || !(0 <= items[0].n < 256) then Err(Thrown)
    else Ok([items[0].n]).Then(EncodeOctets(items[1..]))
  }

  predicate AllBools(items: seq<Json>) {
    items == [] || (items[0].Bool? && AllBools(items[1..]))
  }

  /** The integer whose bits, least significant first, are the given Booleans. */
  function BitsValue(items: seq<Json>): nat
    requires AllBools(items)
  {
    if items == [] then 0 else (if items[0].b then 1 else 0) + 2 * BitsValue(items[1..])
  }

  /** What stops the loop over the bits, if anything does: an item that is no Boolean, or a
      1 shifted by 31 or more places, which leaves the range of int. */
  function BitsFault(items: seq<Json>, position: nat): (fault: Option<Failure>)
    ensures fault.None? ==> AllBools(items)
  {
    if items == [] then None
    else if !items[0].Bool? then Some(Thrown)
    else if items[0].b && position >= 31 then Some(Undefined)
    else BitsFault(items[1..], position + 1)
  }

  function EncodeBitmap(items: seq<Json>, n: nat): Encoded {
    if |items| != 8 * n then Err(Thrown)
    else match BitsFault(items, 0)
      case Some(fault) => Err(fault)
      case None => EncodeUnsigned(BitsValue(items), n)
  }

  /** value.as<FT>(): integers convert, other non-floats throw. */
  function AsFloat(v: Json): Option<Float> {
    match v
    case Real(x) => Some(x)
    case Num(n) => Some(Finite(n < 0, if n < 0 then (-n) as real else n as real))
    case _ => None
  }

  function EncodeReal(f: Format, v: Json): Encoded
    requires f.Valid()
  {
    match AsFloat(v)
    case None => Err(Thrown)
    case Some(x) =>
      EncodeFits(f, x);
      Ok(LeBytes(Encode(f, x), f.Width()))
  }

  /** A length prefix of n bytes for a container of the given size. */
  function EncodeLength(size: nat, n: nat): Encoded {
    EncodeUnsigned(size, n)
  }

  function EncodeAttributeId(cx: Context, v: Json): Encoded {
    match v
    case Null => Ok([0xFF, 0xFF])
    case Str(name) =>
      if cx.NoCluster? then Err(Thrown)
      else (match SearchName(cx.attributes, name)
            case None => Err(Thrown)
            case Some(a) => Ok(LeBytes(if a.id < 0 then 0 else a.id, 2)))
    case Num(n) => if 0 <= n < TWO_32 then EncodeUnsigned(n, 2) else Err(Thrown)
    case _ => Err(Thrown)
  }

  /** The types that hold no other values. */
  function EncLeaf(cx: Context, k: Kind, v: Json): Encoded
    requires k.Floating? ==> k.format.Valid()
  {
    match k
    case Empty => if v.Null? then Ok([]) else Err(Thrown)
    case Octets(n) => if v.Arr? && |v.items| == n then EncodeOctets(v.items) else Err(Thrown)
    case Boolean =>
      (match v
       case Null => Ok([0xFF])
       case Bool(b) => Ok([if b then 1 else 0])
       case _ => Err(Thrown))
    case Bitmap(n) => if v.Arr? then EncodeBitmap(v.items, n) else Err(Thrown)
    case Unsigned(n) => if v.Num? && 0 <= v.n < TWO_64 then EncodeUnsigned(v.n, n) else Err(Thrown)
    case Signed(n) => if v.Num? && -TWO_63 <= v.n < TWO_63 then EncodeSigned(v.n, n) else Err(Thrown)
    case Floating(f) => EncodeReal(f, v)
    case OctetString(n) =>
      if v.Null? then Ok(LeBytes(Pow256(n) - 1, n))
      else if v.Arr? then EncodeLength(|v.items|, n).Then(EncodeOctets(v.items))
      else Err(Thrown)
    case CharString(n) =>
      if v.Null? then Ok(LeBytes(Pow256(n) - 1, n))
      else if v.Str? then EncodeLength(|v.s|, n).Then(Ok(OctetsOf(v.s)))
      else Err(Thrown)
    case AttributeId => EncodeAttributeId(cx, v)
    case _ => Err(Thrown)
  }

  /** Encoding null, which every absent object member counts as. */
  function EncNull(cx: Context, t: Schema): Encoded {
    match t
    case VariantType => Ok([NODATA])
    case XiaomiFF01Type => Err(Thrown)
    case DataType(dt) => if KindOf(dt).Structure? then Ok([0xFF, 0xFF]) else EncLeaf(cx, KindOf(dt), Null)
    case ObjectType(ps) => if ps == [] then Ok([]) else Err(Thrown)
    case ArrayType(n, e) => Err(Thrown)
    case ErrorOrType(s) => Err(Thrown)
  }

  function Member(v: Json, name: string): Json
    requires v.Obj?
  {
    if name in v.fields then v.fields[name] else Null
  }

  function Enc(cx: Context, t: Schema, v: Json): Encoded
    decreases v, 1, 0
  {
    if v.Null? then EncNull(cx, t)
    else match t
      case VariantType =>
        if !v.Obj? || !Member(v, "type").Str? then Err(Thrown)
        else (match TypeOfName(v.fields["type"].s)
              case None => Err(Thrown)
              case Some(dt) =>
                Ok([dt]).Then(
                  if "value" in v.fields then Enc(cx, DataType(dt), v.fields["value"]) else EncNull(cx, DataType(dt))))
      case XiaomiFF01Type => Err(Thrown)
      case DataType(dt) =>
        (match KindOf(dt)
         case Structure =>
           if v.Arr? then EncodeLength(|v.items|, 2).Then(EncItems(cx, VariantType, v.items)) else Err(Thrown)
         case TypedArray => EncTyped(cx, v)
         case k => EncLeaf(cx, k, v))
      case ObjectType(ps) => if v.Obj? then EncProperties(cx, ps, v) else Err(Thrown)
      case ArrayType(n, e) =>
        if v.Arr? then
          (if n > 0 then EncodeLength(|v.items|, n) else Ok([])).Then(EncItems(cx, e, v.items))
        else Err(Thrown)
      case ErrorOrType(s) =>
        if !v.Obj? then Err(Thrown)
        else
          var error := Member(v, "error");
          if !error.Null? && !(error.Num? && error.n >= 0) then Err(Thrown)
          else
            var status := if error.Null? then 0 else error.n % TWO_32;
            EncodeUnsigned(status, 1).Then(
              if status == 0 then
                (if "success" in v.fields then Enc(cx, s, v.fields["success"]) else EncNull(cx, s))
              else if Member(v, "success").Null? then Ok([]) else Err(Thrown))
  }

  /** The array, set and bag types: element type, count, elements. */
  function EncTyped(cx: Context, v: Json): Encoded
    decreases v, 0, 0
  {
    if !v.Obj? || !Member(v, "element_type").Str? then Err(Thrown)
    else match TypeOfName(v.fields["element_type"].s)
      case None => Err(Thrown)
      case Some(dt) =>
        var elements := Member(v, "elements");
        Ok([dt]).Then(
          match elements
          case Null => Ok([0xFF, 0xFF])
          case Arr(items) => EncodeLength(|items|, 2).Then(EncItems(cx, DataType(dt), items))
          case _ => Err(Thrown))
  }

  function EncItems(cx: Context, t: Schema, items: seq<Json>): Encoded
    decreases items, 0, 0
  {
    if items == [] then Ok([]) else Enc(cx, t, items[0]).Then(EncItems(cx, t, items[1..]))
  }

  function EncProperties(cx: Context, ps: seq<Property>, v: Json): Encoded
    requires v.Obj?
    decreases v, 0, |ps|
  {
    if ps == [] then Ok([])
    else
      (if ps[0].name in v.fields then Enc(cx, ps[0].typ, v.fields[ps[0].name]) else EncNull(cx, ps[0].typ))
      .Then(EncProperties(cx, ps[1..], v))
  }

  // ----- Decoding -----

  /** Got: the value, how many bytes were consumed, and the attribute id read last. */
  datatype Decoded<+T> = Got(value: T, used: nat, last: Option<int>) | Failed(why: Failure)

  function DecodeReal(f: Format, bs: seq<byte>): Float
    requires f.Valid()
  {
    Decode(f, LeValue(bs))
  }

  function DecodeSigned(bs: seq<byte>): Option<int> {
    var n, u := |bs|, LeValue(bs);
    if n == 0 || u < Pow256(n) / 2 then Some(u)
    else if n >= 8 then None
    else Some(u - Pow256(n))
  }

  function AttributeName(cx: Context, id: int): Json {
    if cx.NoCluster? then Num(id)
    else match SearchId(cx.attributes, id)
      case Some(a) => Str(a.name)
      case None => Num(id)
  }

  /** A length-prefixed run of octets; the all-ones length means null. */
  function DecodeRun(bs: seq<byte>, n: nat, last: Option<int>): (r: Decoded<Option<seq<byte>>>)
    ensures r.Got? ==> r.used <= |bs|
  {
    if |bs| < n then Failed(Thrown)
    else
      var size := LeValue(bs[..n]);
      if size == Pow256(n) - 1 then Got(None, n, last)
      else if |bs| - n < size then Failed(Thrown)
      else Got(Some(bs[n..n + size]), n + size, last)
  }

  function DecLeaf(cx: Context, k: Kind, bs: seq<byte>, last: Option<int>): (r: Decoded<Json>)
    requires k.Floating? ==> k.format.Valid()
    ensures r.Got? ==> r.used <= |bs|
  {
    match k
    case Empty => Got(Null, 0, last)
    case Octets(n) => if |bs| < n then Failed(Thrown) else Got(Arr(NumsOf(bs[..n])), n, last)
    case Boolean =>
      if bs == [] then Failed(Thrown) else Got(if bs[0] == 0xFF then Null else Bool(bs[0] != 0), 1, last)
    case Bitmap(n) => if |bs| < n then Failed(Thrown) else Got(Arr(BitsOf(LeValue(bs[..n]), 8 * n)), n, last)
    case Unsigned(n) => if |bs| < n then Failed(Thrown) else Got(Num(LeValue(bs[..n])), n, last)
    case Signed(n) =>
      if |bs| < n then Failed(Thrown)
      else (match DecodeSigned(bs[..n])
            case None => Failed(Undefined)
            case Some(v) => Got(Num(v), n, last))
    case Floating(f) =>
      if |bs| < f.Width() then Failed(Thrown) else Got(Real(DecodeReal(f, bs[..f.Width()])), f.Width(), last)
    case OctetString(n) =>
      (match DecodeRun(bs, n, last)
       case Failed(e) => Failed(e)
       case Got(run, k, l) => Got(if run.None? then Null else Arr(NumsOf(run.value)), k, l))
    case CharString(n) =>
      (match DecodeRun(bs, n, last)
       case Failed(e) => Failed(e)
       case Got(run, k, l) => Got(if run.None? then Null else Str(CharsOf(run.value)), k, l))
    case AttributeId =>
      if |bs| < 2 then Failed(Thrown)
      else Got(AttributeName(cx, LeValue(bs[..2])), 2, Some(LeValue(bs[..2])))
    case _ => Failed(Thrown)
  }

  /** The entry shape of a decoded variant. */
  function TypedValue(dt: byte, v: Json): Json {
    Obj(map["type" := Str(TypeName(dt)), "value" := v])
  }

  function XiaomiValue(m: map<string, Json>): Json {
    Obj(map["type" := Str("xiaomi_ff01"), "value" := Obj(m)])
  }

  function TypedElements(dt: byte, elements: Json): Json {
    Obj(map["element_type" := Str(TypeName(dt)), "elements" := elements])
  }

  function Decimal(n: nat): string {
    if n < 10 then [('0' as int + n) as char] else Decimal(n / 10) + [('0' as int + n % 10) as char]
  }

  function Dec(cx: Context, t: Schema, bs: seq<byte>, last: Option<int>): (r: Decoded<Json>)
    ensures r.Got? ==> r.used <= |bs|
    decreases |bs|, t, 0
  {
    match t
    case VariantType =>
      if bs == [] then Failed(Thrown)
      else if bs[0] == STRING && last == Some(FF01) then
        (match Dec(cx, XiaomiFF01Type, bs[1..], last)
         case Failed(e) => Failed(e)
         case Got(v, k, l) => Got(v, 1 + k, l))
      else
        (match Dec(cx, DataType(bs[0]), bs[1..], last)
         case Failed(e) => Failed(e)
         case Got(v, k, l) => Got(TypedValue(bs[0], v), 1 + k, l))
    case XiaomiFF01Type =>
      if bs == [] then Failed(Thrown)
      else
        var size := if bs[0] > |bs| - 1 then |bs| - 1 else bs[0];
        (match DecEntries(cx, bs[1..1 + size], None)
         case Failed(e) => Failed(e)
         case Got(m, k, l) => Got(XiaomiValue(m), 1 + k, l))
    case DataType(dt) =>
      (match KindOf(dt)
       case Structure =>
         if |bs| < 2 then Failed(Thrown)
         else if LeValue(bs[..2]) == 0xFFFF then Got(Null, 2, last)
         else
           (match DecItems(cx, VariantType, LeValue(bs[..2]), bs[2..], last)
            case Failed(e) => Failed(e)
            case Got(items, k, l) => Got(Arr(items), 2 + k, l))
       case TypedArray =>
         if |bs| < 3 then Failed(Thrown)
         else if LeValue(bs[1..3]) == 0xFFFF then Got(TypedElements(bs[0], Null), 3, last)
         else
           (match DecItems(cx, DataType(bs[0]), LeValue(bs[1..3]), bs[3..], last)
            case Failed(e) => Failed(e)
            case Got(items, k, l) => Got(TypedElements(bs[0], Arr(items)), 3 + k, l))
       case k => DecLeaf(cx, k, bs, last))
    case ObjectType(ps) =>
      (match DecProperties(cx, ps, bs, last)
       case Failed(e) => Failed(e)
       case Got(m, k, l) => Got(Obj(m), k, l))
    case ArrayType(n, e) =>
      if n == 0 then
        (match DecGreedy(cx, e, bs, last)
         case Failed(e) => Failed(e)
         case Got(items, k, l) => Got(Arr(items), k, l))
      else if |bs| < n then Failed(Thrown)
      else
        (match DecItems(cx, e, LeValue(bs[..n]), bs[n..], last)
         case Failed(e) => Failed(e)
         case Got(items, k, l) => Got(Arr(items), n + k, l))
    case ErrorOrType(s) =>
      if bs == [] then Failed(Thrown)
      else if bs[0] != 0 then Got(Obj(map["error" := Num(bs[0])]), 1, last)
      else
        (match Dec(cx, s, bs[1..], last)
         case Failed(e) => Failed(e)
         case Got(v, k, l) => Got(Obj(map["success" := v]), 1 + k, l))
  }

  /** n values of type t, one after the other. */
  function DecItems(cx: Context, t: Schema, n: nat, bs: seq<byte>, last: Option<int>): (r: Decoded<seq<Json>>)
    ensures r.Got? ==> r.used <= |bs|
    decreases |bs|, t, 1 + n
  {
    if n == 0 then Got([], 0, last)
    else match Dec(cx, t, bs, last)
      case Failed(e) => Failed(e)
      case Got(v, k, l) =>
        match DecItems(cx, t, n - 1, bs[k..], l)
        case Failed(e) => Failed(e)
        case Got(vs, k', l') => Got([v] + vs, k + k', l')
  }

  /** Values of type t until the window is empty. */
  function DecGreedy(cx: Context, t: Schema, bs: seq<byte>, last: Option<int>): (r: Decoded<seq<Json>>)
    ensures r.Got? ==> r.used == |bs|
    decreases |bs|, t, 1
  {
    if bs == [] then Got([], 0, last)
    else match Dec(cx, t, bs, last)
      case Failed(e) => Failed(e)
      case Got(v, k, l) =>
        if k == 0 then Failed(Diverges)
        else match DecGreedy(cx, t, bs[k..], l)
          case Failed(e) => Failed(e)
          case Got(vs, k', l') => Got([v] + vs, k + k', l')
  }

  function DecProperties(cx: Context, ps: seq<Property>, bs: seq<byte>, last: Option<int>)
    : (r: Decoded<map<string, Json>>)
    ensures r.Got? ==> r.used <= |bs|
    decreases |bs|, ps, 1
  {
    if ps == [] then Got(map[], 0, last)
    else match Dec(cx, ps[0].typ, bs, last)
      case Failed(e) => Failed(e)
      case Got(v, k, l) =>
        match DecProperties(cx, ps[1..], bs[k..], l)
        case Failed(e) => Failed(e)
        case Got(m, k', l') => Got(map[ps[0].name := v] + m, k + k', l')
  }

  /** Key/variant pairs until the window of a Xiaomi block is empty. */
  function DecEntries(cx: Context, bs: seq<byte>, last: Option<int>): (r: Decoded<map<string, Json>>)
    ensures r.Got? ==> r.used == |bs|
    decreases |bs|, XiaomiFF01Type, 1
  {
    if bs == [] then Got(map[], 0, last)
    else match Dec(cx, VariantType, bs[1..], last)
      case Failed(e) => Failed(e)
      case Got(v, k, l) =>
        match DecEntries(cx, bs[1 + k..], l)
        case Failed(e) => Failed(e)
        case Got(m, k', l') => Got(map[Decimal(bs[0]) := v] + m, 1 + k + k', l')
  }
}
