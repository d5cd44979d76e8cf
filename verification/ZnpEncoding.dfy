/**
 The typed codec: sized encoders with matching decoders for integers, booleans, bit sets,
 fixed arrays, tuples, vectors, bind targets and ZCL variants, which nest.
 */
module ZnpEncoding {
  import opened Bytes
  import opened FloatFormat
  import opened DataTypes

  /** The static types the codec is instantiated with; sizes are byte counts. A tuple is its
      first member and the tuple of the others; an enumeration is its underlying integer. */
  datatype Shape =
    | UnsignedShape(n: nat)
    | SignedShape(n: nat)
    | FlagShape
    | BitsetShape(n: nat)
    | ArrayShape(length: nat, element: Shape)
    | TupleShape(first: Shape, rest: Shape)
    | VectorShape(element: Shape)
    | BindShape
    | VariantShape

  datatype BindTarget =
    | NotPresent
    | Group(id: nat)
    | ShortAddress(short: nat)
    | IEEEAddress(long: nat, endpoint: nat)
    | Broadcast

  /** A variant has a data type and, unless it is invalid, data; a bit set is the integer of
      its bits. */
  datatype Value =
    | Num(n: int)
    | Flag(b: bool)
    | Items(items: seq<Value>)
    | Tuple(first: Value, rest: Value)
    | Target(target: BindTarget)
    | Real(x: Float)
    | Variant(dt: byte, data: Option<Value>)

  /** How a variant of each data type is encoded: as its C++ type is; as a list with its own
      length prefix; as an integer of n bytes kept in a wider one; as a float. Mistyped is
      string16, which is encoded as if it were a string. */
  datatype Content =
    | NoData
    | Tristate
    | AsIs(shape: Shape)
    | List(n: nat, element: Shape)
    | Integer(n: nat, stored: nat, signed: bool)
    | FloatOf(format: Format)
    | Mistyped
    | Missing

  predicate WellSizedContent(c: Content) {
    match c
    case List(n, _) => 1 <= n <= 2
    case Integer(n, stored, _) => 1 <= n <= stored <= 8
    case FloatOf(f) => f == SEMI || f == SINGLE || f == DOUBLE
    case _ => true
  }

  /** The integer type that holds an n-byte integer. */
  function StoredIn(n: nat): (w: nat)
    requires 1 <= n <= 8
    ensures n <= w <= 8
  {
    if n <= 2 then n else if n <= 4 then 4 else 8
  }

  const OCTET := UnsignedShape(1)

  function ContentOf(dt: byte): (c: Content)
    ensures WellSizedContent(c)
  {
    if dt == NODATA then NoData
    else if dt == BOOL then Tristate
    else if 0x08 <= dt <= 0x0f then AsIs(ArrayShape(1 + dt - 0x08, OCTET))
    else if 0x18 <= dt <= 0x1f then AsIs(BitsetShape(1 + dt - 0x18))
    else if 0x20 <= dt <= 0x27 then Integer(1 + dt - 0x20, StoredIn(1 + dt - 0x20), false)
    else if 0x28 <= dt <= 0x2f then Integer(1 + dt - 0x28, StoredIn(1 + dt - 0x28), true)
    else if dt == 0x38 then FloatOf(SEMI)
    else if dt == 0x39 then FloatOf(SINGLE)
    else if dt == 0x3a then FloatOf(DOUBLE)
    else if dt == OCTSTR || dt == STRING then List(1, OCTET)
    else if dt == 0x43 then List(2, OCTET)
    else if dt == 0x44 then Mistyped
    else if dt == 0x4c then List(2, VariantShape)
    else Missing
  }

  // ----- Well-typed values -----

  predicate InUnsigned(v: int, n: nat) {
    0 <= v < Pow256(n)
  }

  predicate InSigned(v: int, n: nat) {
    2 * v + Pow256(n) >= 0 && 2 * v < Pow256(n)
  }

  predicate HasShape(t: Shape, v: Value)
    decreases v, 1
  {
    match t
    case UnsignedShape(n) => v.Num? && InUnsigned(v.n, n)
    case SignedShape(n) => v.Num? && InSigned(v.n, n)
    case FlagShape => v.Flag?
    case BitsetShape(n) => v.Num? && InUnsigned(v.n, n)
    case ArrayShape(length, element) => v.Items? && |v.items| == length && AllHaveShape(element, v.items)
    case TupleShape(first, rest) => v.Tuple? && HasShape(first, v.first) && HasShape(rest, v.rest)
    case VectorShape(element) => v.Items? && AllHaveShape(element, v.items)
    case BindShape => v.Target? && ValidTarget(v.target)
    case VariantShape => v.Variant? && (v.data.Some? ==> Holds(ContentOf(v.dt), v.data.value))
  }

  predicate AllHaveShape(t: Shape, vs: seq<Value>)
    decreases vs, 0
  {
    vs == [] || (HasShape(t, vs[0]) && AllHaveShape(t, vs[1..]))
  }

  predicate ValidTarget(target: BindTarget) {
    match target
    case Group(id) => id < Pow256(2)
    case ShortAddress(short) => short < Pow256(2)
    case IEEEAddress(long, endpoint) => long < Pow256(8) && endpoint < 256
    case _ => true
  }

  predicate Holds(c: Content, v: Value)
    decreases v, 2
  {
    match c
    case Tristate => v.Flag?
    case AsIs(shape) => HasShape(shape, v)
    case List(_, element) => v.Items? && AllHaveShape(element, v.items)
    case Integer(_, stored, signed) => v.Num? && if signed then InSigned(v.n, stored) else InUnsigned(v.n, stored)
    case FloatOf(_) => v.Real?
    case Mistyped => v.Items? && AllHaveShape(OCTET, v.items)
    case NoData => false
    case Missing => false
  }

  // ----- Encoding -----

  type Encoded = Option<seq<byte>>

  function Join(a: Encoded, b: Encoded): Encoded {
    if a.Some? && b.Some? then Some(a.value + b.value) else None
  }

  function ToUnsigned(v: int, n: nat): int {
    if v < 0 then v + Pow256(n) else v
  }

  function ToSigned(u: nat, n: nat): int {
    if 2 * u >= Pow256(n) then u - Pow256(n) else u
  }

  /** What an invalid integer is encoded as: the largest unsigned, the smallest signed one. */
  function Invalid(stored: nat, signed: bool): int {
    if signed then -(Pow256(stored) / 2) else Pow256(stored) - 1
  }

  function EncTarget(target: BindTarget): seq<byte>
    requires ValidTarget(target)
  {
    match target
    case NotPresent => [0]
    case Group(id) => [1] + LeBytes(id, 2)
    case ShortAddress(short) => [2] + LeBytes(short, 2)
    case IEEEAddress(long, endpoint) => [3] + LeBytes(long, 8) + [endpoint]
    case Broadcast => [255]
  }

  function Enc(t: Shape, v: Value): Encoded
    requires HasShape(t, v)
    decreases v, 1
  {
    match t
    case UnsignedShape(n) => Some(LeBytes(v.n, n))
    case SignedShape(n) => Some(LeBytes(ToUnsigned(v.n, n), n))
    case FlagShape => Some([if v.b then 1 else 0])
    case BitsetShape(n) => Some(LeBytes(v.n, n))
    case ArrayShape(_, element) => EncAll(element, v.items)
    case TupleShape(first, rest) => Join(Enc(first, v.first), Enc(rest, v.rest))
    case VectorShape(element) =>
      if |v.items| > 255 then None else Join(Some([|v.items|]), EncAll(element, v.items))
    case BindShape => Some(EncTarget(v.target))
    case VariantShape =>
      var c := ContentOf(v.dt);
      Join(Some([v.dt]), if v.data.Some? then EncContent(c, v.data.value) else EncInvalid(c))
  }

  function EncAll(t: Shape, vs: seq<Value>): Encoded
    requires AllHaveShape(t, vs)
    decreases vs, 0
  {
    if vs == [] then Some([]) else Join(Enc(t, vs[0]), EncAll(t, vs[1..]))
  }

  function EncContent(c: Content, v: Value): Encoded
    requires Holds(c, v) && WellSizedContent(c)
    decreases v, 2
  {
    match c
    case Tristate => Some([if v.b then 1 else 0])
    case AsIs(shape) => Enc(shape, v)
    case List(n, element) => Join(Some(LeBytes(|v.items| % Pow256(n), n)), EncAll(element, v.items))
    case Integer(n, stored, signed) => Some(LeBytes(ToUnsigned(v.n, stored), n))
    case FloatOf(f) =>
      EncodeFits(f, v.x);
      Some(LeBytes(Encode(f, v.x), f.Width()))
    case Mistyped => Some([0xFF, 0xFF])
  }

  function EncInvalid(c: Content): Encoded
    requires WellSizedContent(c)
  {
    match c
    case NoData => Some([])
    case Tristate => Some([0xFF])
    case List(n, _) => Some(LeBytes(Pow256(n) - 1, n))
    case Integer(n, stored, signed) => Some(LeBytes(ToUnsigned(Invalid(stored, signed), stored), n))
    case Mistyped => Some([0xFF, 0xFF])
    case _ => None
  }

  // ----- The size reserved in advance -----

  function Add(a: Option<nat>, b: Option<nat>): Option<nat> {
    if a.Some? && b.Some? then Some(a.value + b.value) else None
  }

  function SizeOf(t: Shape, v: Value): Option<nat>
    requires HasShape(t, v)
    decreases v, 1
  {
    match t
    case UnsignedShape(n) => Some(n)
    case SignedShape(n) => Some(n)
    case FlagShape => Some(1)
    case BitsetShape(n) => Some(n)
    case ArrayShape(_, element) => SizeOfAll(element, v.items)
    case TupleShape(first, rest) => Add(SizeOf(first, v.first), SizeOf(rest, v.rest))
    case VectorShape(element) => Add(Some(1), SizeOfAll(element, v.items))
    case BindShape => Some(match v.target
      case Group(_) => 3
      case ShortAddress(_) => 3
      case IEEEAddress(_, _) => 10
      case _ => 1)
    case VariantShape => Add(Some(1), SizeOfContent(ContentOf(v.dt), v.data))
  }

  function SizeOfAll(t: Shape, vs: seq<Value>): Option<nat>
    requires AllHaveShape(t, vs)
    decreases vs, 0
  {
    if vs == [] then Some(0) else Add(SizeOf(t, vs[0]), SizeOfAll(t, vs[1..]))
  }

  function SizeOfContent(c: Content, data: Option<Value>): Option<nat>
    requires data.Some? ==> Holds(c, data.value)
    requires WellSizedContent(c)
    decreases data, 3
  {
    match c
    case NoData => Some(0)
    case Tristate => Some(1)
    case AsIs(shape) => if data.Some? then SizeOf(shape, data.value) else None
    case List(n, element) => if data.Some? then Add(Some(n), SizeOfAll(element, data.value.items)) else Some(n)
    case Integer(n, _, _) => Some(n)
    case FloatOf(f) => if data.Some? then Some(f.Width()) else None
    case Mistyped => Some(2)
    case Missing => None
  }

  // ----- Decoding -----

  /** The integer an unsigned reading stands for, or None for the invalid one. */
  function ReadInteger(u: nat, stored: nat, signed: bool): Option<int> {
    var v := if signed then ToSigned(u, stored) else u;
    if v == Invalid(stored, signed) then None else Some(v)
  }

  datatype Decoded<+T> = Got(value: T, used: nat) | Failed

  function DecTarget(bs: seq<byte>): (r: Decoded<BindTarget>)
    ensures r.Got? ==> r.used <= |bs| && ValidTarget(r.value)
  {
    if bs == [] then Failed
    else if bs[0] == 0 then Got(NotPresent, 1)
    else if bs[0] == 255 then Got(Broadcast, 1)
    else if bs[0] == 1 then (if |bs| < 3 then Failed else Got(Group(LeValue(bs[1..3])), 3))
    else if bs[0] == 2 then (if |bs| < 3 then Failed else Got(ShortAddress(LeValue(bs[1..3])), 3))
    else if bs[0] == 3 then (if |bs| < 10 then Failed else Got(IEEEAddress(LeValue(bs[1..9]), bs[9]), 10))
    else Failed
  }

  function Dec(t: Shape, bs: seq<byte>): (r: Decoded<Value>)
    ensures r.Got? ==> r.used <= |bs|
    decreases |bs|, 1, t, 0
  {
    match t
    case UnsignedShape(n) => if |bs| < n then Failed else Got(Num(LeValue(bs[..n])), n)
    case SignedShape(n) => if |bs| < n then Failed else Got(Num(ToSigned(LeValue(bs[..n]), n)), n)
    case FlagShape => if bs == [] then Failed else Got(Flag(bs[0] > 0), 1)
    case BitsetShape(n) => if |bs| < n then Failed else Got(Num(LeValue(bs[..n])), n)
    case ArrayShape(length, element) =>
      (match DecAll(element, length, bs)
       case Failed => Failed
       case Got(vs, k) => Got(Items(vs), k))
    case TupleShape(first, rest) =>
      (match Dec(first, bs)
       case Failed => Failed
       case Got(a, k) =>
         (match Dec(rest, bs[k..])
          case Failed => Failed
          case Got(b, l) => Got(Tuple(a, b), k + l)))
    case VectorShape(element) =>
      if bs == [] then Failed
      else
        (match DecAll(element, bs[0], bs[1..])
         case Failed => Failed
         case Got(vs, k) => Got(Items(vs), 1 + k))
    case BindShape =>
      (match DecTarget(bs)
       case Failed => Failed
       case Got(target, k) => Got(Target(target), k))
    case VariantShape => if bs == [] then Failed else DecContent(bs[0], bs[1..])
  }

  function DecAll(t: Shape, n: nat, bs: seq<byte>): (r: Decoded<seq<Value>>)
    ensures r.Got? ==> r.used <= |bs| && |r.value| == n
    decreases |bs|, 1, t, 1 + n
  {
    if n == 0 then Got([], 0)
    else match Dec(t, bs)
      case Failed => Failed
      case Got(v, k) =>
        match DecAll(t, n - 1, bs[k..])
        case Failed => Failed
        case Got(vs, l) => Got([v] + vs, k + l)
  }

  /** A variant's content, read as data type dt says; used counts the type byte too. */
  function DecContent(dt: byte, bs: seq<byte>): (r: Decoded<Value>)
    ensures r.Got? ==> r.used <= 1 + |bs|
    decreases |bs| + 1, 0, OCTET, 0
  {
    match ContentOf(dt)
    case NoData => Got(Variant(dt, None), 1)
    case Tristate =>
      if bs == [] then Failed
      else if bs[0] == 0xFF then Got(Variant(dt, None), 2)
      else if bs[0] <= 1 then Got(Variant(dt, Some(Flag(bs[0] > 0))), 2)
      else Failed
    case AsIs(shape) =>
      (match Dec(shape, bs)
       case Failed => Failed
       case Got(v, k) => Got(Variant(dt, Some(v)), 1 + k))
    case List(n, element) => DecList(dt, n, element, bs)
    case Mistyped => DecList(STRING, 2, OCTET, bs)
    case Integer(n, stored, signed) =>
      if |bs| < n then Failed
      else
        var v := ReadInteger(LeValue(bs[..n]), stored, signed);
        Got(Variant(dt, if v.None? then None else Some(Num(v.value))), 1 + n)
    case FloatOf(f) =>
      if |bs| < f.Width() then Failed
      else Got(Variant(dt, Some(Real(Decode(f, LeValue(bs[..f.Width()]))))), 1 + f.Width())
    case Missing => Failed
  }

  function DecList(dt: byte, n: nat, element: Shape, bs: seq<byte>): (r: Decoded<Value>)
    requires n >= 1
    ensures r.Got? ==> r.used <= 1 + |bs|
    decreases |bs|, 2, element, 0
  {
    if |bs| < n then Failed
    else if LeValue(bs[..n]) == Pow256(n) - 1 then Got(Variant(dt, None), 1 + n)
    else
      match DecAll(element, LeValue(bs[..n]), bs[n..])
      case Failed => Failed
      case Got(vs, k) => Got(Variant(dt, Some(Items(vs))), 1 + n + k)
  }

  // ----- What can be encoded, and how long it gets -----

  /** Vectors have at most 255 elements, and variants hold data where their type needs it. */
  predicate Encodable(t: Shape, v: Value)
    requires HasShape(t, v)
    decreases v, 1
  {
    match t
    case ArrayShape(_, element) => AllEncodable(element, v.items)
    case TupleShape(first, rest) => Encodable(first, v.first) && Encodable(rest, v.rest)
    case VectorShape(element) => |v.items| <= 255 && AllEncodable(element, v.items)
    case VariantShape => EncodableContent(ContentOf(v.dt), v.data)
    case _ => true
  }

  predicate EncodableContent(c: Content, data: Option<Value>)
    requires data.Some? ==> Holds(c, data.value)
    decreases data, 3
  {
    match c
    case AsIs(shape) => data.Some? && Encodable(shape, data.value)
    case List(_, element) => data.Some? ==> AllEncodable(element, data.value.items)
    case FloatOf(_) => data.Some?
    case Missing => false
    case _ => true
  }

  predicate AllEncodable(t: Shape, vs: seq<Value>)
    requires AllHaveShape(t, vs)
    decreases vs, 0
  {
    vs == [] || (Encodable(t, vs[0]) && AllEncodable(t, vs[1..]))
  }

  /** Encoding succeeds exactly on the encodable values, and then fills the reserved size. */
  lemma {:induction false} EncodesInSize(t: Shape, v: Value)
    requires HasShape(t, v)
    ensures Enc(t, v).Some? <==> Encodable(t, v)
    ensures Enc(t, v).Some? ==> SizeOf(t, v) == Some(|Enc(t, v).value|)
    decreases v, 1
  {
    hide LeBytes, Pow256, ContentOf, EncContent, EncInvalid, EncodableContent, SizeOfContent, EncAll, SizeOfAll,
      AllEncodable;
    match t
    case ArrayShape(_, element) => AllEncodeInSize(element, v.items);
    case TupleShape(first, rest) =>
      EncodesInSize(first, v.first);
      EncodesInSize(rest, v.rest);
    case VectorShape(element) => AllEncodeInSize(element, v.items);
    case VariantShape =>
      if v.data.Some? {
        ContentEncodesInSize(ContentOf(v.dt), v.data.value);
      } else {
        InvalidEncodesInSize(ContentOf(v.dt));
      }
    case _ =>
  }

  lemma InvalidEncodesInSize(c: Content)
    requires WellSizedContent(c)
    ensures EncInvalid(c).Some? <==> EncodableContent(c, None)
    ensures EncInvalid(c).Some? ==> SizeOfContent(c, None) == Some(|EncInvalid(c).value|)
  {
  }

  lemma {:induction false} ContentEncodesInSize(c: Content, v: Value)
    requires WellSizedContent(c) && Holds(c, v)
    ensures EncContent(c, v).Some? <==> EncodableContent(c, Some(v))
    ensures EncContent(c, v).Some? ==> SizeOfContent(c, Some(v)) == Some(|EncContent(c, v).value|)
    decreases v, 2
  {
    match c
    case AsIs(shape) => EncodesInSize(shape, v);
    case List(_, element) => AllEncodeInSize(element, v.items);
    case _ =>
  }

  lemma {:induction false} AllEncodeInSize(t: Shape, vs: seq<Value>)
    requires AllHaveShape(t, vs)
    ensures EncAll(t, vs).Some? <==> AllEncodable(t, vs)
    ensures EncAll(t, vs).Some? ==> SizeOfAll(t, vs) == Some(|EncAll(t, vs).value|)
    decreases vs, 0
  {
    hide Enc, Encodable, SizeOf, HasShape;
    if vs != [] {
      EncodesInSize(t, vs[0]);
      AllEncodeInSize(t, vs[1..]);
    }
  }

  // ----- Round trips -----

  /** The variants inside v survive: their lists are shorter than the all-ones length, their
      integers neither look invalid nor need more bytes than are sent, their floats have a
      bit pattern, and none is a string16. */
  predicate Exact(t: Shape, v: Value)
    requires HasShape(t, v)
    decreases v, 1
  {
    match t
    case ArrayShape(_, element) => AllExact(element, v.items)
    case TupleShape(first, rest) => Exact(first, v.first) && Exact(rest, v.rest)
    case VectorShape(element) => AllExact(element, v.items)
    case VariantShape => ExactContent(ContentOf(v.dt), v.data)
    case _ => true
  }

  predicate ExactContent(c: Content, data: Option<Value>)
    requires WellSizedContent(c) && (data.Some? ==> Holds(c, data.value))
    decreases data, 3
  {
    match c
    case AsIs(shape) => data.Some? ==> Exact(shape, data.value)
    case List(n, element) => data.Some? ==> |data.value.items| < Pow256(n) - 1 && AllExact(element, data.value.items)
    case Integer(n, stored, signed) => ExactInteger(n, stored, signed, data)
    case FloatOf(f) => data.Some? ==> Representable(f, data.value.x)
    case Mistyped => false
    case _ => true
  }

  predicate AllExact(t: Shape, vs: seq<Value>)
    requires AllHaveShape(t, vs)
    decreases vs, 0
  {
    vs == [] || (Exact(t, vs[0]) && AllExact(t, vs[1..]))
  }

  predicate ExactInteger(n: nat, stored: nat, signed: bool, data: Option<Value>)
    requires data.Some? ==> data.value.Num?
  {
    if data.None? then n == stored
    else data.value.n != Invalid(stored, signed) && (n < stored ==> 0 <= data.value.n < Pow256(n))
  }

  lemma {:induction false} Pow256Wider(n: nat, w: nat)
    requires n < w
    ensures Pow256(w) >= 256 * Pow256(n)
  {
    if n < w - 1 {
      Pow256Wider(n, w - 1);
    }
  }

  lemma HalfOfPow256(n: nat)
    requires n >= 1
    ensures 2 * (Pow256(n) / 2) == Pow256(n)
  {
    assert Pow256(n) == 2 * (128 * Pow256(n - 1));
  }

  /** The reading of n bytes of a value that is sent from a wider integer. */
  lemma NarrowReading(x: nat, n: nat, stored: nat, signed: bool)
    requires 1 <= n < stored
    ensures ReadInteger(x % Pow256(n), stored, signed) == Some(x % Pow256(n))
  {
    Pow256Wider(n, stored);
    assert x % Pow256(n) < Pow256(n);
  }

  lemma IntegerRoundTrip(n: nat, stored: nat, signed: bool, data: Option<Value>)
    requires 1 <= n <= stored
    requires data.Some? ==> Holds(Integer(n, stored, signed), data.value)
    ensures var v := if data.Some? then data.value.n else Invalid(stored, signed);
      var u := ToUnsigned(v, stored);
      u >= 0
      && (ReadInteger(LeValue(LeBytes(u, n)), stored, signed) == (if data.Some? then Some(data.value.n) else None)
          <==> ExactInteger(n, stored, signed, data))
  {
    hide Pow256, LeBytes, LeValue;
    HalfOfPow256(stored);
    var v := if data.Some? then data.value.n else Invalid(stored, signed);
    var u: nat := ToUnsigned(v, stored);
    LeValueOfBytes(u, n);
    if n == stored {
      assert u < Pow256(n);
      ModIs(u, Pow256(n), 0, u);
    } else {
      NarrowReading(u, n, stored, signed);
      if 0 <= v < Pow256(n) {
        ModIs(v, Pow256(n), 0, v);
      }
    }
  }

  lemma TargetRoundTrip(target: BindTarget, suffix: seq<byte>)
    requires ValidTarget(target)
    ensures DecTarget(EncTarget(target) + suffix) == Got(target, |EncTarget(target)|)
  {
    hide LeBytes, LeValue, Pow256;
    var bs := EncTarget(target) + suffix;
    match target
    case Group(id) =>
      assert bs[1..3] == LeBytes(id, 2);
      LeRoundTrip(id, 2);
    case ShortAddress(short) =>
      assert bs[1..3] == LeBytes(short, 2);
      LeRoundTrip(short, 2);
    case IEEEAddress(long, endpoint) =>
      assert bs[1..9] == LeBytes(long, 8);
      LeRoundTrip(long, 8);
    case _ =>
  }

  lemma Fixed(v: int, n: nat, suffix: seq<byte>)
    requires InUnsigned(v, n)
    ensures (LeBytes(v, n) + suffix)[..n] == LeBytes(v, n) && LeValue(LeBytes(v, n)) == v
  {
    LeRoundTrip(v, n);
  }

  /** A whole encoding in front of a suffix: what follows its first part. */
  lemma Behind(a: seq<byte>, b: seq<byte>, suffix: seq<byte>)
    ensures (a + b) + suffix == a + (b + suffix) && (a + (b + suffix))[|a|..] == b + suffix
    ensures (a + (b + suffix))[..|a|] == a
  {
  }

  /** Main result. Decoding what was encoded, with anything after it, returns the value and
      leaves what came after, exactly when the variants in it survive. */
  lemma {:induction false} RoundTrip(t: Shape, v: Value, suffix: seq<byte>)
    requires HasShape(t, v) && Enc(t, v).Some?
    ensures var bs := Enc(t, v).value; var r := Dec(t, bs + suffix);
      (Exact(t, v) ==> r == Got(v, |bs|)) && (!Exact(t, v) && r.Got? ==> r.value != v)
    decreases v, 1
  {
    hide LeBytes, LeValue, Pow256, EncTarget, DecTarget, ContentOf, EncContent, EncInvalid, DecContent;
    match t
    case UnsignedShape(n) => Fixed(v.n, n, suffix);
    case SignedShape(n) =>
      SignedFits(v.n, n);
      Fixed(ToUnsigned(v.n, n), n, suffix);
    case FlagShape =>
    case BitsetShape(n) => Fixed(v.n, n, suffix);
    case ArrayShape(_, element) => RoundTripAll(element, v.items, suffix);
    case TupleShape(first, rest) =>
      var a, b := Enc(first, v.first).value, Enc(rest, v.rest).value;
      Behind(a, b, suffix);
      RoundTrip(first, v.first, b + suffix);
      RoundTrip(rest, v.rest, suffix);
    case VectorShape(element) =>
      Behind([|v.items|], EncAll(element, v.items).value, suffix);
      RoundTripAll(element, v.items, suffix);
    case BindShape => TargetRoundTrip(v.target, suffix);
    case VariantShape =>
      if v.data.Some? {
        Behind([v.dt], EncContent(ContentOf(v.dt), v.data.value).value, suffix);
        RoundTripContent(v.dt, v.data.value, suffix);
      } else {
        Behind([v.dt], EncInvalid(ContentOf(v.dt)).value, suffix);
        RoundTripInvalid(v.dt, suffix);
      }
  }

  /** Variants that hold data. */
  lemma {:induction false} RoundTripContent(dt: byte, v: Value, suffix: seq<byte>)
    requires var c := ContentOf(dt); Holds(c, v) && EncContent(c, v).Some?
    ensures var c := ContentOf(dt); var bs := EncContent(c, v).value; var r := DecContent(dt, bs + suffix);
      (ExactContent(c, Some(v)) ==> r == Got(Variant(dt, Some(v)), 1 + |bs|))
      && (!ExactContent(c, Some(v)) && r.Got? ==> r.value != Variant(dt, Some(v)))
    decreases v, 2
  {
    hide LeBytes, LeValue, Pow256, Enc, Dec, EncAll, DecAll, HasShape, Exact, Encode, Decode, Representable;
    var c := ContentOf(dt);
    var bs := EncContent(c, v).value;
    match c
    case Tristate =>
    case AsIs(shape) => RoundTrip(shape, v, suffix);
    case List(n, element) =>
      var a, b := LeBytes(|v.items| % Pow256(n), n), EncAll(element, v.items).value;
      Behind(a, b, suffix);
      LengthReading(|v.items|, n);
      RoundTripAll(element, v.items, suffix);
    case Integer(n, stored, signed) =>
      IntegerRoundTrip(n, stored, signed, Some(v));
      assert (bs + suffix)[..n] == bs;
    case FloatOf(f) =>
      FloatReading(f, v.x);
      SurvivesIffRepresentable(f, v.x);
      assert (bs + suffix)[..f.Width()] == bs;
    case Mistyped => MistypedIsInvalid(suffix);
  }

  /** Variants that hold none. */
  lemma RoundTripInvalid(dt: byte, suffix: seq<byte>)
    requires EncInvalid(ContentOf(dt)).Some?
    ensures var c := ContentOf(dt); var bs := EncInvalid(c).value; var r := DecContent(dt, bs + suffix);
      (ExactContent(c, None) ==> r == Got(Variant(dt, None), 1 + |bs|))
      && (!ExactContent(c, None) && r.Got? ==> r.value != Variant(dt, None))
  {
    hide LeBytes, LeValue, Pow256, Dec, DecAll;
    var c := ContentOf(dt);
    var bs := EncInvalid(c).value;
    match c
    case List(n, element) =>
      LeRoundTrip(Pow256(n) - 1, n);
      assert (bs + suffix)[..n] == bs;
    case Integer(n, stored, signed) =>
      IntegerRoundTrip(n, stored, signed, None);
      assert (bs + suffix)[..n] == bs;
    case Mistyped => MistypedIsInvalid(suffix);
    case _ =>
  }

  lemma LengthReading(size: nat, n: nat)
    ensures LeValue(LeBytes(size % Pow256(n), n)) == size % Pow256(n)
    ensures size < Pow256(n) ==> size % Pow256(n) == size
    ensures size >= Pow256(n) ==> size % Pow256(n) != size
  {
    LeRoundTrip(size % Pow256(n), n);
    if size < Pow256(n) {
      ModIs(size, Pow256(n), 0, size);
    }
  }

  lemma FloatReading(f: Format, x: Float)
    requires f == SEMI || f == SINGLE || f == DOUBLE
    ensures Encode(f, x) >= 0 && LeValue(LeBytes(Encode(f, x), f.Width())) == Encode(f, x)
  {
    hide Pow2, Pow256, LeValue, LeBytes, Encode;
    EncodeFits(f, x);
    Pow256IsPow2(f.Width());
    TwicePow2(f.man + f.exp);
    assert 8 * f.Width() == f.man + f.exp + 1;
    LeRoundTrip(Encode(f, x), f.Width());
  }

  lemma MistypedIsInvalid(suffix: seq<byte>)
    ensures DecContent(0x44, [0xFF, 0xFF] + suffix) == Got(Variant(STRING, None), 3)
  {
    assert Pow256(2) - 1 == 0xFFFF;
    assert ([0xFF, 0xFF] + suffix)[..2] == [0xFF, 0xFF];
    assert LeValue([0xFF]) == 0xFF && [0xFF, 0xFF][1..] == [0xFF];
  }

  lemma SignedFits(v: int, n: nat)
    requires InSigned(v, n)
    ensures InUnsigned(ToUnsigned(v, n), n) && ToSigned(ToUnsigned(v, n), n) == v
  {
  }

  lemma {:induction false} RoundTripAll(t: Shape, vs: seq<Value>, suffix: seq<byte>)
    requires AllHaveShape(t, vs) && EncAll(t, vs).Some?
    ensures var bs := EncAll(t, vs).value; var r := DecAll(t, |vs|, bs + suffix);
      (AllExact(t, vs) ==> r == Got(vs, |bs|)) && (!AllExact(t, vs) && r.Got? ==> r.value != vs)
    decreases vs, 0
  {
    hide Enc, Dec, Exact;
    if vs != [] {
      var a, b := Enc(t, vs[0]).value, EncAll(t, vs[1..]).value;
      Behind(a, b, suffix);
      RoundTrip(t, vs[0], b + suffix);
      RoundTripAll(t, vs[1..], suffix);
      assert vs == [vs[0]] + vs[1..];
    }
  }

  // ----- Shapes that cannot lose anything -----

  predicate HasVariants(t: Shape) {
    match t
    case ArrayShape(_, element) => HasVariants(element)
    case TupleShape(first, rest) => HasVariants(first) || HasVariants(rest)
    case VectorShape(element) => HasVariants(element)
    case VariantShape => true
    case _ => false
  }

  /** Without variants every well-typed value round trips. */
  lemma {:induction false} ExactWithoutVariants(t: Shape, v: Value)
    requires HasShape(t, v) && !HasVariants(t)
    ensures Exact(t, v)
    decreases v, 1
  {
    match t
    case ArrayShape(_, element) => AllExactWithoutVariants(element, v.items);
    case TupleShape(first, rest) =>
      ExactWithoutVariants(first, v.first);
      ExactWithoutVariants(rest, v.rest);
    case VectorShape(element) => AllExactWithoutVariants(element, v.items);
    case _ =>
  }

  lemma {:induction false} AllExactWithoutVariants(t: Shape, vs: seq<Value>)
    requires AllHaveShape(t, vs) && !HasVariants(t)
    ensures AllExact(t, vs)
    decreases vs, 0
  {
    if vs != [] {
      ExactWithoutVariants(t, vs[0]);
      AllExactWithoutVariants(t, vs[1..]);
    }
  }

  lemma RoundTripWithoutVariants(t: Shape, v: Value, suffix: seq<byte>)
    requires HasShape(t, v) && !HasVariants(t) && Enc(t, v).Some?
    ensures Dec(t, Enc(t, v).value + suffix) == Got(v, |Enc(t, v).value|)
  {
    ExactWithoutVariants(t, v);
    RoundTrip(t, v, suffix);
  }

  // ----- Encoding what was decoded -----

  /** The input under t is as the encoder writes it: true is 1, a NaN is the one NaN it
      writes, and no variant is a string16. */
  predicate Clean(t: Shape, bs: seq<byte>)
    decreases |bs|, 1, t, 0
  {
    match t
    case FlagShape => bs != [] && bs[0] <= 1
    case ArrayShape(length, element) => CleanAll(element, length, bs)
    case TupleShape(first, rest) => Clean(first, bs) && (Dec(first, bs).Got? ==> Clean(rest, bs[Dec(first, bs).used..]))
    case VectorShape(element) => bs != [] && CleanAll(element, bs[0], bs[1..])
    case VariantShape => bs != [] && CleanContent(bs[0], bs[1..])
    case _ => true
  }

  predicate CleanAll(t: Shape, n: nat, bs: seq<byte>)
    decreases |bs|, 1, t, 1 + n
  {
    n == 0 || (Clean(t, bs) && (Dec(t, bs).Got? ==> CleanAll(t, n - 1, bs[Dec(t, bs).used..])))
  }

  predicate CleanContent(dt: byte, bs: seq<byte>)
    decreases |bs| + 1, 0, OCTET, 0
  {
    match ContentOf(dt)
    case AsIs(shape) => Clean(shape, bs)
    case List(n, element) =>
      |bs| >= n && (LeValue(bs[..n]) == Pow256(n) - 1 || CleanAll(element, LeValue(bs[..n]), bs[n..]))
    case FloatOf(f) => |bs| >= f.Width() && QuietPattern(f, LeValue(bs[..f.Width()]))
    case Mistyped => false
    case _ => true
  }

  ghost predicate Differs(e: seq<byte>, bs: seq<byte>, used: nat) {
    exists i :: 0 <= i < |e| && i < used && i < |bs| && e[i] != bs[i]
  }

  /** e is the used bytes if clean says so, and otherwise differs from them somewhere. */
  ghost predicate Reproduces(e: Encoded, bs: seq<byte>, used: nat, clean: bool) {
    e.Some? && used <= |bs| && if clean then e.value == bs[..used] else Differs(e.value, bs, used)
  }

  lemma ReproducesBoth(a: Encoded, b: Encoded, bs: seq<byte>, k: nat, l: nat, cleanA: bool, cleanB: bool)
    requires Reproduces(a, bs, k, cleanA) && Reproduces(b, bs[k..], l, cleanB)
    ensures Reproduces(Join(a, b), bs, k + l, cleanA && cleanB)
  {
    if !cleanA {
      var i :| 0 <= i < |a.value| && i < k && i < |bs| && a.value[i] != bs[i];
      assert (a.value + b.value)[i] != bs[i];
    } else if !cleanB {
      var i :| 0 <= i < |b.value| && i < l && i < |bs[k..]| && b.value[i] != bs[k..][i];
      assert (a.value + b.value)[k + i] != bs[k + i];
    } else {
      assert bs[..k] + bs[k..][..l] == bs[..k + l];
    }
  }

  /** Two strings of one length are equal or differ somewhere. */
  lemma SameLength(e: seq<byte>, bs: seq<byte>, n: nat, clean: bool)
    requires |e| == n <= |bs| && (e == bs[..n] <==> clean)
    ensures Reproduces(Some(e), bs, n, clean)
  {
    if !clean {
      assert exists i :: 0 <= i < n && e[i] != bs[..n][i];
    }
  }

  lemma IsPrefix(e: seq<byte>, bs: seq<byte>, n: nat)
    requires n <= |bs| && e == bs[..n]
    ensures Reproduces(Some(e), bs, n, true)
  {
  }

  lemma TargetReencodes(bs: seq<byte>)
    requires DecTarget(bs).Got?
    ensures EncTarget(DecTarget(bs).value) == bs[..DecTarget(bs).used]
  {
    hide LeBytes, LeValue, Pow256;
    var r := DecTarget(bs);
    match r.value
    case Group(_) => LeBytesOfValue(bs[1..3]);
    case ShortAddress(_) => LeBytesOfValue(bs[1..3]);
    case IEEEAddress(_, _) => LeBytesOfValue(bs[1..9]);
    case _ =>
  }

  lemma SignedReencodes(u: nat, n: nat)
    requires u < Pow256(n)
    ensures InSigned(ToSigned(u, n), n) && (n >= 1 ==> ToUnsigned(ToSigned(u, n), n) == u)
    ensures n == 0 ==> LeBytes(ToUnsigned(ToSigned(u, n), n), n) == []
  {
    if n >= 1 {
      HalfOfPow256(n);
    }
  }

  lemma IntegersReencode(bs: seq<byte>)
    ensures var n, u := |bs|, LeValue(bs);
      && InUnsigned(u, n) && LeBytes(u, n) == bs
      && InSigned(ToSigned(u, n), n) && ToUnsigned(ToSigned(u, n), n) >= 0
      && LeBytes(ToUnsigned(ToSigned(u, n), n), n) == bs
  {
    LeBytesOfValue(bs);
    SignedReencodes(LeValue(bs), |bs|);
  }

  /** What was decoded is well typed, and encoding it gives back the bytes read if they are
      clean, and something that differs from them otherwise. */
  lemma {:induction false} Reencode(t: Shape, bs: seq<byte>)
    requires Dec(t, bs).Got?
    ensures var r := Dec(t, bs); HasShape(t, r.value) && Reproduces(Enc(t, r.value), bs, r.used, Clean(t, bs))
    decreases |bs|, 1, t, 1
  {
    hide LeBytes, LeValue, Pow256, DecTarget, EncTarget, InUnsigned, InSigned, DecAll, EncAll, AllHaveShape, CleanAll,
      CleanContent, DecContent, EncContent, EncInvalid, Holds, Reproduces;
    match t
    case UnsignedShape(n) =>
      IntegersReencode(bs[..n]);
      IsPrefix(bs[..n], bs, n);
    case SignedShape(n) =>
      IntegersReencode(bs[..n]);
      IsPrefix(bs[..n], bs, n);
    case FlagShape =>
      SameLength([if bs[0] > 0 then 1 else 0], bs, 1, bs[0] <= 1);
    case BitsetShape(n) =>
      IntegersReencode(bs[..n]);
      IsPrefix(bs[..n], bs, n);
    case ArrayShape(length, element) => ReencodeAll(element, length, bs);
    case TupleShape(first, rest) => ReencodeTuple(first, rest, bs);
    case VectorShape(element) =>
      ReencodeAll(element, bs[0], bs[1..]);
      IsPrefix([bs[0]], bs, 1);
      var all := DecAll(element, bs[0], bs[1..]);
      ReproducesBoth(Some([bs[0]]), EncAll(element, all.value), bs, 1, all.used, true,
        CleanAll(element, bs[0], bs[1..]));
    case BindShape =>
      TargetReencodes(bs);
      IsPrefix(EncTarget(DecTarget(bs).value), bs, DecTarget(bs).used);
    case VariantShape =>
      ReencodeVariant(bs[0], bs[1..]);
      assert bs == [bs[0]] + bs[1..];
  }

  /** Main result. Encoding what was decoded gives back exactly the bytes read if and only if
      they are clean. */
  lemma ReencodesIffClean(t: Shape, bs: seq<byte>)
    requires Dec(t, bs).Got?
    ensures var r := Dec(t, bs); HasShape(t, r.value) && (Enc(t, r.value) == Some(bs[..r.used]) <==> Clean(t, bs))
  {
    hide Enc, Dec, Clean, HasShape;
    Reencode(t, bs);
  }

  lemma {:induction false} ReencodeTuple(first: Shape, rest: Shape, bs: seq<byte>)
    requires Dec(TupleShape(first, rest), bs).Got?
    ensures var t := TupleShape(first, rest); var r := Dec(t, bs);
      HasShape(t, r.value) && Reproduces(Enc(t, r.value), bs, r.used, Clean(t, bs))
    decreases |bs|, 1, TupleShape(first, rest), 0
  {
    hide Reproduces;
    var a := Dec(first, bs);
    var b := Dec(rest, bs[a.used..]);
    Reencode(first, bs);
    Reencode(rest, bs[a.used..]);
    ReproducesBoth(Enc(first, a.value), Enc(rest, b.value), bs, a.used, b.used, Clean(first, bs),
      Clean(rest, bs[a.used..]));
  }

  lemma {:induction false} ReencodeAll(t: Shape, n: nat, bs: seq<byte>)
    requires DecAll(t, n, bs).Got?
    ensures var r := DecAll(t, n, bs);
      AllHaveShape(t, r.value) && Reproduces(EncAll(t, r.value), bs, r.used, CleanAll(t, n, bs))
    decreases |bs|, 1, t, 1 + n
  {
    hide Enc, Dec, HasShape, Reproduces, Clean;
    if n == 0 {
      IsPrefix([], bs, 0);
    } else {
      var r := DecAll(t, n, bs);
      var a := Dec(t, bs);
      var b := DecAll(t, n - 1, bs[a.used..]);
      Reencode(t, bs);
      ReencodeAll(t, n - 1, bs[a.used..]);
      assert r.value[0] == a.value && r.value[1..] == b.value;
      ReproducesBoth(Enc(t, a.value), EncAll(t, b.value), bs, a.used, b.used, Clean(t, bs),
        CleanAll(t, n - 1, bs[a.used..]));
    }
  }

  /** What a variant of type dt with this data is encoded as, behind the type byte. */
  function EncData(dt: byte, data: Option<Value>): Encoded
    requires data.Some? ==> Holds(ContentOf(dt), data.value)
  {
    if data.Some? then EncContent(ContentOf(dt), data.value) else EncInvalid(ContentOf(dt))
  }

  lemma {:induction false} ReencodeVariant(dt: byte, bs: seq<byte>)
    requires DecContent(dt, bs).Got?
    ensures var r := DecContent(dt, bs); var v := r.value;
      HasShape(VariantShape, v) && Reproduces(Enc(VariantShape, v), [dt] + bs, r.used, CleanContent(dt, bs))
    decreases |bs| + 1, 0, OCTET, 1
  {
    hide Reproduces, ContentOf, EncContent, EncInvalid, Holds, CleanContent, DecContent;
    ReencodeContent(dt, bs);
    var r := DecContent(dt, bs);
    assert ([dt] + bs)[1..] == bs;
    if ContentOf(dt).Mistyped? {
      StringForString16(dt, bs, EncData(r.value.dt, r.value.data), r.used);
    } else {
      IsPrefix([dt], [dt] + bs, 1);
      ReproducesBoth(Some([dt]), EncData(dt, r.value.data), [dt] + bs, 1, r.used - 1, true, CleanContent(dt, bs));
    }
  }

  lemma StringForString16(dt: byte, bs: seq<byte>, e: Encoded, used: nat)
    requires dt != STRING && e.Some? && 1 <= used <= 1 + |bs|
    ensures Reproduces(Join(Some([STRING]), e), [dt] + bs, used, false)
  {
    assert ([STRING] + e.value)[0] != ([dt] + bs)[0];
  }

  lemma {:induction false} ReencodeContent(dt: byte, bs: seq<byte>)
    requires DecContent(dt, bs).Got?
    ensures var r := DecContent(dt, bs); r.value.Variant? && HasShape(VariantShape, r.value) && 1 <= r.used <= 1 + |bs|
    ensures var r := DecContent(dt, bs);
      if ContentOf(dt).Mistyped? then
        r.value.dt == STRING != dt && EncData(STRING, r.value.data).Some? && !CleanContent(dt, bs)
      else r.value.dt == dt && Reproduces(EncData(dt, r.value.data), bs, r.used - 1, CleanContent(dt, bs))
    decreases |bs| + 1, 0, OCTET, 0
  {
    hide LeBytes, LeValue, Pow256, Enc, Dec, EncAll, DecAll, DecList, AllHaveShape, Clean, CleanAll, Reproduces,
      Encode, Decode, InSigned, InUnsigned, QuietPattern, ReadInteger;
    var c := ContentOf(dt);
    match c
    case NoData => IsPrefix([], bs, 0);
    case Tristate => IsPrefix([bs[0]], bs, 1);
    case AsIs(shape) => Reencode(shape, bs);
    case List(n, element) =>
      ReencodeList(dt, n, element, bs);
      var clean := LeValue(bs[..n]) == Pow256(n) - 1 || CleanAll(element, LeValue(bs[..n]), bs[n..]);
      assert CleanContent(dt, bs) == clean;
    case Mistyped => ReencodeList(STRING, 2, OCTET, bs);
    case Integer(n, stored, signed) =>
      IntegerReencodes(n, stored, signed, bs[..n]);
      IsPrefix(bs[..n], bs, n);
    case FloatOf(f) =>
      FloatReencodes(f, bs[..f.Width()]);
      SameLength(LeBytes(Encode(f, Decode(f, LeValue(bs[..f.Width()]))), f.Width()), bs, f.Width(),
                 QuietPattern(f, LeValue(bs[..f.Width()])));
    case Missing =>
  }

  lemma {:induction false} ReencodeList(dt: byte, n: nat, element: Shape, bs: seq<byte>)
    requires 1 <= n && DecList(dt, n, element, bs).Got?
    ensures |bs| >= n
    ensures var r := DecList(dt, n, element, bs);
      var clean := LeValue(bs[..n]) == Pow256(n) - 1 || CleanAll(element, LeValue(bs[..n]), bs[n..]);
      && r.value.Variant? && r.value.dt == dt && 1 <= r.used <= 1 + |bs|
      && (r.value.data.None? ==> Reproduces(Some(LeBytes(Pow256(n) - 1, n)), bs, r.used - 1, clean))
      && (r.value.data.Some? ==>
            var v := r.value.data.value;
            && v.Items? && AllHaveShape(element, v.items) && EncAll(element, v.items).Some?
            && Reproduces(Join(Some(LeBytes(|v.items| % Pow256(n), n)), EncAll(element, v.items)), bs, r.used - 1,
              clean))
    decreases |bs|, 2, element, 1
  {
    hide LeBytes, LeValue, Pow256, EncAll, DecAll, AllHaveShape, CleanAll;
    var size := LeValue(bs[..n]);
    LeBytesOfValue(bs[..n]);
    IsPrefix(bs[..n], bs, n);
    if size != Pow256(n) - 1 {
      var all := DecAll(element, size, bs[n..]);
      ReencodeAll(element, size, bs[n..]);
      ModIs(size, Pow256(n), 0, size);
      ReproducesBoth(Some(bs[..n]), EncAll(element, all.value), bs, n, all.used, true,
        CleanAll(element, size, bs[n..]));
    }
  }

  lemma IntegerReencodes(n: nat, stored: nat, signed: bool, bs: seq<byte>)
    requires 1 <= n <= stored && |bs| == n
    ensures var v := ReadInteger(LeValue(bs), stored, signed);
      var raw := if v.Some? then v.value else Invalid(stored, signed);
      && (if signed then InSigned(raw, stored) else InUnsigned(raw, stored))
      && ToUnsigned(raw, stored) >= 0 && LeBytes(ToUnsigned(raw, stored), n) == bs
  {
    hide LeBytes, LeValue;
    HalfOfPow256(stored);
    if n < stored {
      Pow256Wider(n, stored);
    }
    LeBytesOfValue(bs);
    SignedReencodes(LeValue(bs), stored);
  }

  lemma FloatReencodes(f: Format, bs: seq<byte>)
    requires f == SEMI || f == SINGLE || f == DOUBLE
    requires |bs| == f.Width()
    ensures var x := Decode(f, LeValue(bs));
      Encode(f, x) >= 0 && (LeBytes(Encode(f, x), f.Width()) == bs <==> QuietPattern(f, LeValue(bs)))
  {
    hide Pow2, Pow256, LeValue, LeBytes, Encode, Decode, QuietPattern;
    var raw := LeValue(bs);
    Pow256IsPow2(f.Width());
    TwicePow2(f.man + f.exp);
    assert 8 * f.Width() == f.man + f.exp + 1;
    ReproducedIffQuiet(f, raw);
    FloatReading(f, Decode(f, raw));
    LeBytesOfValue(bs);
  }
}
