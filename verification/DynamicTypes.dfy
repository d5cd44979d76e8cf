/**
 Values and types of the schema-driven ZCL codec: JSON values, the schema language, the
 encoding context, and the failures either direction can report.
 */
module DynamicTypes {
  import opened Bytes
  import opened FloatFormat
  import opened DataTypes
  import opened SearchableList

  /** A JSON value. Integers of either signedness are one case, floating values another. */
  datatype Json =
    | Null
    | Bool(b: bool)
    | Num(n: int)
    | Real(value: Float)
    | Str(s: string)
    | Arr(items: seq<Json>)
    | Obj(fields: map<string, Json>)

  datatype Schema =
    | VariantType
    | XiaomiFF01Type
    | DataType(dt: byte)
    | ObjectType(properties: seq<Property>)
    | ArrayType(lengthSize: nat, element: Schema)
    | ErrorOrType(success: Schema)

  datatype Property = Property(name: string, typ: Schema)

  type AttributeInfo = Item<int, string, Option<byte>>

  /** The cluster whose attribute names are in scope, if any. */
  datatype Context = NoCluster | Cluster(attributes: seq<AttributeInfo>) {
    ghost predicate Valid() {
      Cluster? ==> Distinct(attributes) && forall a | a in attributes :: 0 <= a.id < 0x1_0000
    }
  }

  /**
   Thrown: an exception reaches the caller. Undefined: the operation is undefined in C++ (a
   shift by the full width of its operand, or into or past the sign bit). Diverges: the
   decoding loop repeats without making progress.
   */
  datatype Failure = Thrown | Undefined | Diverges

  const FF01 := 0xFF01

  // ----- Which schemas behave -----

  /** Decoding a non-empty input under t, if it succeeds, consumes at least one byte. */
  predicate ConsumesByte(t: Schema) {
    match t
    case VariantType => true
    case XiaomiFF01Type => true
    case DataType(dt) => KindOf(dt) != Empty
    case ObjectType(ps) => SomeConsumes(ps)
    case ArrayType(n, e) => n > 0 || ConsumesByte(e)
    case ErrorOrType(s) => true
  }

  predicate SomeConsumes(ps: seq<Property>) {
    ps != [] && (ConsumesByte(ps[0].typ) || SomeConsumes(ps[1..]))
  }

  /** Every greedy array in t has elements that consume at least one byte. */
  predicate Productive(t: Schema) {
    match t
    case ObjectType(ps) => AllProductive(ps)
    case ArrayType(n, e) => Productive(e) && (n == 0 ==> ConsumesByte(e))
    case ErrorOrType(s) => Productive(s)
    case _ => true
  }

  predicate AllProductive(ps: seq<Property>) {
    ps == [] || (Productive(ps[0].typ) && AllProductive(ps[1..]))
  }

  /** A value of t may end in a greedy array, which takes the rest of the buffer. */
  predicate EndsGreedy(t: Schema) {
    match t
    case ObjectType(ps) => ps != [] && EndsGreedy(ps[|ps| - 1].typ)
    case ArrayType(n, e) => n == 0
    case ErrorOrType(s) => EndsGreedy(s)
    case _ => false
  }

  /** Greedy arrays stand only where nothing follows them, and make progress. */
  predicate TailGreedy(t: Schema) {
    match t
    case ObjectType(ps) => AllTailGreedy(ps)
    case ArrayType(n, e) => TailGreedy(e) && !EndsGreedy(e) && (n == 0 ==> ConsumesByte(e))
    case ErrorOrType(s) => TailGreedy(s)
    case _ => true
  }

  predicate AllTailGreedy(ps: seq<Property>) {
    ps == [] || (TailGreedy(ps[0].typ) && (|ps| > 1 ==> !EndsGreedy(ps[0].typ)) && AllTailGreedy(ps[1..]))
  }

  predicate NoGreedy(t: Schema) {
    match t
    case ObjectType(ps) => NoneGreedy(ps)
    case ArrayType(n, e) => n > 0 && NoGreedy(e)
    case ErrorOrType(s) => NoGreedy(s)
    case _ => true
  }

  predicate NoneGreedy(ps: seq<Property>) {
    ps == [] || (NoGreedy(ps[0].typ) && NoneGreedy(ps[1..]))
  }

  /** Property names are distinct inside every object, and length prefixes are below 8 bytes. */
  predicate Unambiguous(t: Schema) {
    match t
    case ObjectType(ps) => AllUnambiguous(ps)
    case ArrayType(n, e) => n < 8 && Unambiguous(e)
    case ErrorOrType(s) => Unambiguous(s)
    case _ => true
  }

  predicate AllUnambiguous(ps: seq<Property>) {
    ps == [] || (ps[0].name !in Names(ps[1..]) && Unambiguous(ps[0].typ) && AllUnambiguous(ps[1..]))
  }

  function Names(ps: seq<Property>): set<string> {
    if ps == [] then {} else {ps[0].name} + Names(ps[1..])
  }

  // ----- Numbers, bits and characters inside JSON values -----

  function NumsOf(bs: seq<byte>): (items: seq<Json>)
    ensures |items| == |bs|
  {
    if bs == [] then [] else [Num(bs[0])] + NumsOf(bs[1..])
  }

  /** The bits of v, least significant first. */
  function BitsOf(v: nat, n: nat): (items: seq<Json>)
    ensures |items| == n
  {
    if n == 0 then [] else [Bool(v % 2 == 1)] + BitsOf(v / 2, n - 1)
  }

  function CharsOf(bs: seq<byte>): (s: string)
    ensures |s| == |bs|
  {
    if bs == [] then [] else [bs[0] as char] + CharsOf(bs[1..])
  }

  /** The octets of a std::string; a wider character stands for its low octet. */
  function OctetsOf(s: string): (bs: seq<byte>)
    ensures |bs| == |s|
  {
    if s == [] then [] else [s[0] as int % 256] + OctetsOf(s[1..])
  }

  predicate IsOctets(s: string) {
    s == [] || (s[0] as int < 256 && IsOctets(s[1..]))
  }

  lemma {:induction false} OctetsOfChars(bs: seq<byte>)
    ensures OctetsOf(CharsOf(bs)) == bs && IsOctets(CharsOf(bs))
  {
    if bs != [] {
      OctetsOfChars(bs[1..]);
      assert CharsOf(bs)[1..] == CharsOf(bs[1..]);
    }
  }

  lemma {:induction false} CharsOfOctets(s: string)
    requires IsOctets(s)
    ensures CharsOf(OctetsOf(s)) == s
  {
    if s != [] {
      CharsOfOctets(s[1..]);
      assert OctetsOf(s)[1..] == OctetsOf(s[1..]);
    }
  }
}
