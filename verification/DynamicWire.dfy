/**
 The schema-driven codec type code by type code, in numbers: how many bytes each data type
 takes, what they mean, what is accepted and what is written.
 */
module DynamicWire {
  import opened Bytes
  import opened FloatFormat
  import opened DataTypes
  import opened SearchableList
  import opened DynamicTypes
  import opened DynamicSpec
  import opened DynamicLeaves

  /** Types that hold no other values are read and written by their kind. */
  lemma LeafDecodes(cx: Context, dt: byte, k: Kind, bs: seq<byte>, last: Option<int>)
    requires KindOf(dt) == k && !k.Structure? && !k.TypedArray?
    ensures Dec(cx, DataType(dt), bs, last) == DecLeaf(cx, k, bs, last)
  {
    hide DecLeaf, DecItems, DecEntries, DecProperties, DecGreedy, LeValue;
  }

  lemma LeafEncodes(cx: Context, dt: byte, k: Kind, v: Json)
    requires KindOf(dt) == k && !k.Structure? && !k.TypedArray?
    ensures Enc(cx, DataType(dt), v) == EncLeaf(cx, k, v)
  {
    hide EncLeaf, EncItems, EncProperties, EncTyped;
  }

  // ----- Integers -----

  lemma UnsignedDecodes(cx: Context, i: nat, bs: seq<byte>, last: Option<int>)
    requires i < 8
    ensures Dec(cx, DataType(0x20 + i), bs, last)
         == if |bs| <= i then Failed(Thrown) else Got(Num(LeValue(bs[..i + 1])), i + 1, last)
  {
    hide LeValue, Dec;
    assert KindOf(0x20 + i) == Unsigned(i + 1);
    LeafDecodes(cx, 0x20 + i, Unsigned(i + 1), bs, last);
  }

  lemma EnumDecodes(cx: Context, i: nat, bs: seq<byte>, last: Option<int>)
    requires i < 2
    ensures Dec(cx, DataType(0x30 + i), bs, last)
         == if |bs| <= i then Failed(Thrown) else Got(Num(LeValue(bs[..i + 1])), i + 1, last)
  {
    hide LeValue, Dec;
    assert KindOf(0x30 + i) == Unsigned(i + 1);
    LeafDecodes(cx, 0x30 + i, Unsigned(i + 1), bs, last);
  }

  /** Two's complement, the sign in the top bit of the last byte; a negative integer of eight
      bytes is undefined. */
  lemma SignedDecodes(cx: Context, i: nat, bs: seq<byte>, last: Option<int>)
    requires i < 8
    ensures Dec(cx, DataType(0x28 + i), bs, last)
         == if |bs| <= i then Failed(Thrown)
            else if bs[i] < 128 then Got(Num(LeValue(bs[..i + 1])), i + 1, last)
            else if i == 7 then Failed(Undefined)
            else Got(Num(LeValue(bs[..i + 1]) - Pow256(i + 1)), i + 1, last)
  {
    hide LeValue, Pow256, Dec;
    assert KindOf(0x28 + i) == Signed(i + 1);
    if |bs| > i {
      SignBit(bs[..i + 1]);
    }
    LeafDecodes(cx, 0x28 + i, Signed(i + 1), bs, last);
  }

  lemma SignBit(bs: seq<byte>)
    requires bs != []
    ensures LeValue(bs) < Pow256(|bs|) / 2 <==> bs[|bs| - 1] < 128
  {
    hide LeValue;
    var front, b := bs[..|bs| - 1], bs[|bs| - 1];
    assert bs == front + [b];
    LeValueAppend(front, b);
    TopByte(LeValue(bs), LeValue(front), b, Pow256(|front|));
  }

  lemma TopByte(v: nat, low: nat, b: byte, p: nat)
    requires low < p && v == low + b * p
    ensures v < 256 * p / 2 <==> b < 128
  {
    if b < 128 {
      MulMonotone(p, b + 1, 128);
    } else {
      MulMonotone(p, 128, b);
    }
  }

  /** An unsigned integer is accepted exactly when it fits; eight bytes are undefined. */
  lemma UnsignedEncodes(cx: Context, i: nat, v: Json)
    requires i < 7
    ensures Enc(cx, DataType(0x20 + i), v)
         == if v.Num? && 0 <= v.n < Pow256(i + 1) then Ok(LeBytes(v.n, i + 1)) else Err(Thrown)
  {
    hide LeBytes, Pow256, EncodeUnsigned, Enc;
    assert KindOf(0x20 + i) == Unsigned(i + 1);
    NumberEncodes(i + 1, v);
    LeafEncodes(cx, 0x20 + i, Unsigned(i + 1), v);
  }

  lemma EnumEncodes(cx: Context, i: nat, v: Json)
    requires i < 2
    ensures Enc(cx, DataType(0x30 + i), v)
         == if v.Num? && 0 <= v.n < Pow256(i + 1) then Ok(LeBytes(v.n, i + 1)) else Err(Thrown)
  {
    hide LeBytes, Pow256, EncodeUnsigned, Enc;
    assert KindOf(0x30 + i) == Unsigned(i + 1);
    NumberEncodes(i + 1, v);
    LeafEncodes(cx, 0x30 + i, Unsigned(i + 1), v);
  }

  lemma NumberEncodes(n: nat, v: Json)
    requires n < 8
    ensures v.Num? && 0 <= v.n < TWO_64 ==>
      EncodeUnsigned(v.n, n) == if v.n < Pow256(n) then Ok(LeBytes(v.n, n)) else Err(Thrown)
    ensures Pow256(n) < TWO_64
  {
    Pow256Small(n);
    if v.Num? && 0 <= v.n < TWO_64 {
      QuotientIsZero(v.n, Pow256(n));
    }
  }

  lemma LongUnsignedIsUndefined(cx: Context, v: Json)
    ensures Enc(cx, DataType(0x27), v) == Err(if v.Num? && 0 <= v.n < TWO_64 then Undefined else Thrown)
    ensures Enc(cx, DataType(0x2f), v) == Err(if v.Num? && -TWO_63 <= v.n < TWO_63 then Undefined else Thrown)
  {
    hide LeBytes, Pow256, Enc;
    assert KindOf(0x27) == Unsigned(8) && KindOf(0x2f) == Signed(8);
    LeafEncodes(cx, 0x27, Unsigned(8), v);
    LeafEncodes(cx, 0x2f, Signed(8), v);
  }

  /** A signed integer is accepted between -256^n and 256^n. */
  lemma SignedEncodes(cx: Context, i: nat, v: Json)
    requires i < 7
    ensures Enc(cx, DataType(0x28 + i), v)
         == if v.Num? && v.n + Pow256(i + 1) >= 0 && v.n < Pow256(i + 1)
            then Ok(LeBytes(if v.n < 0 then v.n + Pow256(i + 1) else v.n, i + 1)) else Err(Thrown)
  {
    hide LeBytes, Pow256, EncodeSigned, Enc;
    assert KindOf(0x28 + i) == Signed(i + 1);
    Pow256Small(i + 1);
    if v.Num? && -TWO_63 <= v.n < TWO_63 {
      SignedRange(v.n, i + 1);
      SignedThrows(v.n, i + 1);
    }
    LeafEncodes(cx, 0x28 + i, Signed(i + 1), v);
  }

  lemma SignedThrows(v: int, n: nat)
    requires n < 8
    ensures EncodeSigned(v, n).Err? ==> EncodeSigned(v, n) == Err(Thrown)
  {
    hide LeBytes, Pow256;
  }

  // ----- Octets and bits -----

  lemma {:induction false} NumsAt(bs: seq<byte>, j: nat)
    requires j < |bs|
    ensures NumsOf(bs)[j] == Num(bs[j])
  {
    if j > 0 {
      NumsAt(bs[1..], j - 1);
    }
  }

  lemma {:induction false} CharsAt(bs: seq<byte>, j: nat)
    requires j < |bs|
    ensures CharsOf(bs)[j] as int == bs[j]
  {
    if j > 0 {
      CharsAt(bs[1..], j - 1);
    }
  }

  lemma {:induction false} OctetsAt(s: string, j: nat)
    requires j < |s|
    ensures OctetsOf(s)[j] == s[j] as int % 256
  {
    if j > 0 {
      OctetsAt(s[1..], j - 1);
    }
  }

  /** items are the integers of these bytes. */
  ghost predicate AreNumbers(items: seq<Json>, bs: seq<byte>) {
    |items| == |bs| && forall j :: 0 <= j < |items| ==> items[j] == Num(bs[j])
  }

  lemma NumsAreNumbers(bs: seq<byte>)
    ensures AreNumbers(NumsOf(bs), bs)
  {
    forall j | 0 <= j < |bs|
      ensures NumsOf(bs)[j] == Num(bs[j])
    {
      NumsAt(bs, j);
    }
  }

  lemma DataDecodes(cx: Context, i: nat, bs: seq<byte>, last: Option<int>)
    requires i < 8
    ensures var r := Dec(cx, DataType(0x08 + i), bs, last);
      if |bs| <= i then r == Failed(Thrown)
      else r.Got? && r.used == i + 1 && r.last == last && r.value.Arr? && AreNumbers(r.value.items, bs[..i + 1])
  {
    hide NumsOf, AreNumbers, Dec;
    assert KindOf(0x08 + i) == Octets(i + 1);
    if |bs| > i {
      NumsAreNumbers(bs[..i + 1]);
    }
    LeafDecodes(cx, 0x08 + i, Octets(i + 1), bs, last);
  }

  lemma {:induction false} OctetsEncode(items: seq<Json>)
    ensures EncodeOctets(items).Ok? <==> forall j :: 0 <= j < |items| ==> items[j].Num? && 0 <= items[j].n < 256
    ensures EncodeOctets(items).Ok? ==> AreNumbers(items, EncodeOctets(items).bytes)
  {
    if items != [] {
      OctetsEncode(items[1..]);
      assert items == [items[0]] + items[1..];
    }
  }

  /** Exactly arrays of as many octets as the type has are accepted. */
  lemma DataEncodes(cx: Context, i: nat, v: Json)
    requires i < 8
    ensures var r := Enc(cx, DataType(0x08 + i), v);
      && (r.Ok? <==> v.Arr? && |v.items| == i + 1
                     && forall j :: 0 <= j <= i ==> v.items[j].Num? && 0 <= v.items[j].n < 256)
      && (r.Ok? ==> AreNumbers(v.items, r.bytes))
  {
    hide EncodeOctets, AreNumbers, Enc;
    assert KindOf(0x08 + i) == Octets(i + 1);
    if v.Arr? {
      OctetsEncode(v.items);
    }
    LeafEncodes(cx, 0x08 + i, Octets(i + 1), v);
  }

  /** items are the first bits of v, least significant first. */
  ghost predicate AreBits(items: seq<Json>, v: nat) {
    forall j :: 0 <= j < |items| ==> items[j] == Bool(v / Pow2(j) % 2 == 1)
  }

  lemma BitsAreBits(v: nat, n: nat)
    ensures AreBits(BitsOf(v, n), v)
  {
    forall j | 0 <= j < n
      ensures BitsOf(v, n)[j] == Bool(v / Pow2(j) % 2 == 1)
    {
      BitsAt(v, n, j);
    }
  }

  lemma BitmapDecodes(cx: Context, i: nat, bs: seq<byte>, last: Option<int>)
    requires i < 8
    ensures var r := Dec(cx, DataType(0x18 + i), bs, last);
      if |bs| <= i then r == Failed(Thrown)
      else
        && r.Got? && r.used == i + 1 && r.last == last
        && r.value.Arr? && |r.value.items| == 8 * (i + 1) && AreBits(r.value.items, LeValue(bs[..i + 1]))
  {
    hide BitsOf, LeValue, AreBits, Dec;
    assert KindOf(0x18 + i) == Bitmap(i + 1);
    if |bs| > i {
      BitsAreBits(LeValue(bs[..i + 1]), 8 * (i + 1));
    }
    LeafDecodes(cx, 0x18 + i, Bitmap(i + 1), bs, last);
  }

  /** Exactly arrays of as many Booleans as the type has bits are accepted, with none true from
      31 up and in less than eight bytes. */
  lemma BitmapEncodes(cx: Context, i: nat, v: Json)
    requires i < 8
    ensures var r := Enc(cx, DataType(0x18 + i), v);
      && (r.Ok? <==> i < 7 && v.Arr? && |v.items| == 8 * (i + 1)
                     && forall j :: 0 <= j < |v.items| ==> v.items[j].Bool? && (v.items[j].b ==> j < 31))
      && (r.Ok? ==> |r.bytes| == i + 1 && AreBits(v.items, LeValue(r.bytes)))
  {
    hide BitsOf, LeValue, AreBits, EncodeBitmap, Enc;
    assert KindOf(0x18 + i) == Bitmap(i + 1);
    if v.Arr? {
      BitmapRoundTrip(v.items, i + 1);
      if EncodeBitmap(v.items, i + 1).Ok? {
        BitsAreBits(LeValue(EncodeBitmap(v.items, i + 1).bytes), 8 * (i + 1));
      }
    }
    LeafEncodes(cx, 0x18 + i, Bitmap(i + 1), v);
  }

  // ----- No data, Booleans, floats -----

  lemma EmptyTypes(cx: Context, dt: byte, bs: seq<byte>, v: Json, last: Option<int>)
    requires dt == 0x00 || dt == 0xff
    ensures Dec(cx, DataType(dt), bs, last) == Got(Null, 0, last)
    ensures Enc(cx, DataType(dt), v) == if v.Null? then Ok([]) else Err(Thrown)
  {
    hide Dec, Enc;
    assert KindOf(dt) == Empty;
    LeafDecodes(cx, dt, Empty, bs, last);
    LeafEncodes(cx, dt, Empty, v);
  }

  lemma Booleans(cx: Context, bs: seq<byte>, v: Json, last: Option<int>)
    ensures Dec(cx, DataType(0x10), bs, last)
         == if bs == [] then Failed(Thrown) else Got(if bs[0] == 0xFF then Null else Bool(bs[0] != 0), 1, last)
    ensures Enc(cx, DataType(0x10), v)
         == if v.Null? then Ok([0xFF]) else if v.Bool? then Ok([if v.b then 1 else 0]) else Err(Thrown)
  {
    hide Dec, Enc;
    assert KindOf(0x10) == Boolean;
    LeafDecodes(cx, 0x10, Boolean, bs, last);
    LeafEncodes(cx, 0x10, Boolean, v);
  }

  /** Half, single and double precision: two, four and eight bytes. */
  lemma FloatsDecode(cx: Context, bs: seq<byte>, last: Option<int>)
    ensures Dec(cx, DataType(0x38), bs, last)
         == if |bs| < 2 then Failed(Thrown) else Got(Real(Decode(Format(10, 5), LeValue(bs[..2]))), 2, last)
    ensures Dec(cx, DataType(0x39), bs, last)
         == if |bs| < 4 then Failed(Thrown) else Got(Real(Decode(Format(23, 8), LeValue(bs[..4]))), 4, last)
    ensures Dec(cx, DataType(0x3a), bs, last)
         == if |bs| < 8 then Failed(Thrown) else Got(Real(Decode(Format(52, 11), LeValue(bs[..8]))), 8, last)
  {
    hide Dec, Decode, LeValue;
    FloatDecodes(cx, 0x38, Format(10, 5), 2, bs, last);
    FloatDecodes(cx, 0x39, Format(23, 8), 4, bs, last);
    FloatDecodes(cx, 0x3a, Format(52, 11), 8, bs, last);
  }

  lemma FloatDecodes(cx: Context, dt: byte, f: Format, width: nat, bs: seq<byte>, last: Option<int>)
    requires KindOf(dt) == Floating(f) && f.Valid() && f.Width() == width
    ensures Dec(cx, DataType(dt), bs, last)
         == if |bs| < width then Failed(Thrown) else Got(Real(Decode(f, LeValue(bs[..width]))), width, last)
  {
    hide Dec, Decode, LeValue, KindOf;
    LeafDecodes(cx, dt, Floating(f), bs, last);
  }

  /** Integers are encoded as the floats they are; anything else but a number is refused. */
  lemma FloatsEncode(cx: Context, v: Json)
    ensures Enc(cx, DataType(0x38), v) == FloatEncoding(Format(10, 5), 2, v)
    ensures Enc(cx, DataType(0x39), v) == FloatEncoding(Format(23, 8), 4, v)
    ensures Enc(cx, DataType(0x3a), v) == FloatEncoding(Format(52, 11), 8, v)
  {
    hide LeBytes, Encode, Enc;
    assert KindOf(0x38) == Floating(Format(10, 5)) && KindOf(0x39) == Floating(Format(23, 8));
    assert KindOf(0x3a) == Floating(Format(52, 11));
    LeafEncodes(cx, 0x38, Floating(Format(10, 5)), v);
    LeafEncodes(cx, 0x39, Floating(Format(23, 8)), v);
    LeafEncodes(cx, 0x3a, Floating(Format(52, 11)), v);
  }

  function FloatEncoding(f: Format, width: nat, v: Json): Encoded
    requires f.Valid()
  {
    match v
    case Real(x) =>
      EncodeFits(f, x);
      Ok(LeBytes(Encode(f, x), width))
    case Num(n) =>
      var x := Finite(n < 0, if n < 0 then -(n as real) else n as real);
      EncodeFits(f, x);
      Ok(LeBytes(Encode(f, x), width))
    case _ => Err(Thrown)
  }

  // ----- Strings -----

  /** What a run of octets behind n bytes of length looks like: nothing for the all-ones
      length, and as many octets as it says otherwise. */
  ghost predicate IsRun(r: Decoded<Json>, bs: seq<byte>, n: nat, ones: nat, last: Option<int>, text: bool) {
    if |bs| < n then r == Failed(Thrown)
    else if LeValue(bs[..n]) == ones then r == Got(Null, n, last)
    else if |bs| < n + LeValue(bs[..n]) then r == Failed(Thrown)
    else
      var k := LeValue(bs[..n]);
      && r.Got? && r.used == n + k && r.last == last
      && (if text then r.value.Str? && |r.value.s| == k && forall j :: 0 <= j < k ==> r.value.s[j] as int == bs[n + j]
          else r.value.Arr? && AreNumbers(r.value.items, bs[n..n + k]))
  }

  lemma StringsDecode(cx: Context, bs: seq<byte>, last: Option<int>)
    ensures IsRun(Dec(cx, DataType(0x41), bs, last), bs, 1, 0xFF, last, false)
    ensures IsRun(Dec(cx, DataType(0x42), bs, last), bs, 1, 0xFF, last, true)
    ensures IsRun(Dec(cx, DataType(0x43), bs, last), bs, 2, 0xFFFF, last, false)
    ensures IsRun(Dec(cx, DataType(0x44), bs, last), bs, 2, 0xFFFF, last, true)
  {
    hide IsRun;
    RunDecodes(cx, 0x41, 1, 0xFF, false, bs, last);
    RunDecodes(cx, 0x42, 1, 0xFF, true, bs, last);
    RunDecodes(cx, 0x43, 2, 0xFFFF, false, bs, last);
    RunDecodes(cx, 0x44, 2, 0xFFFF, true, bs, last);
  }

  lemma RunDecodes(cx: Context, dt: byte, n: nat, ones: nat, text: bool, bs: seq<byte>, last: Option<int>)
    requires (dt, n, ones, text) in {(0x41, 1, 0xFF, false), (0x42, 1, 0xFF, true),
                                     (0x43, 2, 0xFFFF, false), (0x44, 2, 0xFFFF, true)}
    ensures IsRun(Dec(cx, DataType(dt), bs, last), bs, n, ones, last, text)
  {
    hide LeValue, Pow256, NumsOf, CharsOf, Dec;
    Pow256Small(n);
    assert KindOf(dt) == if text then CharString(n) else OctetString(n);
    if |bs| >= n && LeValue(bs[..n]) <= |bs| - n {
      var body := bs[n..n + LeValue(bs[..n])];
      NumsAreNumbers(body);
      forall j | 0 <= j < |body|
        ensures CharsOf(body)[j] as int == bs[n + j]
      {
        CharsAt(body, j);
      }
    }
    LeafDecodes(cx, dt, if text then CharString(n) else OctetString(n), bs, last);
  }

  /** The length, then the octets; the all-ones length for null. A longer value is refused, one
      as long as the all-ones length is not. */
  ghost predicate IsRunOf(r: Encoded, v: Json, n: nat, ones: nat, text: bool) {
    if v.Null? then r == Ok(LeBytes(ones, n))
    else if text then
      if !v.Str? || |v.s| > ones then r == Err(Thrown)
      else
        && r.Ok? && |r.bytes| == n + |v.s| && r.bytes[..n] == LeBytes(|v.s|, n)
        && forall j :: 0 <= j < |v.s| ==> r.bytes[n + j] == v.s[j] as int % 256
    else
      && (r.Ok? <==> v.Arr? && |v.items| <= ones
                     && forall j :: 0 <= j < |v.items| ==> v.items[j].Num? && 0 <= v.items[j].n < 256)
      && (r.Ok? ==> |r.bytes| == n + |v.items| && r.bytes[..n] == LeBytes(|v.items|, n)
                    && AreNumbers(v.items, r.bytes[n..]))
  }

  lemma StringsEncode(cx: Context, v: Json)
    ensures IsRunOf(Enc(cx, DataType(0x41), v), v, 1, 0xFF, false)
    ensures IsRunOf(Enc(cx, DataType(0x42), v), v, 1, 0xFF, true)
    ensures IsRunOf(Enc(cx, DataType(0x43), v), v, 2, 0xFFFF, false)
    ensures IsRunOf(Enc(cx, DataType(0x44), v), v, 2, 0xFFFF, true)
  {
    hide IsRunOf, Enc;
    RunEncodes(cx, 0x41, 1, 0xFF, false, v);
    RunEncodes(cx, 0x42, 1, 0xFF, true, v);
    RunEncodes(cx, 0x43, 2, 0xFFFF, false, v);
    RunEncodes(cx, 0x44, 2, 0xFFFF, true, v);
  }

  lemma RunEncodes(cx: Context, dt: byte, n: nat, ones: nat, text: bool, v: Json)
    requires (dt, n, ones, text) in {(0x41, 1, 0xFF, false), (0x42, 1, 0xFF, true),
                                     (0x43, 2, 0xFFFF, false), (0x44, 2, 0xFFFF, true)}
    ensures IsRunOf(Enc(cx, DataType(dt), v), v, n, ones, text)
  {
    hide LeBytes, Pow256, OctetsOf, EncodeOctets, EncodeUnsigned, AreNumbers, Enc;
    Pow256Small(n);
    assert KindOf(dt) == if text then CharString(n) else OctetString(n);
    if v.Str? {
      NumberEncodes(n, Num(|v.s|));
      LengthIsUnsigned(|v.s|, n);
      forall j | 0 <= j < |v.s|
        ensures OctetsOf(v.s)[j] == v.s[j] as int % 256
      {
        OctetsAt(v.s, j);
      }
    } else if v.Arr? {
      LengthIsUnsigned(|v.items|, n);
      OctetsEncode(v.items);
    }
    LeafEncodes(cx, dt, if text then CharString(n) else OctetString(n), v);
  }

  /** A length that does not fit is refused, however long. */
  lemma LengthIsUnsigned(size: nat, n: nat)
    requires n < 8
    ensures EncodeUnsigned(size, n) == if size < Pow256(n) then Ok(LeBytes(size, n)) else Err(Thrown)
  {
    QuotientIsZero(size, Pow256(n));
  }

  // ----- Structures, typed arrays, attribute ids -----

  /** A count in two bytes, all ones for null, and as many variants. */
  lemma StructuresDecode(cx: Context, bs: seq<byte>, last: Option<int>)
    ensures Dec(cx, DataType(0x4c), bs, last)
         == if |bs| < 2 then Failed(Thrown)
            else if LeValue(bs[..2]) == 0xFFFF then Got(Null, 2, last)
            else
              var r := DecItems(cx, VariantType, LeValue(bs[..2]), bs[2..], last);
              if r.Failed? then Failed(r.why) else Got(Arr(r.value), 2 + r.used, r.last)
  {
    hide LeValue, DecItems;
    assert KindOf(0x4c) == Structure;
  }

  /** The array, set and bag types: a type code, a count in two bytes, and as many values. */
  lemma TypedArraysDecode(cx: Context, dt: byte, bs: seq<byte>, last: Option<int>)
    requires dt in {0x48, 0x50, 0x51}
    ensures Dec(cx, DataType(dt), bs, last)
         == if |bs| < 3 then Failed(Thrown)
            else if LeValue(bs[1..3]) == 0xFFFF then
              Got(Obj(map["element_type" := Str(TypeName(bs[0])), "elements" := Null]), 3, last)
            else
              var r := DecItems(cx, DataType(bs[0]), LeValue(bs[1..3]), bs[3..], last);
              if r.Failed? then Failed(r.why)
              else
                Got(Obj(map["element_type" := Str(TypeName(bs[0])), "elements" := Arr(r.value)]), 3 + r.used, r.last)
  {
    hide LeValue, DecItems, TypeName;
    assert KindOf(dt) == TypedArray;
  }

  /** An attribute id in two bytes, given by its name if the cluster has one for it, and
      remembered. */
  lemma AttributeIdsDecode(cx: Context, bs: seq<byte>, last: Option<int>)
    requires cx.Valid()
    ensures var r := Dec(cx, DataType(0xe9), bs, last);
      if |bs| < 2 then r == Failed(Thrown)
      else
        var id := LeValue(bs[..2]);
        && r.Got? && r.used == 2 && r.last == Some(id)
        && (forall a | cx.Cluster? && a in cx.attributes && a.id == id :: r.value == Str(a.name))
        && (cx.NoCluster? || (forall a | a in cx.attributes :: a.id != id) ==> r.value == Num(id))
  {
    hide LeValue, Dec;
    assert KindOf(0xe9) == AttributeId;
    if |bs| >= 2 && cx.Cluster? {
      forall a | a in cx.attributes && a.id == LeValue(bs[..2])
        ensures SearchId(cx.attributes, a.id) == Some(a)
      {
        LookupsAreInverse(cx.attributes, a);
      }
    }
    LeafDecodes(cx, 0xe9, AttributeId, bs, last);
  }

  /** Null, names of the cluster's attributes, and numbers of two bytes are accepted. */
  lemma AttributeIdsEncode(cx: Context, v: Json)
    requires cx.Valid()
    ensures var r := Enc(cx, DataType(0xe9), v);
      && (v.Null? ==> r == Ok([0xFF, 0xFF]))
      && (v.Num? ==> r == if 0 <= v.n < 0x1_0000 then Ok(LeBytes(v.n, 2)) else Err(Thrown))
      && (v.Str? ==>
            && (forall a | cx.Cluster? && a in cx.attributes && a.name == v.s :: r == Ok(LeBytes(a.id, 2)))
            && (cx.NoCluster? || (forall a | a in cx.attributes :: a.name != v.s) ==> r == Err(Thrown)))
      && (!v.Null? && !v.Num? && !v.Str? ==> r == Err(Thrown))
  {
    hide LeBytes, Pow256, EncodeUnsigned, Enc;
    assert KindOf(0xe9) == AttributeId;
    LeafEncodes(cx, 0xe9, AttributeId, v);
    Pow256Small(2);
    match v
    case Num(n) =>
      if n >= 0 {
        LengthIsUnsigned(n, 2);
      }
    case Str(name) =>
      if cx.Cluster? {
        forall a | a in cx.attributes && a.name == name
          ensures SearchName(cx.attributes, name) == Some(a)
        {
          LookupsAreInverse(cx.attributes, a);
        }
      }
    case _ =>
  }

  /** The type codes something can be done with. */
  predicate Supported(dt: byte) {
    || dt == 0x00 || 0x08 <= dt <= 0x10 || 0x18 <= dt <= 0x31 || 0x38 <= dt <= 0x3a
    || 0x41 <= dt <= 0x44 || dt == 0x48 || dt == 0x4c || dt == 0x50 || dt == 0x51 || dt == 0xe9 || dt == 0xff
  }

  lemma OtherTypesFail(cx: Context, dt: byte, bs: seq<byte>, v: Json, last: Option<int>)
    requires !Supported(dt)
    ensures Dec(cx, DataType(dt), bs, last) == Failed(Thrown)
    ensures Enc(cx, DataType(dt), v) == Err(Thrown)
  {
    hide Dec, Enc;
    assert KindOf(dt) == Unsupported;
    LeafDecodes(cx, dt, Unsupported, bs, last);
    LeafEncodes(cx, dt, Unsupported, v);
  }

  /** A count in two bytes and as many values, or the all-ones count for null. */
  function Counted(cx: Context, t: Schema, v: Json): Encoded {
    if v.Null? then Ok([0xFF, 0xFF])
    else if !v.Arr? || |v.items| >= 0x1_0000 then Err(Thrown)
    else Ok(LeBytes(|v.items|, 2)).Then(EncItems(cx, t, v.items))
  }

  /** A structure's count and its variants, or the all-ones count for null. */
  lemma StructuresEncode(cx: Context, v: Json)
    ensures Enc(cx, DataType(0x4c), v) == Counted(cx, VariantType, v)
  {
    hide LeBytes, Pow256, EncodeUnsigned, EncItems;
    assert KindOf(0x4c) == Structure;
    Pow256Small(2);
    if v.Arr? {
      LengthIsUnsigned(|v.items|, 2);
    }
  }

  /** An element type's name, and elements or null; absent elements are null. */
  lemma TypedArraysEncode(cx: Context, dt: byte, m: map<string, Json>, code: byte)
    requires dt in {0x48, 0x50, 0x51}
    requires "element_type" in m && m["element_type"] == Str(TypeName(code))
    ensures Enc(cx, DataType(dt), Obj(m))
         == Ok([code]).Then(Counted(cx, DataType(code), if "elements" in m then m["elements"] else Null))
  {
    hide LeBytes, Pow256, EncodeUnsigned, EncItems, TypeName, TypeOfName;
    assert KindOf(dt) == TypedArray;
    TypeNameRoundTrip(code);
    Pow256Small(2);
    var v := if "elements" in m then m["elements"] else Null;
    if v.Arr? {
      LengthIsUnsigned(|v.items|, 2);
    } else if v.Null? {
      assert [code] + [0xFF, 0xFF] == [code, 0xFF, 0xFF];
    }
  }

  // ----- Variants, error-or values, objects -----

  /** A type code and a value of that type, as an object with the type's name; but a character
      string while FF01 is the attribute id read last is a Xiaomi block. */
  lemma VariantsDecode(cx: Context, bs: seq<byte>, last: Option<int>)
    ensures Dec(cx, VariantType, bs, last)
         == if bs == [] then Failed(Thrown)
            else
              var block := bs[0] == 0x42 && last == Some(0xFF01);
              var r := Dec(cx, if block then XiaomiFF01Type else DataType(bs[0]), bs[1..], last);
              if r.Failed? then Failed(r.why)
              else
                Got(if block then r.value else Obj(map["type" := Str(TypeName(bs[0])), "value" := r.value]),
                    1 + r.used, r.last)
  {
    hide DecItems, DecProperties, DecGreedy, DecEntries, DecLeaf, KindOf, TypeName;
  }

  /** Null is the type code of no data; an object gives a type's name and a value, null if it
      gives none. */
  lemma VariantsEncode(cx: Context, v: Json, code: byte)
    ensures v.Null? ==> Enc(cx, VariantType, v) == Ok([0x00])
    ensures v.Obj? && "type" in v.fields && v.fields["type"] == Str(TypeName(code)) ==>
      Enc(cx, VariantType, v)
      == Ok([code]).Then(Enc(cx, DataType(code), if "value" in v.fields then v.fields["value"] else Null))
    ensures !v.Null? && (!v.Obj? || "type" !in v.fields || !v.fields["type"].Str?) ==>
      Enc(cx, VariantType, v) == Err(Thrown)
  {
    hide TypeName, TypeOfName, EncLeaf, EncItems, EncProperties, EncTyped, KindOf;
    TypeNameRoundTrip(code);
    NullEncodes(cx, DataType(code));
  }

  lemma NullEncodes(cx: Context, t: Schema)
    ensures Enc(cx, t, Null) == EncNull(cx, t)
  {
  }

  /** Status 0 and the value, or another status alone. */
  lemma ErrorOrsDecode(cx: Context, s: Schema, bs: seq<byte>, last: Option<int>)
    ensures Dec(cx, ErrorOrType(s), bs, last)
         == if bs == [] then Failed(Thrown)
            else if bs[0] != 0 then Got(Obj(map["error" := Num(bs[0])]), 1, last)
            else
              var r := Dec(cx, s, bs[1..], last);
              if r.Failed? then Failed(r.why) else Got(Obj(map["success" := r.value]), 1 + r.used, r.last)
  {
    hide DecItems, DecProperties, DecGreedy, DecEntries, DecLeaf, KindOf;
  }

  function FieldOf(m: map<string, Json>, name: string): Json {
    if name in m then m[name] else Null
  }

  /** The status is cut to 32 bits and must then fit a byte; a status that is not 0 goes alone. */
  lemma ErrorOrsEncode(cx: Context, s: Schema, m: map<string, Json>)
    ensures var error, success := FieldOf(m, "error"), FieldOf(m, "success");
      var status := if error.Num? then error.n % 0x1_0000_0000 else 0;
      Enc(cx, ErrorOrType(s), Obj(m))
      == if !error.Null? && (!error.Num? || error.n < 0) then Err(Thrown)
         else if status == 0 then Ok([0]).Then(Enc(cx, s, success))
         else if status > 255 || !success.Null? then Err(Thrown)
         else Ok([status])
  {
    hide EncLeaf, EncItems, EncProperties, EncTyped, KindOf, EncodeUnsigned;
    NullEncodes(cx, s);
    var error := FieldOf(m, "error");
    if error.Num? && error.n >= 0 {
      OneByteLength(error.n % 0x1_0000_0000);
    } else {
      OneByteLength(0);
    }
  }

  lemma OneByteLength(n: nat)
    ensures EncodeUnsigned(n, 1) == if n < 256 then Ok([n]) else Err(Thrown)
  {
    LengthIsUnsigned(n, 1);
    Pow256Small(1);
    if n < 256 {
      ModIs(n, 256, 0, n);
      assert LeBytes(n / 256, 0) == [];
    }
  }

  /** A member that an object does not have is encoded as null. */
  lemma MissingIsNull(cx: Context, ps: seq<Property>, m: map<string, Json>, name: string)
    requires name !in m
    ensures Enc(cx, ObjectType(ps), Obj(m)) == Enc(cx, ObjectType(ps), Obj(m[name := Null]))
  {
    MissingMembers(cx, ps, m, name);
  }

  lemma {:induction false} MissingMembers(cx: Context, ps: seq<Property>, m: map<string, Json>, name: string)
    requires name !in m
    ensures EncProperties(cx, ps, Obj(m)) == EncProperties(cx, ps, Obj(m[name := Null]))
    decreases |ps|
  {
    hide Enc, EncNull;
    if ps != [] {
      MissingMembers(cx, ps[1..], m, name);
      NullEncodes(cx, ps[0].typ);
    }
  }

  /** A count in as many bytes as the type says, or none at all, and the elements. */
  lemma ArraysEncode(cx: Context, n: nat, e: Schema, items: seq<Json>)
    ensures Enc(cx, ArrayType(n, e), Arr(items))
         == if n == 0 then EncItems(cx, e, items)
            else if n >= 8 then Err(Undefined)
            else if |items| >= Pow256(n) then Err(Thrown)
            else Ok(LeBytes(|items|, n)).Then(EncItems(cx, e, items))
  {
    hide LeBytes, Pow256, EncItems, EncodeUnsigned;
    if n == 0 {
      var r := EncItems(cx, e, items);
      assert r.Ok? ==> [] + r.bytes == r.bytes;
    } else if n < 8 {
      LengthIsUnsigned(|items|, n);
    } else {
      WideIsUndefined(|items|, n);
    }
  }

  lemma WideIsUndefined(size: nat, n: nat)
    requires n >= 8
    ensures EncodeUnsigned(size, n) == Err(Undefined)
  {
  }

  lemma ArraysDecode(cx: Context, n: nat, e: Schema, bs: seq<byte>, last: Option<int>)
    requires n > 0
    ensures Dec(cx, ArrayType(n, e), bs, last)
         == if |bs| < n then Failed(Thrown)
            else
              var r := DecItems(cx, e, LeValue(bs[..n]), bs[n..], last);
              if r.Failed? then Failed(r.why) else Got(Arr(r.value), n + r.used, r.last)
  {
    hide LeValue, DecItems;
  }

  /** Values of another kind than the type's are refused, null among them, except by an object
      without properties. */
  lemma WrongKindsThrow(cx: Context, v: Json, n: nat, e: Schema, ps: seq<Property>, dt: byte)
    ensures Enc(cx, XiaomiFF01Type, v) == Err(Thrown)
    ensures !v.Arr? ==> Enc(cx, ArrayType(n, e), v) == Err(Thrown)
    ensures !v.Obj? ==> Enc(cx, ErrorOrType(e), v) == Err(Thrown)
    ensures !v.Obj? ==> Enc(cx, ObjectType(ps), v) == if v.Null? && ps == [] then Ok([]) else Err(Thrown)
    ensures dt in {0x48, 0x50, 0x51} && (!v.Obj? || !FieldOf(v.fields, "element_type").Str?) ==>
      Enc(cx, DataType(dt), v) == Err(Thrown)
  {
    hide EncItems, EncProperties;
  }

  // ----- Xiaomi blocks -----

  /** The key bytes and variants of a block up to its end, in order. */
  function Entries(cx: Context, bs: seq<byte>, last: Option<int>): Decoded<seq<(byte, Json)>>
    decreases |bs|
  {
    if bs == [] then Got([], 0, last)
    else
      var r := Dec(cx, VariantType, bs[1..], last);
      if r.Failed? then Failed(r.why)
      else
        var rest := Entries(cx, bs[1 + r.used..], r.last);
        if rest.Failed? then rest else Got([(bs[0], r.value)] + rest.value, 1 + r.used + rest.used, rest.last)
  }

  /** A key as text: its decimal digits without leading zeros. */
  function KeyText(k: byte): string {
    if k < 10 then [Digit(k)]
    else if k < 100 then [Digit(k / 10), Digit(k % 10)]
    else [Digit(k / 100), Digit(k / 10 % 10), Digit(k % 10)]
  }

  function Digit(d: nat): char
    requires d < 10
  {
    "0123456789"[d]
  }

  lemma DecimalIsKeyText(k: byte)
    ensures Decimal(k) == KeyText(k)
  {
    if k >= 10 {
      assert Decimal(k) == Decimal(k / 10) + [Digit(k % 10)];
      if k >= 100 {
        assert k / 10 / 10 == k / 100;
        assert Decimal(k / 10) == Decimal(k / 100) + [Digit(k / 10 % 10)];
      }
    }
  }

  /** What three digits stand for, read from the right. */
  function ValueOf(s: string): nat {
    if s == [] then 0 else 10 * ValueOf(s[..|s| - 1]) + DigitValue(s[|s| - 1])
  }

  function DigitValue(c: char): nat {
    if '0' <= c <= '9' then c as nat - '0' as nat else 0
  }

  lemma DigitIsItsValue(d: nat)
    requires d < 10
    ensures DigitValue(Digit(d)) == d
  {
  }

  lemma KeyTextStandsForKey(k: byte)
    ensures ValueOf(KeyText(k)) == k
  {
    hide Digit, DigitValue;
    DigitIsItsValue(k % 10);
    var s := KeyText(k);
    assert ValueOf([]) == 0;
    if k < 10 {
      DigitIsItsValue(k);
      assert s[..0] == [];
    } else if k < 100 {
      DigitIsItsValue(k / 10);
      assert s[..1] == [Digit(k / 10)] && s[..1][..0] == [];
      assert ValueOf(s[..1]) == k / 10;
    } else {
      DigitIsItsValue(k / 100);
      DigitIsItsValue(k / 10 % 10);
      assert s[..2] == [Digit(k / 100), Digit(k / 10 % 10)] && s[..2][..1] == [Digit(k / 100)] && s[..1][..0] == [];
      assert ValueOf([Digit(k / 100)]) == k / 100;
      assert ValueOf(s[..2]) == k / 10;
    }
  }

  lemma KeyTextsDiffer(a: byte, b: byte)
    requires KeyText(a) == KeyText(b)
    ensures a == b
  {
    hide KeyText, ValueOf;
    KeyTextStandsForKey(a);
    KeyTextStandsForKey(b);
  }

  /** The entries under their keys as text; of entries with one key the last one. */
  function LastWins(entries: seq<(byte, Json)>): map<string, Json> {
    if entries == [] then map[] else map[KeyText(entries[0].0) := entries[0].1] + LastWins(entries[1..])
  }

  lemma {:induction false} LastWinsNames(entries: seq<(byte, Json)>, k: byte)
    ensures KeyText(k) in LastWins(entries) <==> exists i :: 0 <= i < |entries| && entries[i].0 == k
  {
    hide KeyText;
    if entries != [] {
      LastWinsNames(entries[1..], k);
      assert entries == [entries[0]] + entries[1..];
      if KeyText(k) == KeyText(entries[0].0) {
        KeyTextsDiffer(k, entries[0].0);
      }
    }
  }

  lemma {:induction false} LastWinsAt(entries: seq<(byte, Json)>, i: nat)
    requires i < |entries| && forall j :: i < j < |entries| ==> entries[j].0 != entries[i].0
    ensures KeyText(entries[i].0) in LastWins(entries) && LastWins(entries)[KeyText(entries[i].0)] == entries[i].1
  {
    hide KeyText;
    if i == 0 {
      LastWinsNames(entries[1..], entries[0].0);
    } else {
      LastWinsAt(entries[1..], i - 1);
    }
  }

  lemma {:induction false} BlockEntries(cx: Context, bs: seq<byte>, last: Option<int>)
    ensures var r, x := DecEntries(cx, bs, last), Entries(cx, bs, last);
      r == if x.Failed? then Failed(x.why) else Got(LastWins(x.value), x.used, x.last)
    ensures Entries(cx, bs, last).Got? ==> Entries(cx, bs, last).used == |bs|
    decreases |bs|
  {
    hide Dec, KeyText, DecEntries, Entries, LastWins;
    if bs == [] {
      NoEntries(cx, last);
      LastWinsNothing();
    } else {
      var v := Dec(cx, VariantType, bs[1..], last);
      var tail := if v.Got? then bs[1 + v.used..] else [];
      var l := if v.Got? then v.last else None;
      var block, rest := DecEntries(cx, tail, l), Entries(cx, tail, l);
      BlockStep(cx, bs, last, v, block);
      EntriesStep(cx, bs, last, v, rest);
      if v.Got? {
        BlockEntries(cx, tail, l);
        if rest.Got? {
          LastWinsStep(bs[0], v.value, rest.value);
        }
      }
    }
  }

  lemma LastWinsNothing()
    ensures LastWins([]) == map[]
  {
  }

  lemma LastWinsStep(k: byte, v: Json, rest: seq<(byte, Json)>)
    ensures LastWins([(k, v)] + rest) == map[KeyText(k) := v] + LastWins(rest)
  {
    assert ([(k, v)] + rest)[1..] == rest;
  }

  /** The outcome of one more entry in front of the others. */
  function EntryThen(k: byte, v: Decoded<Json>, rest: Decoded<seq<(byte, Json)>>): Decoded<seq<(byte, Json)>> {
    if v.Failed? then Failed(v.why)
    else if rest.Failed? then Failed(rest.why)
    else Got([(k, v.value)] + rest.value, 1 + v.used + rest.used, rest.last)
  }

  lemma EntriesStep(cx: Context, bs: seq<byte>, last: Option<int>, v: Decoded<Json>, rest: Decoded<seq<(byte, Json)>>)
    requires bs != [] && v == Dec(cx, VariantType, bs[1..], last)
    requires v.Got? ==> rest == Entries(cx, bs[1 + v.used..], v.last)
    ensures Entries(cx, bs, last) == EntryThen(bs[0], v, rest)
  {
    hide Dec;
  }

  function BlockThen(k: byte, v: Decoded<Json>, rest: Decoded<map<string, Json>>): Decoded<map<string, Json>> {
    if v.Failed? then Failed(v.why)
    else if rest.Failed? then Failed(rest.why)
    else Got(map[KeyText(k) := v.value] + rest.value, 1 + v.used + rest.used, rest.last)
  }

  lemma BlockStep(cx: Context, bs: seq<byte>, last: Option<int>, v: Decoded<Json>, rest: Decoded<map<string, Json>>)
    requires bs != [] && v == Dec(cx, VariantType, bs[1..], last)
    requires v.Got? ==> rest == DecEntries(cx, bs[1 + v.used..], v.last)
    ensures DecEntries(cx, bs, last) == BlockThen(bs[0], v, rest)
  {
    hide Dec, KeyText, Decimal;
    DecimalIsKeyText(bs[0]);
  }

  lemma NoEntries(cx: Context, last: Option<int>)
    ensures Entries(cx, [], last) == Got([], 0, last)
    ensures DecEntries(cx, [], last) == Got(map[], 0, last)
  {
  }

  /** A length byte, and that many bytes, or all there are, of keys and variants, read with no
      attribute id remembered. */
  lemma BlocksDecode(cx: Context, bs: seq<byte>, last: Option<int>)
    ensures var r := Dec(cx, XiaomiFF01Type, bs, last);
      if bs == [] then r == Failed(Thrown)
      else
        var end := if 1 + bs[0] <= |bs| then 1 + bs[0] else |bs|;
        var x := Entries(cx, bs[1..end], None);
        if x.Failed? then r == Failed(x.why)
        else
          r == Got(Obj(map["type" := Str("xiaomi_ff01"), "value" := Obj(LastWins(x.value))]), end, x.last)
  {
    hide DecEntries, Entries, LastWins;
    if bs != [] {
      var end := if 1 + bs[0] <= |bs| then 1 + bs[0] else |bs|;
      BlockEntries(cx, bs[1..end], None);
    }
  }

  // ----- Names -----

  /** The widths in the names of the numbered families. */
  function WidthName(i: nat): string
    requires i < 8
  {
    ["8", "16", "24", "32", "40", "48", "56", "64"][i]
  }

  lemma FamilyNames(i: nat)
    requires i < 8
    ensures i != 5 ==> TypeName(0x08 + i) == "data" + WidthName(i)
    ensures TypeName(0x0d) == "0D"
    ensures TypeName(0x18 + i) == "map" + WidthName(i)
    ensures TypeName(0x20 + i) == "uint" + WidthName(i)
    ensures TypeName(0x28 + i) == "int" + WidthName(i)
    ensures i < 2 ==> TypeName(0x30 + i) == "enum" + WidthName(i)
  {
  }

  const OTHER_NAMES: seq<(byte, string)> := [
    (0x00, "nodata"), (0x10, "bool"), (0x38, "semi"), (0x39, "single"), (0x3a, "double"), (0x41, "octstr"),
    (0x42, "string"), (0x43, "octstr16"), (0x44, "string16"), (0x48, "array"), (0x4c, "struct"), (0x50, "set"),
    (0x51, "bag"), (0xe0, "ToD"), (0xe1, "date"), (0xe2, "UTC"), (0xe8, "clusterId"), (0xe9, "attribId"),
    (0xea, "bacOID"), (0xf0, "EUI64"), (0xf1, "key128"), (0xff, "unk")
  ]

  /** All the other names there are, and two hexadecimal digits for the codes without one. */
  lemma OtherNames()
    ensures forall k :: 0 <= k < |OTHER_NAMES| ==> TypeName(OTHER_NAMES[k].0) == OTHER_NAMES[k].1
  {
  }

  lemma NamelessTypes(dt: byte)
    requires !(0x08 <= dt <= 0x0f) && !(0x18 <= dt <= 0x31)
    requires forall k :: 0 <= k < |OTHER_NAMES| ==> OTHER_NAMES[k].0 != dt
    ensures TypeName(dt) == ["0123456789ABCDEF"[dt / 16], "0123456789ABCDEF"[dt % 16]]
  {
    assert forall k :: 0 <= k < |OTHER_NAMES| ==> OTHER_NAMES[k].0 != dt;
    assert OTHER_NAMES[0].0 == 0x00 && OTHER_NAMES[1].0 == 0x10 && OTHER_NAMES[2].0 == 0x38;
    assert OTHER_NAMES[3].0 == 0x39 && OTHER_NAMES[4].0 == 0x3a && OTHER_NAMES[5].0 == 0x41;
    assert OTHER_NAMES[6].0 == 0x42 && OTHER_NAMES[7].0 == 0x43 && OTHER_NAMES[8].0 == 0x44;
    assert OTHER_NAMES[9].0 == 0x48 && OTHER_NAMES[10].0 == 0x4c && OTHER_NAMES[11].0 == 0x50;
    assert OTHER_NAMES[12].0 == 0x51 && OTHER_NAMES[13].0 == 0xe0 && OTHER_NAMES[14].0 == 0xe1;
    assert OTHER_NAMES[15].0 == 0xe2 && OTHER_NAMES[16].0 == 0xe8 && OTHER_NAMES[17].0 == 0xe9;
    assert OTHER_NAMES[18].0 == 0xea && OTHER_NAMES[19].0 == 0xf0 && OTHER_NAMES[20].0 == 0xf1;
    assert OTHER_NAMES[21].0 == 0xff;
  }
}
