/**
 The typed codec's variants type code by type code, in numbers, and the bytes of its other
 types.
 */
module ZnpWire {
  import opened Bytes
  import opened FloatFormat
  import opened DataTypes
  import opened ZnpEncoding

  /** A variant is its type code and its content. */
  lemma VariantIsContent(dt: byte, bs: seq<byte>)
    ensures Dec(VariantShape, [dt] + bs) == DecContent(dt, bs)
  {
    assert ([dt] + bs)[1..] == bs;
  }

  /** Integers of as many bytes as a C++ integer has are invalid when all bits are set; the
      others never are. */
  lemma UnsignedVariants(i: nat, bs: seq<byte>)
    requires i < 8
    ensures Dec(VariantShape, [0x20 + i] + bs)
         == if |bs| <= i then Failed
            else
              var u := LeValue(bs[..i + 1]);
              Got(Variant(0x20 + i, if i in {0, 1, 3, 7} && u == Pow256(i + 1) - 1 then None else Some(Num(u))), i + 2)
  {
    hide LeValue, Pow256;
    VariantIsContent(0x20 + i, bs);
    assert ContentOf(0x20 + i) == Integer(i + 1, [1, 2, 4, 4, 8, 8, 8, 8][i], false);
    if i in {2, 4, 5, 6} {
      Pow256Wider(i + 1, if i == 2 then 4 else 8);
    }
  }

  /** Two's complement where the bytes are as many as a C++ integer has, the smallest number
      being invalid; the others are never negative. */
  lemma SignedVariants(i: nat, bs: seq<byte>)
    requires i < 8
    ensures Dec(VariantShape, [0x28 + i] + bs)
         == if |bs| <= i then Failed
            else
              var u, half := LeValue(bs[..i + 1]), Pow256(i + 1) / 2;
              Got(Variant(0x28 + i, if i !in {0, 1, 3, 7} || u < half then Some(Num(u))
                                    else if u == half then None else Some(Num(u - Pow256(i + 1)))), i + 2)
  {
    hide LeValue, Pow256;
    VariantIsContent(0x28 + i, bs);
    assert ContentOf(0x28 + i) == Integer(i + 1, [1, 2, 4, 4, 8, 8, 8, 8][i], true);
    HalfOfPow256(i + 1);
    if i in {2, 4, 5, 6} {
      Pow256Wider(i + 1, if i == 2 then 4 else 8);
      HalfOfPow256(if i == 2 then 4 else 8);
    }
  }

  /** What an invalid integer is sent as: all ones if unsigned; if signed, the top bit, which
      only full widths send. */
  lemma InvalidIntegers(i: nat)
    requires i < 8
    ensures Enc(VariantShape, Variant(0x20 + i, None)) == Some([0x20 + i] + LeBytes(Pow256(i + 1) - 1, i + 1))
    ensures Enc(VariantShape, Variant(0x28 + i, None))
         == Some([0x28 + i] + LeBytes(if i in {0, 1, 3, 7} then Pow256(i + 1) / 2 else 0, i + 1))
  {
    hide LeBytes, Pow256;
    var n, w := i + 1, [1, 2, 4, 4, 8, 8, 8, 8][i];
    assert ContentOf(0x20 + i) == Integer(n, w, false) && ContentOf(0x28 + i) == Integer(n, w, true);
    HalfOfPow256(w);
    if n < w {
      AllOnes(w, n);
      HalfIsMultiple(w, n);
    }
  }

  lemma {:induction false} LowBytes(v: nat, n: nat)
    ensures LeBytes(v, n) == LeBytes(v % Pow256(n), n)
    decreases n
  {
    LeValueOfBytes(v, n);
    LeBytesOfValue(LeBytes(v, n));
  }

  lemma AllOnes(w: nat, n: nat)
    requires n < w
    ensures LeBytes(Pow256(w) - 1, n) == LeBytes(Pow256(n) - 1, n)
  {
    hide LeBytes;
    LowBytes(Pow256(w) - 1, n);
    Pow256Factor(n, w);
    var q := Pow256(w - n);
    assert Pow256(w) - 1 == Pow256(n) * (q - 1) + (Pow256(n) - 1);
    ModIs(Pow256(w) - 1, Pow256(n), q - 1, Pow256(n) - 1);
  }

  lemma HalfIsMultiple(w: nat, n: nat)
    requires n < w
    ensures LeBytes(Pow256(w) / 2, n) == LeBytes(0, n)
  {
    hide LeBytes, Pow256;
    LowBytes(Pow256(w) / 2, n);
    LowBytes(0, n);
    Pow256Factor(n, w - 1);
    HalfOf(Pow256(w), Pow256(w - 1), w);
    MultipleIsZero(Pow256(n), Pow256(w - 1 - n));
    ModIs(0, Pow256(n), 0, 0);
  }

  lemma HalfOf(all: nat, part: nat, w: nat)
    requires w > 0 && all == Pow256(w) && part == Pow256(w - 1)
    ensures all / 2 == 128 * part
  {
  }

  lemma MultipleIsZero(p: nat, q: nat)
    requires p >= 1
    ensures 128 * (p * q) % p == 0
  {
    assert 128 * (p * q) == p * (128 * q);
    ModIs(128 * (p * q), p, 128 * q, 0);
  }

  lemma {:induction false} Pow256Factor(n: nat, w: nat)
    requires n <= w
    ensures Pow256(w) == Pow256(n) * Pow256(w - n)
    decreases n
  {
    if n > 0 {
      Pow256Factor(n - 1, w - 1);
      Regroup(Pow256(n - 1), Pow256(w - n));
    }
  }

  lemma Regroup(p: nat, q: nat)
    ensures 256 * (p * q) == (256 * p) * q
  {
  }

  /** No data; a Boolean with an invalid value and no others; octets; bits. */
  lemma PlainVariants(i: nat, bs: seq<byte>)
    requires i < 8
    ensures Dec(VariantShape, [0x00] + bs) == Got(Variant(0x00, None), 1)
    ensures Dec(VariantShape, [0x10] + bs)
         == if bs == [] || (1 < bs[0] < 0xFF) then Failed
            else Got(Variant(0x10, if bs[0] == 0xFF then None else Some(Flag(bs[0] == 1))), 2)
    ensures Dec(VariantShape, [0x08 + i] + bs) == Wrapped(0x08 + i, Dec(ArrayShape(i + 1, UnsignedShape(1)), bs))
    ensures Dec(VariantShape, [0x18 + i] + bs)
         == if |bs| <= i then Failed else Got(Variant(0x18 + i, Some(Num(LeValue(bs[..i + 1])))), i + 2)
  {
    hide LeValue, Dec, DecContent;
    VariantIsContent(0x00, bs);
    VariantIsContent(0x10, bs);
    VariantIsContent(0x08 + i, bs);
    VariantIsContent(0x18 + i, bs);
    NoDataContent(bs);
    BooleanContent(bs);
    DataContent(i, bs);
    BitsContent(i, bs);
  }

  lemma NoDataContent(bs: seq<byte>)
    ensures DecContent(0x00, bs) == Got(Variant(0x00, None), 1)
  {
  }

  lemma BooleanContent(bs: seq<byte>)
    ensures DecContent(0x10, bs)
         == if bs == [] || (1 < bs[0] < 0xFF) then Failed
            else Got(Variant(0x10, if bs[0] == 0xFF then None else Some(Flag(bs[0] == 1))), 2)
  {
  }

  lemma DataContent(i: nat, bs: seq<byte>)
    requires i < 8
    ensures DecContent(0x08 + i, bs) == Wrapped(0x08 + i, Dec(ArrayShape(i + 1, UnsignedShape(1)), bs))
  {
    hide Dec;
    assert ContentOf(0x08 + i) == AsIs(ArrayShape(i + 1, UnsignedShape(1)));
  }

  lemma BitsContent(i: nat, bs: seq<byte>)
    requires i < 8
    ensures DecContent(0x18 + i, bs)
         == if |bs| <= i then Failed else Got(Variant(0x18 + i, Some(Num(LeValue(bs[..i + 1])))), i + 2)
  {
    hide LeValue;
    assert ContentOf(0x18 + i) == AsIs(BitsetShape(i + 1));
  }

  function Wrapped(dt: byte, r: Decoded<Value>): Decoded<Value> {
    if r.Failed? then Failed else Got(Variant(dt, Some(r.value)), 1 + r.used)
  }

  lemma FloatVariants(bs: seq<byte>)
    ensures Dec(VariantShape, [0x38] + bs) == FloatVariant(0x38, Format(10, 5), 2, bs)
    ensures Dec(VariantShape, [0x39] + bs) == FloatVariant(0x39, Format(23, 8), 4, bs)
    ensures Dec(VariantShape, [0x3a] + bs) == FloatVariant(0x3a, Format(52, 11), 8, bs)
  {
    hide Dec, DecContent, LeValue, Decode;
    VariantIsContent(0x38, bs);
    VariantIsContent(0x39, bs);
    VariantIsContent(0x3a, bs);
    FloatContent(0x38, Format(10, 5), 2, bs);
    FloatContent(0x39, Format(23, 8), 4, bs);
    FloatContent(0x3a, Format(52, 11), 8, bs);
  }

  lemma FloatContent(dt: byte, f: Format, width: nat, bs: seq<byte>)
    requires ContentOf(dt) == FloatOf(f) && f.Valid() && f.Width() == width
    ensures DecContent(dt, bs) == FloatVariant(dt, f, width, bs)
  {
    hide LeValue, Decode, ContentOf;
  }

  function FloatVariant(dt: byte, f: Format, width: nat, bs: seq<byte>): Decoded<Value>
    requires f.Valid()
  {
    if |bs| < width then Failed else Got(Variant(dt, Some(Real(Decode(f, LeValue(bs[..width]))))), 1 + width)
  }

  /** A length of one or two bytes, all ones for an invalid list, and the elements; what comes
      as a string16 becomes a string. */
  lemma ListVariants(bs: seq<byte>)
    ensures Dec(VariantShape, [0x41] + bs) == ListVariant(0x41, 1, 0xFF, UnsignedShape(1), bs)
    ensures Dec(VariantShape, [0x42] + bs) == ListVariant(0x42, 1, 0xFF, UnsignedShape(1), bs)
    ensures Dec(VariantShape, [0x43] + bs) == ListVariant(0x43, 2, 0xFFFF, UnsignedShape(1), bs)
    ensures Dec(VariantShape, [0x44] + bs) == ListVariant(0x42, 2, 0xFFFF, UnsignedShape(1), bs)
    ensures Dec(VariantShape, [0x4c] + bs) == ListVariant(0x4c, 2, 0xFFFF, VariantShape, bs)
  {
    hide LeValue, DecAll;
    VariantIsContent(0x41, bs);
    VariantIsContent(0x42, bs);
    VariantIsContent(0x43, bs);
    VariantIsContent(0x44, bs);
    VariantIsContent(0x4c, bs);
    assert Pow256(1) == 0x100 && Pow256(2) == 0x1_0000;
  }

  function ListVariant(dt: byte, n: nat, ones: nat, element: Shape, bs: seq<byte>): Decoded<Value> {
    if |bs| < n then Failed
    else if LeValue(bs[..n]) == ones then Got(Variant(dt, None), 1 + n)
    else
      var r := DecAll(element, LeValue(bs[..n]), bs[n..]);
      if r.Failed? then Failed else Got(Variant(dt, Some(Items(r.value))), 1 + n + r.used)
  }

  /** The type codes of variants there is an encoding for; all others fail both ways. */
  predicate Known(dt: byte) {
    || dt == 0x00 || 0x08 <= dt <= 0x10 || 0x18 <= dt <= 0x2f || 0x38 <= dt <= 0x3a
    || 0x41 <= dt <= 0x44 || dt == 0x4c
  }

  lemma OtherVariantsFail(dt: byte, bs: seq<byte>)
    requires !Known(dt)
    ensures Dec(VariantShape, [dt] + bs) == Failed
    ensures Enc(VariantShape, Variant(dt, None)) == None
    ensures forall v :: !HasShape(VariantShape, Variant(dt, Some(v)))
  {
    VariantIsContent(dt, bs);
    assert ContentOf(dt) == Missing;
  }

  // ----- The bytes of the other types -----

  /** The address mode's number, and then its address. */
  lemma TargetBytes(target: BindTarget)
    requires ValidTarget(target)
    ensures EncTarget(target)
         == if target.NotPresent? then [0x00]
            else if target.Group? then [0x01] + LeBytes(target.id, 2)
            else if target.ShortAddress? then [0x02] + LeBytes(target.short, 2)
            else if target.IEEEAddress? then [0x03] + LeBytes(target.long, 8) + LeBytes(target.endpoint, 1)
            else [0xFF]
  {
    if target.IEEEAddress? {
      assert LeBytes(target.endpoint / 256, 0) == [];
    }
  }

  /** Octets one by one. */
  function OctetValues(bs: seq<byte>): seq<Value> {
    if bs == [] then [] else [Num(bs[0])] + OctetValues(bs[1..])
  }

  lemma OneOctet(b: byte)
    ensures HasShape(UnsignedShape(1), Num(b)) && Enc(UnsignedShape(1), Num(b)) == Some([b])
  {
    assert Pow256(1) == 256;
    assert LeBytes(b / 256, 0) == [];
    assert LeBytes(b, 1) == [b];
  }

  lemma {:induction false} OctetsAsTheyAre(bs: seq<byte>)
    ensures |OctetValues(bs)| == |bs| && AllHaveShape(UnsignedShape(1), OctetValues(bs))
    ensures EncAll(UnsignedShape(1), OctetValues(bs)) == Some(bs)
  {
    if bs != [] {
      OctetsAsTheyAre(bs[1..]);
      var vs := OctetValues(bs);
      assert vs[0] == Num(bs[0]) && vs[1..] == OctetValues(bs[1..]);
      OneOctet(bs[0]);
      assert [bs[0]] + bs[1..] == bs;
    }
  }

  /** A vector of octets is its length in one byte and the octets; an array is the octets. */
  lemma VectorBytes(bs: seq<byte>)
    ensures AllHaveShape(UnsignedShape(1), OctetValues(bs)) && |OctetValues(bs)| == |bs|
    ensures Enc(VectorShape(UnsignedShape(1)), Items(OctetValues(bs))) == if |bs| > 255 then None else Some([|bs|] + bs)
    ensures Enc(ArrayShape(|bs|, UnsignedShape(1)), Items(OctetValues(bs))) == Some(bs)
  {
    OctetsAsTheyAre(bs);
  }

  /** A negative integer of n bytes is sent as 256^n more. */
  lemma SignedBytes(v: int, n: nat)
    requires n >= 1 && HasShape(SignedShape(n), Num(v))
    ensures Enc(SignedShape(n), Num(v)) == Some(if v < 0 then LeBytes(v + Pow256(n), n) else LeBytes(v, n))
    ensures Enc(UnsignedShape(n), Num(if v < 0 then v + Pow256(n) else v)) == Enc(SignedShape(n), Num(v))
  {
    hide LeBytes, Pow256;
  }

  lemma FlagBytes(b: bool)
    ensures Enc(FlagShape, Flag(b)) == Some([if b then 0x01 else 0x00])
  {
  }
}
