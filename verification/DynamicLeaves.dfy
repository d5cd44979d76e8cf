/**
 Round trips of the types that hold no other values, in both directions, with the exact
 condition under which each holds.
 */
module DynamicLeaves {
  import opened Bytes
  import opened FloatFormat
  import opened DataTypes
  import opened SearchableList
  import opened DynamicTypes
  import opened DynamicSpec

  // ----- Integers -----

  lemma Pow256Small(n: nat)
    requires n <= 8
    ensures Pow256(n) == [1, 0x100, 0x1_0000, 0x100_0000, 0x1_0000_0000, 0x100_0000_0000,
                          0x1_0000_0000_0000, 0x100_0000_0000_0000, 0x1_0000_0000_0000_0000][n]
  {
    if n > 0 {
      Pow256Small(n - 1);
    }
  }

  /** The range test of the signed encoder accepts twice the two's-complement range. */
  lemma SignedRange(v: int, n: nat)
    requires 1 <= n <= 7 && -TWO_63 <= v < TWO_63
    ensures EncodeSigned(v, n).Ok? <==> v + Pow256(n) >= 0 && v < Pow256(n)
    ensures EncodeSigned(v, n).Ok? ==> EncodeSigned(v, n).bytes == LeBytes(if v < 0 then v + Pow256(n) else v, n)
  {
    hide LeBytes, Pow256;
    var p, q := Pow256(n), Pow256(8 - n);
    WidthFactors(n);
    RestNegative(p, q);
    if v >= 0 {
      ModIs(v, TWO_64, 0, v);
      QuotientIsZero(v, p);
      QuotientNotTop(v, p, q);
    } else {
      ModIs(v, TWO_64, -1, v + TWO_64);
      QuotientIsTop(v, p, q);
      if v + p >= 0 {
        TopBytes(v, n, q);
      }
    }
  }

  lemma WidthFactors(n: nat)
    requires 1 <= n <= 7
    ensures Pow256(n) * Pow256(8 - n) == TWO_64 && Pow256(8 - n) >= 256
  {
    Pow256Small(n);
    Pow256Small(8 - n);
  }

  lemma RestNegative(p: nat, q: nat)
    requires p >= 1 && p * q == TWO_64
    ensures (TWO_64 - 1) / p == q - 1
  {
    assert p * (q - 1) == p * q - p;
    ModIs(TWO_64 - 1, p, q - 1, p - 1);
  }

  lemma QuotientNotTop(v: nat, p: nat, q: nat)
    requires p >= 1 && p * q == TWO_64 && q >= 256 && v < TWO_63
    ensures v / p != q - 1
  {
    assert p * (q - 1) == p * q - p;
    MulMonotone(p, 256, q);
    assert v == p * (v / p) + v % p;
  }

  lemma TopBytes(v: int, n: nat, q: nat)
    requires v < 0 && v + Pow256(n) >= 0 && Pow256(n) * q == TWO_64 && q >= 1 && v + TWO_64 >= 0
    ensures LeBytes(v + TWO_64, n) == LeBytes(v + Pow256(n), n)
  {
    hide LeBytes, Pow256;
    assert Pow256(n) * (q - 1) == Pow256(n) * q - Pow256(n);
    LowBytes(v + TWO_64, v + Pow256(n), q - 1, n);
  }

  lemma QuotientIsZero(v: nat, p: nat)
    requires p >= 1
    ensures v / p == 0 <==> v < p
  {
    assert v == p * (v / p) + v % p;
    if v < p {
      ModIs(v, p, 0, v);
    }
  }

  lemma QuotientIsTop(v: int, p: nat, q: nat)
    requires p >= 1 && -TWO_63 <= v < 0 && p * q == TWO_64 && q >= 256
    ensures (v + TWO_64) / p == q - 1 <==> v + p >= 0
    ensures (v + TWO_64) / p != 0
  {
    var u := v + TWO_64;
    assert u == p * (u / p) + u % p;
    assert p * (q - 1) == p * q - p;
    if v + p >= 0 {
      ModIs(u, p, q - 1, v + p);
    } else {
      MulMonotone(p, q - 1, u / p);
    }
    MulMonotone(p, 2, q);
    MulMonotone(p, 1, u / p);
    QuotientIsZero(u, p);
  }

  lemma {:induction false} LowBytes(u: nat, low: nat, k: nat, n: nat)
    requires u == Pow256(n) * k + low && low < Pow256(n)
    ensures LeBytes(u, n) == LeBytes(low, n)
  {
    LeBytesMod(u, n);
    ModIs(u, Pow256(n), k, low);
  }

  lemma {:induction false} LeBytesMod(u: nat, n: nat)
    ensures LeBytes(u, n) == LeBytes(u % Pow256(n), n)
  {
    if n > 0 {
      var p := Pow256(n - 1);
      DivModStep(u, p);
      ModIs(u % (256 * p), 256, u / 256 % p, u % 256);
      LeBytesMod(u / 256, n - 1);
    }
  }

  predicate InTwosComplement(v: int, n: nat) {
    v + Pow256(n) / 2 >= 0 && v < Pow256(n) / 2
  }

  /** An accepted signed value comes back exactly when it is in the two's-complement range. */
  lemma SignedRoundTrip(v: int, n: nat)
    requires 1 <= n <= 7 && -TWO_63 <= v < TWO_63 && EncodeSigned(v, n).Ok?
    ensures DecodeSigned(EncodeSigned(v, n).bytes) == Some(v) <==> InTwosComplement(v, n)
  {
    SignedRange(v, n);
    Pow256Small(n);
    LeRoundTrip(if v < 0 then v + Pow256(n) else v, n);
  }

  lemma UnsignedRoundTrip(v: nat, n: nat)
    ensures EncodeUnsigned(v, n).Ok? <==> n < 8 && v < Pow256(n)
    ensures EncodeUnsigned(v, n).Ok? ==>
      |EncodeUnsigned(v, n).bytes| == n && LeValue(EncodeUnsigned(v, n).bytes) == v
  {
    QuotientIsZero(v, Pow256(n));
    if v < Pow256(n) {
      LeRoundTrip(v, n);
    }
  }

  lemma UnsignedReencode(bs: seq<byte>)
    ensures |bs| < 8 ==> EncodeUnsigned(LeValue(bs), |bs|) == Ok(bs)
  {
    QuotientIsZero(LeValue(bs), Pow256(|bs|));
    LeBytesOfValue(bs);
  }

  lemma SignedReencode(bs: seq<byte>)
    requires 1 <= |bs| <= 7
    ensures DecodeSigned(bs).Some? && InTwosComplement(DecodeSigned(bs).value, |bs|)
    ensures -TWO_63 <= DecodeSigned(bs).value < TWO_63
    ensures EncodeSigned(DecodeSigned(bs).value, |bs|) == Ok(bs)
  {
    var v := DecodeSigned(bs).value;
    Pow256Small(|bs|);
    SignedRange(v, |bs|);
    LeBytesOfValue(bs);
  }

  // ----- Octets and bits -----

  lemma {:induction false} OctetsRoundTrip(items: seq<Json>)
    requires EncodeOctets(items).Ok?
    ensures |EncodeOctets(items).bytes| == |items| && NumsOf(EncodeOctets(items).bytes) == items
  {
    if items != [] {
      OctetsRoundTrip(items[1..]);
      assert EncodeOctets(items).bytes[1..] == EncodeOctets(items[1..]).bytes;
    }
  }

  lemma {:induction false} OctetsReencode(bs: seq<byte>)
    ensures EncodeOctets(NumsOf(bs)) == Ok(bs)
  {
    if bs != [] {
      OctetsReencode(bs[1..]);
      assert NumsOf(bs)[1..] == NumsOf(bs[1..]);
    }
  }

  lemma {:induction false} BitsRoundTrip(items: seq<Json>)
    requires AllBools(items)
    ensures BitsOf(BitsValue(items), |items|) == items && BitsValue(items) < Pow2(|items|)
  {
    if items != [] {
      BitsRoundTrip(items[1..]);
      var v := BitsValue(items);
      assert v % 2 == (if items[0].b then 1 else 0) && v / 2 == BitsValue(items[1..]);
    }
  }

  /** Element i of a decoded bitmap is the bit of weight 2^i. */
  lemma {:induction false} BitsAt(v: nat, n: nat, i: nat)
    requires i < n
    ensures BitsOf(v, n)[i] == Bool(v / Pow2(i) % 2 == 1)
  {
    if i > 0 {
      BitsAt(v / 2, n - 1, i - 1);
      DivideTwice(v, 2, Pow2(i - 1));
    }
  }

  lemma {:induction false} BitsReencode(v: nat, n: nat)
    requires v < Pow2(n)
    ensures AllBools(BitsOf(v, n)) && BitsValue(BitsOf(v, n)) == v
  {
    if n > 0 {
      BitsReencode(v / 2, n - 1);
      assert BitsOf(v, n)[1..] == BitsOf(v / 2, n - 1);
    }
  }

  /** The bit loop faults on Booleans exactly when their value needs 2^31 or more. */
  lemma {:induction false} FaultIsHighBit(items: seq<Json>, position: nat)
    requires AllBools(items)
    ensures BitsFault(items, position).None? <==>
            BitsValue(items) < (if position >= 31 then 1 else Pow2(31 - position))
    ensures BitsFault(items, position).Some? ==> BitsFault(items, position).value == Undefined
  {
    if items != [] {
      FaultIsHighBit(items[1..], position + 1);
    }
  }

  lemma TwoTo31()
    ensures Pow2(31) == 0x8000_0000
  {
    Pow256IsPow2(3);
    assert Pow2(26) == 4 * Pow2(24);
    assert Pow2(28) == 4 * Pow2(26);
    assert Pow2(30) == 4 * Pow2(28);
  }

  lemma {:induction false} FaultFree(items: seq<Json>, position: nat)
    ensures BitsFault(items, position).None?
       <==> forall i :: 0 <= i < |items| ==> items[i].Bool? && (items[i].b ==> position + i < 31)
  {
    if items != [] {
      FaultFree(items[1..], position + 1);
      if BitsFault(items[1..], position + 1).None? {
        forall i | 0 < i < |items|
          ensures items[i].Bool? && (items[i].b ==> position + i < 31)
        {
          assert items[i] == items[1..][i - 1];
        }
      } else {
        var i :| 0 <= i < |items[1..]| && !(items[1..][i].Bool? && (items[1..][i].b ==> position + 1 + i < 31));
        assert items[i + 1] == items[1..][i];
      }
    }
  }

  /** A bitmap is accepted exactly when it has one Boolean for each bit, none from 31 up is
      set, and its width is defined; and then it comes back. */
  lemma BitmapRoundTrip(items: seq<Json>, n: nat)
    ensures EncodeBitmap(items, n).Ok?
       <==> n < 8 && |items| == 8 * n && forall i :: 0 <= i < |items| ==> items[i].Bool? && (items[i].b ==> i < 31)
    ensures EncodeBitmap(items, n).Ok? ==>
      |EncodeBitmap(items, n).bytes| == n && BitsOf(LeValue(EncodeBitmap(items, n).bytes), 8 * n) == items
  {
    hide BitsOf, BitsValue, BitsFault, EncodeUnsigned, LeValue, Pow2, Pow256;
    FaultFree(items, 0);
    if |items| == 8 * n && BitsFault(items, 0).None? {
      BitsRoundTrip(items);
      Pow256IsPow2(n);
      UnsignedRoundTrip(BitsValue(items), n);
    }
  }

  lemma BitmapReencode(bs: seq<byte>)
    ensures var items, n := BitsOf(LeValue(bs), 8 * |bs|), |bs|;
      EncodeBitmap(items, n).Ok? <==> n < 8 && LeValue(bs) < 0x8000_0000
    ensures var items, n := BitsOf(LeValue(bs), 8 * |bs|), |bs|;
      EncodeBitmap(items, n).Ok? ==> EncodeBitmap(items, n) == Ok(bs)
  {
    hide Pow2, Pow256, LeValue, LeBytes, BitsOf, BitsFault, BitsValue;
    var items, n := BitsOf(LeValue(bs), 8 * |bs|), |bs|;
    Pow256IsPow2(n);
    BitsReencode(LeValue(bs), 8 * n);
    FaultIsHighBit(items, 0);
    TwoTo31();
    UnsignedRoundTrip(LeValue(bs), n);
    UnsignedReencode(bs);
  }

  // ----- Floating-point values -----

  lemma FormatFits(f: Format)
    requires f in {SEMI, SINGLE, DOUBLE}
    ensures f.Valid() && f.Width() in {2, 4, 8}
    ensures 2 * Pow2(f.man + f.exp) == Pow256(f.Width())
  {
    Pow256IsPow2(f.Width());
  }

  lemma RealRoundTrip(f: Format, x: Float)
    requires f in {SEMI, SINGLE, DOUBLE}
    ensures f.Valid() && EncodeReal(f, Real(x)).Ok?
    ensures var bs := EncodeReal(f, Real(x)).bytes;
      |bs| == f.Width() && (DecodeReal(f, bs) == x <==> Representable(f, x))
  {
    hide Encode, Decode, Pow2, LeBytes, Representable;
    FormatFits(f);
    EncodeFits(f, x);
    SurvivesIffRepresentable(f, x);
    LeRoundTrip(Encode(f, x), f.Width());
  }

  lemma RealReencode(f: Format, bs: seq<byte>)
    requires f in {SEMI, SINGLE, DOUBLE} && |bs| == f.Width()
    ensures f.Valid() && Representable(f, DecodeReal(f, bs))
    ensures EncodeReal(f, Real(DecodeReal(f, bs))).Ok?
    ensures |EncodeReal(f, Real(DecodeReal(f, bs))).bytes| == |bs|
    ensures EncodeReal(f, Real(DecodeReal(f, bs))) == Ok(bs) <==> QuietPattern(f, LeValue(bs))
  {
    hide Encode, Decode, Pow2, LeBytes, Representable;
    FormatFits(f);
    var raw := LeValue(bs);
    EncodeOfDecode(f, raw);
    DecodedIsRepresentable(f, raw);
    var x := DecodeReal(f, bs);
    EncodeFits(f, x);
    LeRoundTrip(Encode(f, x), f.Width());
    LeBytesOfValue(bs);
  }

  // ----- Attribute ids -----

  /** The id an accepted JSON attribute stands for. */
  function AttributeIdOf(cx: Context, v: Json): int {
    match v
    case Num(n) => n
    case Str(name) =>
      if cx.NoCluster? then 0
      else (match SearchName(cx.attributes, name) case None => 0 case Some(a) => a.id)
    case _ => 0xFFFF
  }

  lemma AttributeRoundTrip(cx: Context, v: Json)
    requires cx.Valid() && EncodeAttributeId(cx, v).Ok?
    ensures |EncodeAttributeId(cx, v).bytes| == 2
    ensures LeValue(EncodeAttributeId(cx, v).bytes) == AttributeIdOf(cx, v)
  {
    Pow256Small(2);
    match v
    case Null =>
      assert LeValue([0xFF, 0xFF][1..]) == 0xFF;
    case Str(name) =>
      LeRoundTrip(AttributeIdOf(cx, v), 2);
    case Num(n) =>
      UnsignedRoundTrip(n, 2);
  }

  /** An accepted attribute id comes back as it was given exactly when it is a name, or a
      number that has no name; null never does. */
  predicate CanonAttribute(cx: Context, v: Json) {
    v.Str? || (v.Num? && (cx.NoCluster? || SearchId(cx.attributes, v.n).None?))
  }

  lemma AttributeSurvives(cx: Context, v: Json)
    requires cx.Valid() && EncodeAttributeId(cx, v).Ok?
    ensures AttributeName(cx, LeValue(EncodeAttributeId(cx, v).bytes)) == v <==> CanonAttribute(cx, v)
  {
    hide LeValue, LeBytes, EncodeUnsigned;
    AttributeRoundTrip(cx, v);
    if v.Str? {
      LookupsAreInverse(cx.attributes, SearchName(cx.attributes, v.s).value);
    }
  }

  /** Names map back to the id they were found under. */
  lemma AttributeReencode(cx: Context, bs: seq<byte>)
    requires cx.Valid() && |bs| == 2
    ensures var v := AttributeName(cx, LeValue(bs));
      EncodeAttributeId(cx, v) == Ok(bs) && AttributeIdOf(cx, v) == LeValue(bs) && CanonAttribute(cx, v)
  {
    Pow256Small(2);
    UnsignedReencode(bs);
    LeBytesOfValue(bs);
    if cx.Cluster? && SearchId(cx.attributes, LeValue(bs)).Some? {
      LookupsAreInverse(cx.attributes, SearchId(cx.attributes, LeValue(bs)).value);
    }
  }

  // ----- All leaf types together -----

  /** The accepted values of a leaf type that decoding gives back. */
  predicate CanonLeaf(cx: Context, k: Kind, v: Json)
    requires k.Floating? ==> k.format.Valid()
  {
    match k
    case Signed(n) => v.Num? && InTwosComplement(v.n, n)
    case Floating(f) => v.Real? && Representable(f, v.value)
    case OctetString(n) => v.Null? || (v.Arr? && |v.items| < Pow256(n) - 1)
    case CharString(n) => v.Null? || (v.Str? && |v.s| < Pow256(n) - 1 && IsOctets(v.s))
    case AttributeId => CanonAttribute(cx, v)
    case _ => true
  }

  /** The input bytes of a leaf type that encoding gives back. */
  predicate CleanLeaf(k: Kind, bs: seq<byte>)
    requires k.Floating? ==> k.format.Valid()
  {
    match k
    case Boolean => bs != [] && bs[0] in {0, 1, 0xFF}
    case Bitmap(n) => n < 8 && |bs| >= n && LeValue(bs[..n]) < 0x8000_0000
    case Unsigned(n) => n < 8
    case Signed(n) => n < 8
    case Floating(f) => |bs| >= f.Width() && QuietPattern(f, LeValue(bs[..f.Width()]))
    case _ => true
  }

  /** The attribute id remembered after a leaf value was decoded. */
  function LeafTrack(cx: Context, k: Kind, v: Json, last: Option<int>): Option<int> {
    if k.AttributeId? then Some(AttributeIdOf(cx, v)) else last
  }

  lemma TakePrefix(b: seq<byte>, suffix: seq<byte>)
    ensures (b + suffix)[..|b|] == b && (b + suffix)[|b|..] == suffix
  {
  }

  /** A length-prefixed run comes back unless its length is the all-ones null marker. */
  lemma RunRoundTrip(n: nat, body: seq<byte>, suffix: seq<byte>, last: Option<int>)
    requires 1 <= n <= 2 && |body| < Pow256(n) - 1
    ensures DecodeRun(LeBytes(|body|, n) + body + suffix, n, last) == Got(Some(body), n + |body|, last)
  {
    var prefix := LeBytes(|body|, n);
    var bs := prefix + body + suffix;
    LeRoundTrip(|body|, n);
    assert bs[..n] == prefix;
    assert bs[n..n + |body|] == body;
  }

  lemma NullRun(n: nat, suffix: seq<byte>, last: Option<int>)
    requires 1 <= n <= 2
    ensures DecodeRun(LeBytes(Pow256(n) - 1, n) + suffix, n, last) == Got(None, n, last)
  {
    hide LeBytes, Pow256;
    LeRoundTrip(Pow256(n) - 1, n);
    TakePrefix(LeBytes(Pow256(n) - 1, n), suffix);
  }

  lemma OctetStringRoundTrip(cx: Context, n: nat, v: Json, suffix: seq<byte>, last: Option<int>)
    requires 1 <= n <= 2 && EncLeaf(cx, OctetString(n), v).Ok? && CanonLeaf(cx, OctetString(n), v)
    ensures var b := EncLeaf(cx, OctetString(n), v).bytes;
      DecLeaf(cx, OctetString(n), b + suffix, last) == Got(v, |b|, last)
  {
    hide LeBytes, DecodeRun;
    if v.Null? {
      NullRun(n, suffix, last);
    } else {
      OctetsRoundTrip(v.items);
      RunRoundTrip(n, EncodeOctets(v.items).bytes, suffix, last);
    }
  }

  lemma CharStringRoundTrip(cx: Context, n: nat, v: Json, suffix: seq<byte>, last: Option<int>)
    requires 1 <= n <= 2 && EncLeaf(cx, CharString(n), v).Ok? && CanonLeaf(cx, CharString(n), v)
    ensures var b := EncLeaf(cx, CharString(n), v).bytes;
      DecLeaf(cx, CharString(n), b + suffix, last) == Got(v, |b|, last)
  {
    hide LeBytes, DecodeRun;
    if v.Null? {
      NullRun(n, suffix, last);
    } else {
      CharsOfOctets(v.s);
      RunRoundTrip(n, OctetsOf(v.s), suffix, last);
    }
  }

  lemma FixedRoundTrip(cx: Context, k: Kind, v: Json, suffix: seq<byte>, last: Option<int>)
    requires k.Octets? || k.Bitmap? || k.Unsigned? || k.Signed?
    requires 1 <= k.n <= 8 && EncLeaf(cx, k, v).Ok? && CanonLeaf(cx, k, v)
    ensures var b := EncLeaf(cx, k, v).bytes;
      DecLeaf(cx, k, b + suffix, last) == Got(v, |b|, last)
  {
    hide LeBytes, Pow256, LeValue, DecodeSigned, EncodeSigned, EncodeUnsigned, EncodeBitmap, EncodeOctets;
    var b := EncLeaf(cx, k, v).bytes;
    TakePrefix(b, suffix);
    match k
    case Octets(n) =>
      OctetsRoundTrip(v.items);
    case Bitmap(n) =>
      BitmapRoundTrip(v.items, n);
    case Unsigned(n) =>
      UnsignedRoundTrip(v.n, n);
    case Signed(n) =>
      SignedWidth(v.n, n);
      SignedRange(v.n, n);
      SignedRoundTrip(v.n, n);
  }

  lemma SignedWidth(v: int, n: nat)
    ensures EncodeSigned(v, n).Ok? ==> n < 8
  {
  }

  lemma LeafRoundTrip(cx: Context, k: Kind, v: Json, suffix: seq<byte>, last: Option<int>)
    requires cx.Valid() && WellSized(k)
    requires EncLeaf(cx, k, v).Ok? && CanonLeaf(cx, k, v)
    ensures var b := EncLeaf(cx, k, v).bytes;
      DecLeaf(cx, k, b + suffix, last) == Got(v, |b|, LeafTrack(cx, k, v, last))
  {
    hide Representable, Pow2, LeBytes, EncodeReal, DecodeReal, EncodeAttributeId, CanonAttribute;
    match k
    case Octets(n) =>
      FixedRoundTrip(cx, k, v, suffix, last);
    case Bitmap(n) =>
      FixedRoundTrip(cx, k, v, suffix, last);
    case Unsigned(n) =>
      FixedRoundTrip(cx, k, v, suffix, last);
    case Signed(n) =>
      FixedRoundTrip(cx, k, v, suffix, last);
    case Floating(f) =>
      RealRoundTrip(f, v.value);
      TakePrefix(EncLeaf(cx, k, v).bytes, suffix);
    case OctetString(n) =>
      OctetStringRoundTrip(cx, n, v, suffix, last);
    case CharString(n) =>
      CharStringRoundTrip(cx, n, v, suffix, last);
    case AttributeId =>
      AttributeRoundTrip(cx, v);
      AttributeSurvives(cx, v);
      TakePrefix(EncLeaf(cx, k, v).bytes, suffix);
    case _ =>
  }

  /** What decoding a leaf says about re-encoding it: the encoding, if there is one, has the
      length that was consumed; it is the consumed bytes exactly when they are clean; and the
      decoded value is canonical. */
  ghost predicate LeafReencodes(cx: Context, k: Kind, bs: seq<byte>, v: Json, used: nat)
    requires k.Floating? ==> k.format.Valid()
    requires used <= |bs|
  {
    && (EncLeaf(cx, k, v).Ok? ==> |EncLeaf(cx, k, v).bytes| == used)
    && (EncLeaf(cx, k, v) == Ok(bs[..used]) <==> CleanLeaf(k, bs))
    && (EncLeaf(cx, k, v).Ok? ==> CanonLeaf(cx, k, v))
  }

  lemma RunReencode(cx: Context, n: nat, bs: seq<byte>, last: Option<int>)
    requires 1 <= n <= 2 && DecodeRun(bs, n, last).Got?
    ensures DecodeRun(bs, n, last).last == last
    ensures var r := DecodeRun(bs, n, last);
      match r.value
      case None => LeBytes(Pow256(n) - 1, n) == bs[..r.used]
      case Some(body) =>
        |body| < Pow256(n) - 1 && EncodeLength(|body|, n) == Ok(bs[..n]) && bs[..n] + body == bs[..r.used]
  {
    hide LeBytes, LeValue, EncodeUnsigned, Pow256;
    LeBytesOfValue(bs[..n]);
    UnsignedReencode(bs[..n]);
    LengthBelow(bs[..n]);
  }

  lemma LengthBelow(bs: seq<byte>)
    ensures LeValue(bs) <= Pow256(|bs|) - 1
  {
  }

  lemma StringsReencode(cx: Context, k: Kind, bs: seq<byte>, last: Option<int>)
    requires (k.OctetString? || k.CharString?) && 1 <= k.n <= 2 && DecLeaf(cx, k, bs, last).Got?
    ensures var r := DecLeaf(cx, k, bs, last);
      LeafReencodes(cx, k, bs, r.value, r.used) && r.last == last
  {
    hide LeBytes, DecodeRun, EncodeUnsigned, Pow256;
    RunReencode(cx, k.n, bs, last);
    var run := DecodeRun(bs, k.n, last).value;
    if run.Some? {
      OctetsReencode(run.value);
      OctetsOfChars(run.value);
    }
  }

  lemma FixedReencode(cx: Context, k: Kind, bs: seq<byte>, last: Option<int>)
    requires k.Octets? || k.Bitmap? || k.Unsigned? || k.Signed?
    requires 1 <= k.n <= 8 && DecLeaf(cx, k, bs, last).Got?
    ensures var r := DecLeaf(cx, k, bs, last);
      LeafReencodes(cx, k, bs, r.value, r.used) && r.last == last
  {
    hide LeBytes, LeValue, DecodeSigned, EncodeSigned, EncodeUnsigned, EncodeBitmap, EncodeOctets;
    var b := bs[..k.n];
    match k
    case Octets(n) =>
      OctetsReencode(b);
    case Bitmap(n) =>
      BitmapReencode(b);
    case Unsigned(n) =>
      UnsignedReencode(b);
      UnsignedRoundTrip(LeValue(b), n);
      Pow256Small(n);
    case Signed(n) =>
      if n < 8 {
        SignedReencode(b);
      } else {
        SignedWidth(DecLeaf(cx, k, bs, last).value.n, n);
      }
  }

  lemma LeafReencode(cx: Context, k: Kind, bs: seq<byte>, last: Option<int>)
    requires cx.Valid() && WellSized(k) && DecLeaf(cx, k, bs, last).Got?
    ensures var r := DecLeaf(cx, k, bs, last);
      LeafReencodes(cx, k, bs, r.value, r.used) && r.last == LeafTrack(cx, k, r.value, last)
  {
    hide Representable, Pow2, LeBytes, LeValue, EncodeReal, DecodeReal, EncodeAttributeId, AttributeName,
      AttributeIdOf, CanonAttribute;
    match k
    case Octets(n) =>
      FixedReencode(cx, k, bs, last);
    case Bitmap(n) =>
      FixedReencode(cx, k, bs, last);
    case Unsigned(n) =>
      FixedReencode(cx, k, bs, last);
    case Signed(n) =>
      FixedReencode(cx, k, bs, last);
    case Floating(f) =>
      RealReencode(f, bs[..f.Width()]);
    case OctetString(n) =>
      StringsReencode(cx, k, bs, last);
    case CharString(n) =>
      StringsReencode(cx, k, bs, last);
    case AttributeId =>
      AttributeReencode(cx, bs[..2]);
    case _ =>
  }
}
