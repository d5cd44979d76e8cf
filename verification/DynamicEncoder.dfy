/**
 The encoder as the source runs it: every overload appends to one byte vector, with loops
 over items and bits. Every method is proved to append exactly what Enc says, or to throw
 when Enc does.
 */
module DynamicEncoder {
  import opened Bytes
  import opened FloatFormat
  import opened DataTypes
  import opened SearchableList
  import opened DynamicTypes
  import opened DynamicSpec
  import opened DynamicLeaves

  datatype Status = Done | Exception(why: Failure) {
    predicate IsFailure() {
      Exception?
    }

    function PropagateFailure(): Status
      requires Exception?
    {
      this
    }
  }

  lemma ThenNothing(e: Encoded)
    ensures Ok([]).Then(e) == e && e.Then(Ok([])) == e
  {
    if e.Ok? {
      assert [] + e.bytes == e.bytes && e.bytes + [] == e.bytes;
    }
  }

  lemma ThenAssociates(a: seq<byte>, b: seq<byte>, rest: Encoded)
    ensures Ok(a).Then(Ok(b).Then(rest)) == Ok(a + b).Then(rest)
  {
    if rest.Ok? {
      assert a + (b + rest.bytes) == a + b + rest.bytes;
    }
  }

  lemma {:induction false} LeBytesAppend(v: nat, n: nat)
    ensures LeBytes(v, n + 1) == LeBytes(v, n) + [v / Pow256(n) % 256]
  {
    if n > 0 {
      LeBytesAppend(v / 256, n - 1);
      DivideTwice(v, 256, Pow256(n - 1));
    }
  }

  class ByteVector {
    var bytes: seq<byte>

    constructor ()
      ensures bytes == []
    {
      bytes := [];
    }
  }

  /** target grew from before by what the encoding says, or the encoding's failure was thrown. */
  ghost predicate Appended(target: ByteVector, before: seq<byte>, expected: Encoded, r: Status)
    reads target
  {
    match expected
    case Ok(b) => r == Done && target.bytes == before + b
    case Err(e) => r == Exception(e)
  }

  method AppendBytes(bs: seq<byte>, target: ByteVector)
    modifies target
    ensures target.bytes == old(target.bytes) + bs
  {
    target.bytes := target.bytes + bs;
  }

  method EncodeBytes(value: nat, bytes: nat, target: ByteVector)
    modifies target
    ensures target.bytes == old(target.bytes) + LeBytes(value, bytes)
  {
    hide LeBytes, Pow256;
    NoBytes(value);
    var byte: nat, shift: nat := 0, 1;
    while byte < bytes
      invariant byte <= bytes && shift == Pow256(byte)
      invariant target.bytes == old(target.bytes) + LeBytes(value, byte)
    {
      LeBytesAppend(value, byte);
      target.bytes := target.bytes + [value / shift % 256];
      shift := 256 * shift;
      byte := byte + 1;
      NextPower(byte - 1);
    }
  }

  lemma NoBytes(value: nat)
    ensures LeBytes(value, 0) == [] && Pow256(0) == 1
  {
  }

  lemma NextPower(n: nat)
    ensures Pow256(n + 1) == 256 * Pow256(n)
  {
  }

  method EncodeUnsignedInteger(value: nat, bytes: nat, target: ByteVector) returns (r: Status)
    modifies target
    ensures Appended(target, old(target.bytes), EncodeUnsigned(value, bytes), r)
  {
    if bytes >= 8 {
      return Exception(Undefined);
    }
    var rest := value / Pow256(bytes);
    if rest != 0 {
      return Exception(Thrown);
    }
    EncodeBytes(value, bytes, target);
    return Done;
  }

  method EncodeSignedInteger(value: int, bytes: nat, target: ByteVector) returns (r: Status)
    requires -TWO_63 <= value < TWO_63
    modifies target
    ensures Appended(target, old(target.bytes), EncodeSigned(value, bytes), r)
  {
    if bytes >= 8 {
      return Exception(Undefined);
    }
    var unsignedValue: nat := value % TWO_64;
    var rest := unsignedValue / Pow256(bytes);
    var restNegative := (TWO_64 - 1) / Pow256(bytes);
    if rest != 0 && rest != restNegative {
      return Exception(Thrown);
    }
    EncodeBytes(unsignedValue, bytes, target);
    return Done;
  }

  method EncodeOctetItems(items: seq<Json>, target: ByteVector) returns (r: Status)
    modifies target
    ensures Appended(target, old(target.bytes), EncodeOctets(items), r)
  {
    hide EncodeOctets;
    ghost var start := target.bytes;
    ghost var done: seq<byte> := [];
    var i: nat := 0;
    ThenNothing(EncodeOctets(items));
    assert items[0..] == items;
    while i < |items|
      invariant i <= |items| && target.bytes == start + done
      invariant EncodeOctets(items) == Ok(done).Then(EncodeOctets(items[i..]))
    {
      OctetsUnfold(items[i..]);
      assert items[i..][0] == items[i] && items[i..][1..] == items[i + 1..];
      if !items[i].Num? || !(0 <= items[i].n < 256) {
        return Exception(Thrown);
      }
      EncodeBytesOfOctet(items[i].n);
      EncodeBytes(items[i].n, 1, target);
      ThenAssociates(done, [items[i].n], EncodeOctets(items[i + 1..]));
      done := done + [items[i].n];
      i := i + 1;
    }
    OctetsUnfold(items[i..]);
    ThenNothing(Ok(done));
    return Done;
  }

  lemma OctetsUnfold(items: seq<Json>)
    ensures EncodeOctets(items) ==
      if items == [] then Ok([])
      else if !items[0].Num? || !(0 <= items[0].n < 256) then Err(Thrown)
      else Ok([items[0].n]).Then(EncodeOctets(items[1..]))
  {
  }

  lemma EncodeBytesOfOctet(b: nat)
    requires b < 256
    ensures LeBytes(b, 1) == [b]
  {
  }

  /** One round of the loop over the bits of a bitmap. */
  lemma BitStep(items: seq<Json>, position: nat, bit: nat, mask: nat)
    requires items != [] && items[0].Bool? && bit == Pow2(position)
    ensures BitsFault(items, position)
      == if items[0].b && position >= 31 then Some(Undefined) else BitsFault(items[1..], position + 1)
    ensures AllBools(items) == AllBools(items[1..])
    ensures AllBools(items) ==>
      mask + bit * BitsValue(items)
      == mask + (if items[0].b then bit else 0) + 2 * bit * BitsValue(items[1..])
    ensures 2 * bit == Pow2(position + 1)
  {
    if AllBools(items) {
      BitProduct(bit, BitsValue(items[1..]), BitsValue(items), items[0].b);
    }
  }

  lemma BitProduct(bit: nat, rest: nat, all: nat, high: bool)
    requires all == (if high then 1 else 0) + 2 * rest
    ensures bit * all == (if high then bit else 0) + 2 * bit * rest
  {
  }

  method EncodeBitItems(items: seq<Json>, length: nat, target: ByteVector) returns (r: Status)
    modifies target
    ensures Appended(target, old(target.bytes), EncodeBitmap(items, length), r)
  {
    hide BitsFault, BitsValue, AllBools, Pow2, EncodeUnsigned;
    if |items| != length * 8 {
      return Exception(Thrown);
    }
    var currentBit: nat, bit: nat, bitmask: nat := 0, 1, 0;
    assert items[0..] == items;
    NoBits();
    while currentBit < |items|
      invariant currentBit <= |items| && bit == Pow2(currentBit)
      invariant BitsFault(items, 0) == BitsFault(items[currentBit..], currentBit)
      invariant AllBools(items[currentBit..]) == AllBools(items)
      invariant AllBools(items) ==> bitmask + bit * BitsValue(items[currentBit..]) == BitsValue(items)
      invariant target.bytes == old(target.bytes)
    {
      ghost var rest := items[currentBit..];
      assert rest[0] == items[currentBit] && rest[1..] == items[currentBit + 1..];
      if !items[currentBit].Bool? {
        NotAllBools(rest, currentBit);
        return Exception(Thrown);
      }
      BitStep(rest, currentBit, bit, bitmask);
      if items[currentBit].b {
        if currentBit >= 31 {
          return Exception(Undefined);
        }
        bitmask := bitmask + bit;
      }
      bit := 2 * bit;
      currentBit := currentBit + 1;
    }
    assert items[currentBit..] == [];
    BitsEnd(currentBit);
    r := EncodeUnsignedInteger(bitmask, length, target);
  }

  lemma NoBits()
    ensures Pow2(0) == 1
  {
  }

  lemma BitsEnd(position: nat)
    ensures BitsFault([], position) == None && AllBools([]) && BitsValue([]) == 0
  {
  }

  lemma NotAllBools(items: seq<Json>, position: nat)
    requires items != [] && !items[0].Bool?
    ensures BitsFault(items, position) == Some(Thrown)
  {
  }

  lemma ItemsUnfold(cx: Context, t: Schema, items: seq<Json>)
    ensures EncItems(cx, t, items)
         == if items == [] then Ok([]) else Enc(cx, t, items[0]).Then(EncItems(cx, t, items[1..]))
  {
    hide Enc;
  }

  lemma PropertiesUnfold(cx: Context, ps: seq<Property>, v: Json)
    requires v.Obj?
    ensures EncProperties(cx, ps, v) == if ps == [] then Ok([]) else
      (if ps[0].name in v.fields then Enc(cx, ps[0].typ, v.fields[ps[0].name]) else EncNull(cx, ps[0].typ))
      .Then(EncProperties(cx, ps[1..], v))
  {
    hide Enc, EncNull;
  }

  class Encoder {
    const cluster: SearchableList?<int, string, Option<byte>>

    constructor (cluster: SearchableList?<int, string, Option<byte>>)
      ensures this.cluster == cluster
    {
      this.cluster := cluster;
    }

    ghost function Ctx(): Context
      reads cluster
    {
      if cluster == null then NoCluster else Cluster(cluster.items)
    }

    ghost predicate Ready()
      reads cluster
    {
      (cluster != null ==> cluster.Valid()) && Ctx().Valid()
    }

    method EncodeAttribute(v: Json, target: ByteVector) returns (r: Status)
      requires Ready()
      modifies target
      ensures Appended(target, old(target.bytes), EncodeAttributeId(Ctx(), v), r)
    {
      hide Indexed, LeBytes, EncodeUnsigned;
      match v {
        case Null =>
          AppendBytes([0xFF, 0xFF], target);
          return Done;
        case Str(name) =>
          if cluster == null {
            return Exception(Thrown);
          }
          var info := cluster.FindByName(name);
          if info.None? {
            return Exception(Thrown);
          }
          assert info.value in cluster.items;
          EncodeBytes(info.value.id, 2, target);
          return Done;
        case Num(n) =>
          if !(0 <= n < TWO_32) {
            return Exception(Thrown);
          }
          r := EncodeUnsignedInteger(n, 2, target);
        case _ =>
          return Exception(Thrown);
      }
    }

    method EncodeFloat(f: Format, v: Json, target: ByteVector) returns (r: Status)
      requires f.Valid()
      modifies target
      ensures Appended(target, old(target.bytes), EncodeReal(f, v), r)
    {
      hide Encode, LeBytes, Pow2;
      var value := AsFloat(v);
      if value.None? {
        return Exception(Thrown);
      }
      var encoded := FloatFormat.EncodeFloat(f, value.value);
      EncodeFits(f, value.value);
      EncodeBytes(encoded.value, f.Width(), target);
      return Done;
    }

    method EncodeOctetString(v: Json, sizeBytes: nat, target: ByteVector) returns (r: Status)
      requires 1 <= sizeBytes <= 2
      modifies target
      ensures Appended(target, old(target.bytes), EncLeaf(Ctx(), OctetString(sizeBytes), v), r)
    {
      hide LeBytes, EncodeUnsigned, EncodeOctets, Pow256;
      if v.Null? {
        EncodeBytes(Pow256(sizeBytes) - 1, sizeBytes, target);
        return Done;
      }
      if !v.Arr? {
        return Exception(Thrown);
      }
      :- EncodeUnsignedInteger(|v.items|, sizeBytes, target);
      r := EncodeOctetItems(v.items, target);
    }

    method EncodeCharString(v: Json, sizeBytes: nat, target: ByteVector) returns (r: Status)
      requires 1 <= sizeBytes <= 2
      modifies target
      ensures Appended(target, old(target.bytes), EncLeaf(Ctx(), CharString(sizeBytes), v), r)
    {
      hide LeBytes, EncodeUnsigned, OctetsOf, Pow256;
      if v.Null? {
        EncodeBytes(Pow256(sizeBytes) - 1, sizeBytes, target);
        return Done;
      }
      if !v.Str? {
        return Exception(Thrown);
      }
      :- EncodeUnsignedInteger(|v.s|, sizeBytes, target);
      AppendBytes(OctetsOf(v.s), target);
      return Done;
    }

    method EncodeLeaf(k: Kind, v: Json, target: ByteVector) returns (r: Status)
      requires Ready() && WellSized(k)
      modifies target
      ensures Appended(target, old(target.bytes), EncLeaf(Ctx(), k, v), r)
    {
      hide Indexed, EncodeOctets, EncodeBitmap, EncodeUnsigned, EncodeSigned, EncodeAttributeId, EncodeReal, LeBytes,
        Pow256;
      match k {
        case Empty =>
          r := if v.Null? then Done else Exception(Thrown);
        case Octets(n) =>
          if !v.Arr? || |v.items| != n {
            return Exception(Thrown);
          }
          r := EncodeOctetItems(v.items, target);
        case Boolean =>
          if v.Null? {
            AppendBytes([0xFF], target);
            return Done;
          }
          if !v.Bool? {
            return Exception(Thrown);
          }
          AppendBytes([if v.b then 1 else 0], target);
          return Done;
        case Bitmap(n) =>
          if !v.Arr? {
            return Exception(Thrown);
          }
          r := EncodeBitItems(v.items, n, target);
        case Unsigned(n) =>
          if !v.Num? || !(0 <= v.n < TWO_64) {
            return Exception(Thrown);
          }
          r := EncodeUnsignedInteger(v.n, n, target);
        case Signed(n) =>
          if !v.Num? || !(-TWO_63 <= v.n < TWO_63) {
            return Exception(Thrown);
          }
          r := EncodeSignedInteger(v.n, n, target);
        case Floating(f) =>
          r := EncodeFloat(f, v, target);
        case OctetString(n) =>
          r := EncodeOctetString(v, n, target);
        case CharString(n) =>
          r := EncodeCharString(v, n, target);
        case AttributeId =>
          r := EncodeAttribute(v, target);
        case _ =>
          return Exception(Thrown);
      }
    }

    /** Any schema applied to null: what absent members are encoded as. */
    method EncodeNull(t: Schema, target: ByteVector) returns (r: Status)
      requires Ready()
      modifies target
      ensures Appended(target, old(target.bytes), EncNull(Ctx(), t), r)
    {
      hide Indexed, EncLeaf, KindOf;
      match t {
        case VariantType =>
          AppendBytes([NODATA], target);
          return Done;
        case DataType(dt) =>
          if KindOf(dt).Structure? {
            AppendBytes([0xFF, 0xFF], target);
            return Done;
          }
          r := EncodeLeaf(KindOf(dt), Null, target);
        case ObjectType(ps) =>
          r := if ps == [] then Done else Exception(Thrown);
        case _ =>
          return Exception(Thrown);
      }
    }

    method EncodeItems(t: Schema, items: seq<Json>, target: ByteVector) returns (r: Status)
      requires Ready()
      modifies target
      ensures Appended(target, old(target.bytes), EncItems(Ctx(), t, items), r)
      decreases items, 3, 0
    {
      hide Indexed, Enc, EncItems;
      ghost var cx, start, done := Ctx(), target.bytes, [];
      ThenNothing(EncItems(cx, t, items));
      assert items[0..] == items;
      var i: nat := 0;
      while i < |items|
        invariant i <= |items| && Ctx() == cx && Ready() && target.bytes == start + done
        invariant EncItems(cx, t, items) == Ok(done).Then(EncItems(cx, t, items[i..]))
      {
        ItemsUnfold(cx, t, items[i..]);
        assert items[i..][0] == items[i] && items[i..][1..] == items[i + 1..];
        :- EncodeValue(t, items[i], target);
        ghost var b := Enc(cx, t, items[i]).bytes;
        ThenAssociates(done, b, EncItems(cx, t, items[i + 1..]));
        done := done + b;
        i := i + 1;
      }
      ItemsUnfold(cx, t, items[i..]);
      ThenNothing(Ok(done));
      return Done;
    }

    method EncodeObject(ps: seq<Property>, v: Json, target: ByteVector) returns (r: Status)
      requires Ready() && v.Obj?
      modifies target
      ensures Appended(target, old(target.bytes), EncProperties(Ctx(), ps, v), r)
      decreases v, 0, 0
    {
      hide Indexed, Enc, EncNull, EncProperties;
      ghost var cx, start, done := Ctx(), target.bytes, [];
      ThenNothing(EncProperties(cx, ps, v));
      assert ps[0..] == ps;
      var i: nat := 0;
      while i < |ps|
        invariant i <= |ps| && Ctx() == cx && Ready() && target.bytes == start + done
        invariant EncProperties(cx, ps, v) == Ok(done).Then(EncProperties(cx, ps[i..], v))
      {
        PropertiesUnfold(cx, ps[i..], v);
        assert ps[i..][0] == ps[i] && ps[i..][1..] == ps[i + 1..];
        ghost var one;
        if ps[i].name in v.fields {
          one := Enc(cx, ps[i].typ, v.fields[ps[i].name]);
          :- EncodeValue(ps[i].typ, v.fields[ps[i].name], target);
        } else {
          one := EncNull(cx, ps[i].typ);
          :- EncodeNull(ps[i].typ, target);
        }
        ThenAssociates(done, one.bytes, EncProperties(cx, ps[i + 1..], v));
        done := done + one.bytes;
        i := i + 1;
      }
      PropertiesUnfold(cx, ps[i..], v);
      ThenNothing(Ok(done));
      return Done;
    }

    method EncodeVariant(v: Json, target: ByteVector) returns (r: Status)
      requires Ready()
      modifies target
      ensures Appended(target, old(target.bytes), Enc(Ctx(), VariantType, v), r)
      decreases v, 1, 0
    {
      hide Indexed, TypeOfName, EncLeaf, EncItems, EncTyped, EncProperties, KindOf, EncodeUnsigned;
      if v.Null? {
        r := EncodeNull(VariantType, target);
        return;
      }
      if !v.Obj? || "type" !in v.fields || !v.fields["type"].Str? {
        return Exception(Thrown);
      }
      var dt := TypeOfName(v.fields["type"].s);
      if dt.None? {
        return Exception(Thrown);
      }
      AppendBytes([dt.value], target);
      if "value" in v.fields {
        :- EncodeValue(DataType(dt.value), v.fields["value"], target);
      } else {
        :- EncodeNull(DataType(dt.value), target);
      }
      return Done;
    }

    method EncodeTyped(v: Json, target: ByteVector) returns (r: Status)
      requires Ready()
      modifies target
      ensures Appended(target, old(target.bytes), EncTyped(Ctx(), v), r)
      decreases v, 0, 0
    {
      hide Indexed, TypeOfName, EncLeaf, EncItems, EncProperties, KindOf, EncodeUnsigned;
      if !v.Obj? || "element_type" !in v.fields || !v.fields["element_type"].Str? {
        return Exception(Thrown);
      }
      var dt := TypeOfName(v.fields["element_type"].s);
      if dt.None? {
        return Exception(Thrown);
      }
      AppendBytes([dt.value], target);
      if "elements" !in v.fields || v.fields["elements"].Null? {
        AppendBytes([0xFF, 0xFF], target);
        return Done;
      }
      var elements := v.fields["elements"];
      if !elements.Arr? {
        return Exception(Thrown);
      }
      :- EncodeUnsignedInteger(|elements.items|, 2, target);
      :- EncodeItems(DataType(dt.value), elements.items, target);
      return Done;
    }

    method EncodeErrorOr(success: Schema, v: Json, target: ByteVector) returns (r: Status)
      requires Ready() && !v.Null?
      modifies target
      ensures Appended(target, old(target.bytes), Enc(Ctx(), ErrorOrType(success), v), r)
      decreases v, 1, 0
    {
      hide Indexed, TypeOfName, EncLeaf, EncItems, EncTyped, EncProperties, KindOf, EncodeUnsigned;
      if !v.Obj? {
        return Exception(Thrown);
      }
      var status: nat := 0;
      if "error" in v.fields && !v.fields["error"].Null? {
        var error := v.fields["error"];
        if !error.Num? || error.n < 0 {
          return Exception(Thrown);
        }
        status := error.n % TWO_32;
      }
      :- EncodeUnsignedInteger(status, 1, target);
      if status == 0 {
        if "success" in v.fields {
          :- EncodeValue(success, v.fields["success"], target);
        } else {
          :- EncodeNull(success, target);
        }
      } else if "success" in v.fields && !v.fields["success"].Null? {
        return Exception(Thrown);
      }
      return Done;
    }

    method EncodeData(dt: byte, v: Json, target: ByteVector) returns (r: Status)
      requires Ready() && !v.Null?
      modifies target
      ensures Appended(target, old(target.bytes), Enc(Ctx(), DataType(dt), v), r)
      decreases v, 1, 0
    {
      hide Indexed, TypeOfName, EncLeaf, EncItems, EncTyped, EncProperties, KindOf, EncodeUnsigned;
      match KindOf(dt) {
        case Structure =>
          if !v.Arr? {
            return Exception(Thrown);
          }
          :- EncodeUnsignedInteger(|v.items|, 2, target);
          :- EncodeItems(VariantType, v.items, target);
          return Done;
        case TypedArray =>
          r := EncodeTyped(v, target);
        case k =>
          r := EncodeLeaf(k, v, target);
      }
    }

    /** Dispatch on the schema. */
    method EncodeValue(t: Schema, v: Json, target: ByteVector) returns (r: Status)
      requires Ready()
      modifies target
      ensures Appended(target, old(target.bytes), Enc(Ctx(), t, v), r)
      decreases v, 2, 0
    {
      hide Indexed, TypeOfName, EncLeaf, EncItems, EncTyped, EncProperties, KindOf, EncodeUnsigned;
      if v.Null? {
        r := EncodeNull(t, target);
        return;
      }
      match t {
        case VariantType =>
          r := EncodeVariant(v, target);
        case XiaomiFF01Type =>
          return Exception(Thrown);
        case DataType(dt) =>
          r := EncodeData(dt, v, target);
        case ObjectType(ps) =>
          if !v.Obj? {
            return Exception(Thrown);
          }
          r := EncodeObject(ps, v, target);
        case ArrayType(n, e) =>
          if !v.Arr? {
            return Exception(Thrown);
          }
          ghost var before := target.bytes;
          if n > 0 {
            :- EncodeUnsignedInteger(|v.items|, n, target);
          }
          :- EncodeItems(e, v.items, target);
          return Done;
        case ErrorOrType(s) =>
          r := EncodeErrorOr(s, v, target);
      }
    }
  }
}
