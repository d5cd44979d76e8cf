/**
 The typed codec as it runs: encoders that write through a cursor into a buffer whose size
 was computed in advance, decoders that advance a cursor over received bytes.
 */
module ZnpCodec {
  import opened Bytes
  import opened FloatFormat
  import opened DataTypes
  import opened ZnpEncoding

  /** after is before with bs written over it at begin. */
  ghost predicate Written(before: seq<byte>, after: seq<byte>, begin: nat, bs: seq<byte>) {
    begin + |bs| <= |before| && after == before[..begin] + bs + before[begin + |bs|..]
  }

  lemma WrittenNothing(s: seq<byte>, begin: nat)
    requires begin <= |s|
    ensures Written(s, s, begin, [])
  {
    assert s == s[..begin] + [] + s[begin..];
  }

  lemma WrittenBoth(s0: seq<byte>, s1: seq<byte>, s2: seq<byte>, begin: nat, a: seq<byte>, b: seq<byte>)
    requires Written(s0, s1, begin, a) && Written(s1, s2, begin + |a|, b)
    ensures Written(s0, s2, begin, a + b)
  {
    assert s1[..begin + |a|] == s0[..begin] + a;
    assert s1[begin + |a| + |b|..] == s0[begin + |a| + |b|..];
    assert (s0[..begin] + a) + b == s0[..begin] + (a + b);
  }

  /** Writing bs at begin fails exactly when it does not fit. */
  ghost predicate Wrote(before: seq<byte>, after: seq<byte>, begin: nat, e: Encoded, r: Option<nat>) {
    |before| == |after|
    && match r
       case None => e.None? || begin + |e.value| > |before|
       case Some(next) => e.Some? && next == begin + |e.value| <= |before| && Written(before, after, begin, e.value)
  }

  method EncodeUnsigned(value: nat, bytes: nat, target: array<byte>, begin: nat) returns (r: Option<nat>)
    requires begin <= target.Length
    modifies target
    ensures Wrote(old(target[..]), target[..], begin, Some(LeBytes(value, bytes)), r)
  {
    ghost var before := target[..];
    ghost var done: seq<byte> := [];
    var next, rest := begin, value;
    WrittenNothing(before, begin);
    assert [] + LeBytes(value, bytes) == LeBytes(value, bytes);
    for i := 0 to bytes
      invariant |done| == i && next == begin + i <= target.Length
      invariant LeBytes(value, bytes) == done + LeBytes(rest, bytes - i)
      invariant Written(before, target[..], begin, done)
    {
      if next == target.Length {
        return None;
      }
      ghost var was := target[..];
      target[next] := rest % 256;
      assert Written(was, target[..], next, [rest % 256]);
      WrittenBoth(before, was, target[..], begin, done, [rest % 256]);
      assert done + LeBytes(rest, bytes - i) == (done + [rest % 256]) + LeBytes(rest / 256, bytes - i - 1);
      done := done + [rest % 256];
      next, rest := next + 1, rest / 256;
    }
    assert done + [] == done;
    return Some(next);
  }

  method EncodeItems(t: Shape, items: seq<Value>, target: array<byte>, begin: nat) returns (r: Option<nat>)
    requires begin <= target.Length && AllHaveShape(t, items)
    modifies target
    ensures Wrote(old(target[..]), target[..], begin, EncAll(t, items), r)
    decreases items, 0
  {
    hide Enc, HasShape, Written;
    ghost var before := target[..];
    ghost var done: seq<byte> := [];
    var next := begin;
    WrittenNothing(before, begin);
    assert items[0..] == items;
    JoinNothing(EncAll(t, items));
    for i := 0 to |items|
      invariant next == begin + |done| <= target.Length
      invariant AllHaveShape(t, items[i..]) && EncAll(t, items) == Join(Some(done), EncAll(t, items[i..]))
      invariant Written(before, target[..], begin, done)
    {
      assert items[i..][0] == items[i] && items[i..][1..] == items[i + 1..];
      ghost var was, e := target[..], Enc(t, items[i]);
      var item := EncodeValue(t, items[i], target, next);
      if item.None? {
        return None;
      }
      WrittenBoth(before, was, target[..], begin, done, e.value);
      JoinAssociates(Some(done), e, EncAll(t, items[i + 1..]));
      done := done + e.value;
      next := item.value;
    }
    assert done + [] == done;
    WrittenFits(before, target[..], begin, done);
    return Some(next);
  }

  lemma WrittenFits(before: seq<byte>, after: seq<byte>, begin: nat, bs: seq<byte>)
    requires Written(before, after, begin, bs)
    ensures |before| == |after| && begin + |bs| <= |before|
  {
  }

  lemma JoinNothing(e: Encoded)
    ensures Join(Some([]), e) == e
  {
    if e.Some? {
      assert [] + e.value == e.value;
    }
  }

  lemma JoinAssociates(a: Encoded, b: Encoded, c: Encoded)
    ensures Join(a, Join(b, c)) == Join(Join(a, b), c)
  {
    if a.Some? && b.Some? && c.Some? {
      assert a.value + (b.value + c.value) == (a.value + b.value) + c.value;
    }
  }

  /** Two encodings written one after the other. */
  lemma WroteBoth(s0: seq<byte>, s1: seq<byte>, s2: seq<byte>, begin: nat, a: Encoded, b: Encoded, next: nat,
      r: Option<nat>)
    requires Wrote(s0, s1, begin, a, Some(next)) && Wrote(s1, s2, next, b, r)
    ensures Wrote(s0, s2, begin, Join(a, b), r)
  {
    if r.Some? {
      WrittenBoth(s0, s1, s2, begin, a.value, b.value);
    }
  }

  method EncodeTarget(v: BindTarget, target: array<byte>, begin: nat) returns (r: Option<nat>)
    requires begin <= target.Length && ValidTarget(v)
    modifies target
    ensures Wrote(old(target[..]), target[..], begin, Some(EncTarget(v)), r)
  {
    hide LeBytes, Written;
    ghost var s0 := target[..];
    var mode: byte := match v
      case NotPresent => 0
      case Group(_) => 1
      case ShortAddress(_) => 2
      case IEEEAddress(_, _) => 3
      case Broadcast => 255;
    OneByte(mode);
    var next := EncodeUnsigned(mode, 1, target, begin);
    if next.None? {
      return None;
    }
    ghost var s1 := target[..];
    match v
    case NotPresent => return next;
    case Broadcast => return next;
    case Group(id) =>
      r := EncodeUnsigned(id, 2, target, next.value);
      WroteBoth(s0, s1, target[..], begin, Some([mode]), Some(LeBytes(id, 2)), next.value, r);
    case ShortAddress(short) =>
      r := EncodeUnsigned(short, 2, target, next.value);
      WroteBoth(s0, s1, target[..], begin, Some([mode]), Some(LeBytes(short, 2)), next.value, r);
    case IEEEAddress(long, endpoint) =>
      r := EncodeUnsigned(long, 8, target, next.value);
      WroteBoth(s0, s1, target[..], begin, Some([mode]), Some(LeBytes(long, 8)), next.value, r);
      if r.None? {
        return None;
      }
      ghost var s2 := target[..];
      var middle := r.value;
      OneByte(endpoint);
      r := EncodeUnsigned(endpoint, 1, target, middle);
      WroteBoth(s0, s2, target[..], begin, Some([mode] + LeBytes(long, 8)), Some([endpoint]), middle, r);
  }

  lemma OneByte(b: byte)
    ensures LeBytes(b, 1) == [b]
  {
    assert LeBytes(b / 256, 0) == [];
  }

  method EncodeValue(t: Shape, v: Value, target: array<byte>, begin: nat) returns (r: Option<nat>)
    requires begin <= target.Length && HasShape(t, v)
    modifies target
    ensures Wrote(old(target[..]), target[..], begin, Enc(t, v), r)
    decreases v, 1
  {
    hide LeBytes, Written, EncTarget, EncAll, ContentOf, EncContent, EncInvalid;
    ghost var s0 := target[..];
    match t
    case UnsignedShape(n) => r := EncodeUnsigned(v.n, n, target, begin);
    case SignedShape(n) => r := EncodeUnsigned(ToUnsigned(v.n, n), n, target, begin);
    case FlagShape =>
      OneByte(if v.b then 1 else 0);
      r := EncodeUnsigned(if v.b then 1 else 0, 1, target, begin);
    case BitsetShape(n) => r := EncodeUnsigned(v.n, n, target, begin);
    case ArrayShape(_, element) => r := EncodeItems(element, v.items, target, begin);
    case TupleShape(first, rest) =>
      var next := EncodeValue(first, v.first, target, begin);
      if next.None? {
        return None;
      }
      ghost var s1 := target[..];
      r := EncodeValue(rest, v.rest, target, next.value);
      WroteBoth(s0, s1, target[..], begin, Enc(first, v.first), Enc(rest, v.rest), next.value, r);
    case VectorShape(element) =>
      if begin == target.Length || |v.items| > 255 {
        return None;
      }
      OneByte(|v.items|);
      var next := EncodeUnsigned(|v.items|, 1, target, begin);
      ghost var s1 := target[..];
      r := EncodeItems(element, v.items, target, next.value);
      WroteBoth(s0, s1, target[..], begin, Some([|v.items|]), EncAll(element, v.items), next.value, r);
    case BindShape => r := EncodeTarget(v.target, target, begin);
    case VariantShape =>
      OneByte(v.dt);
      var next := EncodeUnsigned(v.dt, 1, target, begin);
      if next.None? {
        return None;
      }
      ghost var s1 := target[..];
      if v.data.Some? {
        r := EncodeContent(ContentOf(v.dt), v.data.value, target, next.value);
        WroteBoth(s0, s1, target[..], begin, Some([v.dt]), EncContent(ContentOf(v.dt), v.data.value), next.value, r);
      } else {
        r := EncodeInvalid(ContentOf(v.dt), target, next.value);
        WroteBoth(s0, s1, target[..], begin, Some([v.dt]), EncInvalid(ContentOf(v.dt)), next.value, r);
      }
  }

  method EncodeContent(c: Content, v: Value, target: array<byte>, begin: nat) returns (r: Option<nat>)
    requires begin <= target.Length && WellSizedContent(c) && Holds(c, v)
    modifies target
    ensures Wrote(old(target[..]), target[..], begin, EncContent(c, v), r)
    decreases v, 2
  {
    hide LeBytes, Written, EncAll, Enc;
    ghost var s0 := target[..];
    match c
    case Tristate =>
      OneByte(if v.b then 1 else 0);
      r := EncodeUnsigned(if v.b then 1 else 0, 1, target, begin);
    case AsIs(shape) => r := EncodeValue(shape, v, target, begin);
    case List(n, element) =>
      var next := EncodeUnsigned(|v.items| % Pow256(n), n, target, begin);
      if next.None? {
        return None;
      }
      ghost var s1 := target[..];
      r := EncodeItems(element, v.items, target, next.value);
      WroteBoth(s0, s1, target[..], begin, Some(LeBytes(|v.items| % Pow256(n), n)), EncAll(element, v.items),
        next.value, r);
    case Integer(n, stored, signed) => r := EncodeUnsigned(ToUnsigned(v.n, stored), n, target, begin);
    case FloatOf(f) =>
      EncodeFits(f, v.x);
      var encoded := EncodeFloat(f, v.x);
      r := EncodeUnsigned(encoded.value, f.Width(), target, begin);
    case Mistyped =>
      TwoOnes();
      r := EncodeUnsigned(0xFFFF, 2, target, begin);
  }

  lemma TwoOnes()
    ensures LeBytes(0xFFFF, 2) == [0xFF, 0xFF]
  {
    assert LeBytes(0xFF, 1) == [0xFF] + LeBytes(0, 0);
  }

  method EncodeInvalid(c: Content, target: array<byte>, begin: nat) returns (r: Option<nat>)
    requires begin <= target.Length && WellSizedContent(c)
    modifies target
    ensures Wrote(old(target[..]), target[..], begin, EncInvalid(c), r)
  {
    match c
    case NoData =>
      WrittenNothing(target[..], begin);
      return Some(begin);
    case Tristate =>
      OneByte(0xFF);
      r := EncodeUnsigned(0xFF, 1, target, begin);
    case List(n, _) => r := EncodeUnsigned(Pow256(n) - 1, n, target, begin);
    case Integer(n, stored, signed) =>
      HalfOfPow256(stored);
      r := EncodeUnsigned(ToUnsigned(Invalid(stored, signed), stored), n, target, begin);
    case Mistyped =>
      TwoOnes();
      r := EncodeUnsigned(0xFFFF, 2, target, begin);
    case _ => return None;
  }

  // ----- Sizes -----

  method GetSizeOfItems(t: Shape, items: seq<Value>) returns (size: Option<nat>)
    requires AllHaveShape(t, items)
    ensures size == SizeOfAll(t, items)
    decreases items, 0
  {
    hide SizeOf, HasShape;
    var sum: nat := 0;
    assert items[0..] == items;
    for i := 0 to |items|
      invariant AllHaveShape(t, items[i..]) && SizeOfAll(t, items) == Add(Some(sum), SizeOfAll(t, items[i..]))
    {
      assert items[i..][0] == items[i] && items[i..][1..] == items[i + 1..];
      var item := GetSize(t, items[i]);
      if item.None? {
        return None;
      }
      sum := sum + item.value;
    }
    return Some(sum);
  }

  method GetSize(t: Shape, v: Value) returns (size: Option<nat>)
    requires HasShape(t, v)
    ensures size == SizeOf(t, v)
    decreases v, 1
  {
    hide SizeOfAll, SizeOfContent, ContentOf;
    match t
    case UnsignedShape(n) => size := Some(n);
    case SignedShape(n) => size := Some(n);
    case FlagShape => size := Some(1);
    case BitsetShape(n) => size := Some(n);
    case ArrayShape(_, element) => size := GetSizeOfItems(element, v.items);
    case TupleShape(first, rest) =>
      var a := GetSize(first, v.first);
      var b := GetSize(rest, v.rest);
      size := Add(a, b);
    case VectorShape(element) =>
      var items := GetSizeOfItems(element, v.items);
      size := Add(Some(1), items);
    case BindShape =>
      match v.target {
        case Group(_) => size := Some(3);
        case ShortAddress(_) => size := Some(3);
        case IEEEAddress(_, _) => size := Some(10);
        case _ => size := Some(1);
      }
    case VariantShape =>
      var content := GetSizeOfContent(ContentOf(v.dt), v.data);
      size := Add(Some(1), content);
  }

  method GetSizeOfContent(c: Content, data: Option<Value>) returns (size: Option<nat>)
    requires WellSizedContent(c) && (data.Some? ==> Holds(c, data.value))
    ensures size == SizeOfContent(c, data)
    decreases data, 3
  {
    hide SizeOf, SizeOfAll;
    match c
    case NoData => size := Some(0);
    case Tristate => size := Some(1);
    case AsIs(shape) =>
      if data.None? {
        return None;
      }
      size := GetSize(shape, data.value);
    case List(n, element) =>
      if data.None? {
        return Some(n);
      }
      var items := GetSizeOfItems(element, data.value.items);
      size := Add(Some(n), items);
    case Integer(n, _, _) => size := Some(n);
    case FloatOf(f) => size := if data.Some? then Some(f.Width()) else None;
    case Mistyped => size := Some(2);
    case Missing => size := None;
  }

  // ----- Whole values -----

  /** None stands for an exception. The buffer is never too small for a value that can be
      encoded, and never too large. */
  method EncodeWhole(t: Shape, v: Value) returns (bytes: Encoded)
    requires HasShape(t, v)
    ensures bytes == Enc(t, v)
  {
    EncodesInSize(t, v);
    var size := GetSize(t, v);
    if size.None? {
      return None;
    }
    var target := new byte[size.value];
    ghost var before := target[..];
    var end := EncodeValue(t, v, target, 0);
    if end.None? {
      return None;
    }
    if end.value != target.Length {
      assert false;
    }
    WrittenWhole(before, target[..], Enc(t, v).value);
    return Some(target[..]);
  }

  lemma WrittenWhole(before: seq<byte>, after: seq<byte>, bs: seq<byte>)
    requires Written(before, after, 0, bs) && |bs| == |before|
    ensures after == bs
  {
    assert before[..0] == [] && before[|bs|..] == [];
  }

  /** Trailing bytes are ignored. */
  method DecodePartial(t: Shape, data: seq<byte>) returns (v: Option<Value>)
    ensures v == (match Dec(t, data) case Failed => None case Got(value, _) => Some(value))
  {
    var r := DecodeValue(t, data, 0);
    assert data[0..] == data;
    return if r.Failed? then None else Some(r.value);
  }

  /** Trailing bytes are an error. */
  method DecodeWhole(t: Shape, data: seq<byte>) returns (v: Option<Value>)
    ensures v == (match Dec(t, data)
                  case Failed => None
                  case Got(value, k) => if k == |data| then Some(value) else None)
  {
    var r := DecodeValue(t, data, 0);
    assert data[0..] == data;
    if r.Failed? || r.used != |data| {
      return None;
    }
    return Some(r.value);
  }

  // ----- Decoding -----

  method DecodeUnsigned(data: seq<byte>, begin: nat, bytes: nat) returns (r: Decoded<nat>)
    requires begin <= |data|
    ensures r == if |data| - begin < bytes then Failed else Got(LeValue(data[begin..][..bytes]), bytes)
  {
    var value: nat, shifted: nat := 0, 1;
    for i := 0 to bytes
      invariant begin + i <= |data|
      invariant value == LeValue(data[begin..begin + i]) && shifted == Pow256(i)
    {
      if begin + i == |data| {
        return Failed;
      }
      LeValueAppend(data[begin..begin + i], data[begin + i]);
      assert data[begin..begin + i] + [data[begin + i]] == data[begin..begin + i + 1];
      value := value + data[begin + i] * shifted;
      shifted := 256 * shifted;
    }
    assert data[begin..begin + bytes] == data[begin..][..bytes];
    return Got(value, bytes);
  }

  method DecodeItems(t: Shape, n: nat, data: seq<byte>, begin: nat) returns (r: Decoded<seq<Value>>)
    requires begin <= |data|
    ensures r == DecAll(t, n, data[begin..])
    decreases |data| - begin, 1, t, 1
  {
    hide Dec, DecAll, After;
    var items, next := [], begin;
    GotAfter([], 0, DecAll(t, n, data[begin..]));
    for i := 0 to n
      invariant begin <= next <= |data|
      invariant DecAll(t, n, data[begin..]) == After(items, next - begin, DecAll(t, n - i, data[next..]))
    {
      var item := DecodeValue(t, data, next);
      ghost var rest := data[next..];
      DecAllStep(t, n - i, rest);
      if item.Failed? {
        AfterFailed(items, next - begin);
        return Failed;
      }
      DecUsed(t, rest);
      assert rest[item.used..] == data[next + item.used..];
      AfterAfter(items, next - begin, [item.value], item.used, DecAll(t, n - i - 1, data[next + item.used..]));
      items := items + [item.value];
      next := next + item.used;
    }
    DecAllEnd(t, data[next..], items, next - begin);
    return Got(items, next - begin);
  }

  /** The items read so far in front of those still to be read. */
  function After(items: seq<Value>, used: nat, rest: Decoded<seq<Value>>): Decoded<seq<Value>> {
    match rest
    case Failed => Failed
    case Got(vs, k) => Got(items + vs, used + k)
  }

  lemma GotAfter(items: seq<Value>, used: nat, rest: Decoded<seq<Value>>)
    requires items == [] && used == 0
    ensures After(items, used, rest) == rest
  {
    if rest.Got? {
      assert [] + rest.value == rest.value;
    }
  }

  lemma AfterAfter(a: seq<Value>, k: nat, b: seq<Value>, l: nat, rest: Decoded<seq<Value>>)
    ensures After(a, k, After(b, l, rest)) == After(a + b, k + l, rest)
  {
    if rest.Got? {
      assert a + (b + rest.value) == (a + b) + rest.value;
    }
  }

  lemma AfterFailed(items: seq<Value>, used: nat)
    ensures After(items, used, Failed) == Failed
  {
  }

  lemma DecAllStep(t: Shape, n: nat, bs: seq<byte>)
    requires n > 0
    ensures match Dec(t, bs)
      case Failed => DecAll(t, n, bs) == Failed
      case Got(v, k) => DecAll(t, n, bs) == After([v], k, DecAll(t, n - 1, bs[k..]))
  {
  }

  lemma DecAllEnd(t: Shape, bs: seq<byte>, items: seq<Value>, used: nat)
    ensures After(items, used, DecAll(t, 0, bs)) == Got(items, used)
  {
    assert items + [] == items;
  }

  lemma DecUsed(t: Shape, bs: seq<byte>)
    ensures Dec(t, bs).Got? ==> Dec(t, bs).used <= |bs|
  {
  }

  method DecodeTarget(data: seq<byte>, begin: nat) returns (r: Decoded<BindTarget>)
    requires begin <= |data|
    ensures r == DecTarget(data[begin..])
  {
    hide LeValue;
    ghost var bs := data[begin..];
    var mode := DecodeUnsigned(data, begin, 1);
    if mode.Failed? {
      return Failed;
    }
    OneByteValue(bs[..1]);
    match mode.value
    case 0 => r := Got(NotPresent, 1);
    case 255 => r := Got(Broadcast, 1);
    case 1 =>
      var id := DecodeUnsigned(data, begin + 1, 2);
      assert id.Got? ==> data[begin + 1..][..2] == bs[1..3];
      r := if id.Failed? then Failed else Got(Group(id.value), 3);
    case 2 =>
      var short := DecodeUnsigned(data, begin + 1, 2);
      assert short.Got? ==> data[begin + 1..][..2] == bs[1..3];
      r := if short.Failed? then Failed else Got(ShortAddress(short.value), 3);
    case 3 =>
      var long := DecodeUnsigned(data, begin + 1, 8);
      if long.Failed? {
        return Failed;
      }
      assert data[begin + 1..][..8] == bs[1..9];
      var endpoint := DecodeUnsigned(data, begin + 9, 1);
      if endpoint.Failed? {
        return Failed;
      }
      OneByteValue(data[begin + 9..][..1]);
      assert data[begin + 9..][0] == bs[9];
      r := Got(IEEEAddress(long.value, endpoint.value), 10);
    case _ => r := Failed;
  }

  lemma OneByteValue(bs: seq<byte>)
    requires |bs| == 1
    ensures LeValue(bs) == bs[0]
  {
    assert LeValue(bs[1..]) == 0;
  }

  method DecodeValue(t: Shape, data: seq<byte>, begin: nat) returns (r: Decoded<Value>)
    requires begin <= |data|
    ensures r == Dec(t, data[begin..])
    decreases |data| - begin, 1, t, 0
  {
    hide LeValue, DecAll, DecContent, DecTarget;
    ghost var bs := data[begin..];
    match t
    case UnsignedShape(n) =>
      var u := DecodeUnsigned(data, begin, n);
      r := if u.Failed? then Failed else Got(Num(u.value), n);
    case SignedShape(n) =>
      var u := DecodeUnsigned(data, begin, n);
      r := if u.Failed? then Failed else Got(Num(ToSigned(u.value, n)), n);
    case FlagShape =>
      var u := DecodeUnsigned(data, begin, 1);
      if u.Failed? {
        return Failed;
      }
      OneByteValue(bs[..1]);
      r := Got(Flag(u.value > 0), 1);
    case BitsetShape(n) =>
      var u := DecodeUnsigned(data, begin, n);
      r := if u.Failed? then Failed else Got(Num(u.value), n);
    case ArrayShape(length, element) =>
      var items := DecodeItems(element, length, data, begin);
      r := if items.Failed? then Failed else Got(Items(items.value), items.used);
    case TupleShape(first, rest) =>
      var a := DecodeValue(first, data, begin);
      if a.Failed? {
        return Failed;
      }
      DecUsed(first, bs);
      assert bs[a.used..] == data[begin + a.used..];
      var b := DecodeValue(rest, data, begin + a.used);
      r := if b.Failed? then Failed else Got(Tuple(a.value, b.value), a.used + b.used);
    case VectorShape(element) =>
      if begin == |data| {
        return Failed;
      }
      assert bs[1..] == data[begin + 1..];
      var items := DecodeItems(element, data[begin], data, begin + 1);
      r := if items.Failed? then Failed else Got(Items(items.value), 1 + items.used);
    case BindShape =>
      var target := DecodeTarget(data, begin);
      r := if target.Failed? then Failed else Got(Target(target.value), target.used);
    case VariantShape =>
      var dt := DecodeUnsigned(data, begin, 1);
      if dt.Failed? {
        return Failed;
      }
      OneByteValue(bs[..1]);
      assert bs[1..] == data[begin + 1..];
      r := DecodeContent(dt.value, data, begin + 1);
  }

  method DecodeContent(dt: byte, data: seq<byte>, begin: nat) returns (r: Decoded<Value>)
    requires begin <= |data|
    ensures r == DecContent(dt, data[begin..])
    decreases |data| - begin + 1, 0, OCTET, 0
  {
    hide LeValue, Dec, DecList, Decode, Pow2;
    ghost var bs := data[begin..];
    match ContentOf(dt)
    case NoData => r := Got(Variant(dt, None), 1);
    case Tristate =>
      var u := DecodeUnsigned(data, begin, 1);
      if u.Failed? {
        return Failed;
      }
      OneByteValue(bs[..1]);
      if u.value == 0xFF {
        r := Got(Variant(dt, None), 2);
      } else if u.value <= 1 {
        r := Got(Variant(dt, Some(Flag(u.value > 0))), 2);
      } else {
        r := Failed;
      }
    case AsIs(shape) =>
      var v := DecodeValue(shape, data, begin);
      r := if v.Failed? then Failed else Got(Variant(dt, Some(v.value)), 1 + v.used);
    case List(n, element) => r := DecodeList(dt, n, element, data, begin);
    case Mistyped => r := DecodeList(STRING, 2, OCTET, data, begin);
    case Integer(n, stored, signed) =>
      var u := DecodeUnsigned(data, begin, n);
      if u.Failed? {
        return Failed;
      }
      var v := if signed then ToSigned(u.value, stored) else u.value;
      r := Got(Variant(dt, if v == Invalid(stored, signed) then None else Some(Num(v))), 1 + n);
    case FloatOf(f) =>
      var raw := DecodeUnsigned(data, begin, f.Width());
      if raw.Failed? {
        return Failed;
      }
      FloatBits(f, bs[..f.Width()]);
      var x := DecodeFloat(f, raw.value);
      r := Got(Variant(dt, Some(Real(x))), 1 + f.Width());
    case Missing => r := Failed;
  }

  lemma FloatBits(f: Format, bs: seq<byte>)
    requires f == SEMI || f == SINGLE || f == DOUBLE
    requires |bs| == f.Width()
    ensures LeValue(bs) < 2 * Pow2(f.man + f.exp)
  {
    hide Pow2, Pow256, LeValue;
    Pow256IsPow2(f.Width());
    TwicePow2(f.man + f.exp);
    assert 8 * f.Width() == f.man + f.exp + 1;
  }

  method DecodeList(dt: byte, n: nat, element: Shape, data: seq<byte>, begin: nat) returns (r: Decoded<Value>)
    requires begin <= |data| && n >= 1
    ensures r == DecList(dt, n, element, data[begin..])
    decreases |data| - begin, 2, element, 0
  {
    hide LeValue, DecAll, Pow256;
    ghost var bs := data[begin..];
    var length := DecodeUnsigned(data, begin, n);
    if length.Failed? {
      return Failed;
    }
    if length.value == Pow256(n) - 1 {
      return Got(Variant(dt, None), 1 + n);
    }
    assert bs[n..] == data[begin + n..];
    var items := DecodeItems(element, length.value, data, begin + n);
    r := if items.Failed? then Failed else Got(Variant(dt, Some(Items(items.value))), 1 + n + items.used);
  }
}
