/**
 The ZCL frame: a header whose first byte packs five fields, and everything after the header
 as payload.
 */
module ZclFrame {
  import opened Bytes
  import opened ZnpEncoding
  import opened ZnpCodec

  // Frame types; the field has two bits.
  const GLOBAL := 0
  const LOCAL := 1

  datatype Frame = Frame(
    frameType: nat,
    manufacturerCode: Option<nat>,
    direction: nat,
    disableDefaultResponse: bool,
    reserved: byte,
    sequence: byte,
    command: byte,
    payload: seq<byte>
  ) {
    /** The ranges of the enumerations and of the manufacturer code's type. */
    predicate Valid() {
      frameType < 4 && direction < 2 && (manufacturerCode.Some? ==> manufacturerCode.value < 0x10000)
    }
  }

  function Bit(b: bool): nat {
    if b then 1 else 0
  }

  /** The fields are shifted to different bits; what of reserved does not fit falls off. */
  function FrameControl(f: Frame): (b: byte)
    requires f.Valid()
  {
    f.frameType + 4 * Bit(f.manufacturerCode.Some?) + 8 * f.direction + 16 * Bit(f.disableDefaultResponse)
    + f.reserved * 32 % 256
  }

  function FrameSize(f: Frame): nat {
    (if f.manufacturerCode.Some? then 5 else 3) + |f.payload|
  }

  /** Everything in front of the payload. */
  function Header(f: Frame): seq<byte>
    requires f.Valid()
  {
    [FrameControl(f)] + (if f.manufacturerCode.Some? then LeBytes(f.manufacturerCode.value, 2) else [])
    + [f.sequence, f.command]
  }

  function EncodeFrame(f: Frame): seq<byte>
    requires f.Valid()
  {
    Header(f) + f.payload
  }

  function DecodeFrame(bs: seq<byte>): Option<Frame> {
    if bs == [] then None
    else
      var control := bs[0];
      var n := if control / 4 % 2 != 0 then 3 else 1;
      if |bs| < n + 2 then None
      else Some(Frame(
        control % 4,
        if n == 3 then Some(LeValue(bs[1..3])) else None,
        control / 8 % 2,
        control / 16 % 2 != 0,
        control / 32,
        bs[n],
        bs[n + 1],
        bs[n + 2..]))
  }

  lemma ControlFields(f: Frame)
    requires f.Valid()
    ensures var c := FrameControl(f);
      && c % 4 == f.frameType && c / 4 % 2 == Bit(f.manufacturerCode.Some?) && c / 8 % 2 == f.direction
      && c / 16 % 2 == Bit(f.disableDefaultResponse) && c / 32 == f.reserved % 8
  {
    var t, m, d, b, r := f.frameType, Bit(f.manufacturerCode.Some?), f.direction, Bit(f.disableDefaultResponse),
      f.reserved % 8;
    ModIs(f.reserved * 32, 256, f.reserved / 8, 32 * r);
    PackedFields(FrameControl(f), t, m, d, b, r);
  }

  /** Five fields packed into one number. */
  lemma PackedFields(c: nat, t: nat, m: nat, d: nat, b: nat, r: nat)
    requires c == t + 4 * m + 8 * d + 16 * b + 32 * r
    requires t < 4 && m < 2 && d < 2 && b < 2
    ensures c % 4 == t && c / 4 % 2 == m && c / 8 % 2 == d && c / 16 % 2 == b && c / 32 == r
  {
    ModIs(c, 4, m + 2 * d + 4 * b + 8 * r, t);
    ModIs(c, 8, d + 2 * b + 4 * r, t + 4 * m);
    ModIs(c, 16, b + 2 * r, t + 4 * m + 8 * d);
    ModIs(c, 32, r, t + 4 * m + 8 * d + 16 * b);
    ModIs(c / 4, 2, d + 2 * b + 4 * r, m);
    ModIs(c / 8, 2, b + 2 * r, d);
    ModIs(c / 16, 2, r, b);
  }

  lemma ControlOfFields(c: byte)
    ensures c == c % 4 + 4 * (c / 4 % 2) + 8 * (c / 8 % 2) + 16 * (c / 16 % 2) + c / 32 * 32 % 256
  {
    var q := c / 4;
    var q2 := q / 2;
    var q4 := q2 / 2;
    PackedFields(c, c % 4, q % 2, q2 % 2, q4 % 2, q4 / 2);
    ModIs(c / 32 * 32, 256, 0, c / 32 * 32);
  }

  /** Decoding an encoded frame keeps three bits of reserved, and whatever follows the frame
      becomes part of its payload. */
  lemma FrameRoundTrip(f: Frame, suffix: seq<byte>)
    requires f.Valid()
    ensures DecodeFrame(EncodeFrame(f) + suffix)
         == Some(f.(reserved := f.reserved % 8, payload := f.payload + suffix))
    ensures |EncodeFrame(f)| == FrameSize(f)
  {
    hide FrameControl, LeBytes, LeValue;
    ControlFields(f);
    var rest, bs := f.payload + suffix, EncodeFrame(f) + suffix;
    assert bs == Header(f) + rest;
    assert bs[0] == FrameControl(f) && bs[|Header(f)|..] == rest;
    if f.manufacturerCode.Some? {
      var code := f.manufacturerCode.value;
      assert Pow256(2) == 0x10000;
      LeRoundTrip(code, 2);
      assert bs[1..3] == LeBytes(code, 2);
    }
  }

  /** A frame survives exactly when its reserved field fits its three bits. */
  lemma FrameSurvives(f: Frame)
    requires f.Valid()
    ensures DecodeFrame(EncodeFrame(f)) == Some(f) <==> f.reserved < 8
  {
    FrameRoundTrip(f, []);
    assert EncodeFrame(f) + [] == EncodeFrame(f) && f.payload + [] == f.payload;
  }

  /** Every byte string long enough for its header is the encoding of exactly one frame. */
  lemma FrameReencodes(bs: seq<byte>)
    ensures DecodeFrame(bs).Some? <==> |bs| >= 3 && (bs[0] / 4 % 2 != 0 ==> |bs| >= 5)
    ensures DecodeFrame(bs).Some? ==>
      var f := DecodeFrame(bs).value; f.Valid() && f.reserved < 8 && EncodeFrame(f) == bs
  {
    hide LeBytes, LeValue;
    if DecodeFrame(bs).Some? {
      ControlOfFields(bs[0]);
      var f := DecodeFrame(bs).value;
      if f.manufacturerCode.Some? {
        assert Pow256(2) == 0x10000;
        LeBytesOfValue(bs[1..3]);
        assert bs == [bs[0]] + bs[1..3] + [bs[3], bs[4]] + bs[5..];
      } else {
        assert bs == [bs[0]] + [] + [bs[1], bs[2]] + bs[3..];
      }
    }
  }

  // ----- As it runs -----

  method EncodeHeader(f: Frame, target: array<byte>, begin: nat) returns (r: Option<nat>)
    requires f.Valid() && begin <= target.Length
    modifies target
    ensures Wrote(old(target[..]), target[..], begin, Some(Header(f)), r)
  {
    hide Written, LeBytes;
    ghost var s0 := target[..];
    var control: byte := 0;
    control := control + f.frameType;
    control := control + 4 * Bit(f.manufacturerCode.Some?);
    control := control + 8 * f.direction;
    control := control + 16 * Bit(f.disableDefaultResponse);
    control := control + f.reserved * 32 % 256;
    OneByte(control);
    r := EncodeUnsigned(control, 1, target, begin);
    if r.None? {
      return None;
    }
    ghost var done := [control];
    if f.manufacturerCode.Some? {
      ghost var s1, e := target[..], LeBytes(f.manufacturerCode.value, 2);
      var next := r.value;
      r := EncodeUnsigned(f.manufacturerCode.value, 2, target, next);
      WroteBoth(s0, s1, target[..], begin, Some(done), Some(e), next, r);
      if r.None? {
        return None;
      }
      done := done + e;
    }
    ghost var s2 := target[..];
    var middle := r.value;
    r := EncodeUnsigned(f.sequence, 1, target, middle);
    OneByte(f.sequence);
    WroteBoth(s0, s2, target[..], begin, Some(done), Some([f.sequence]), middle, r);
    if r.None? {
      return None;
    }
    ghost var s3 := target[..];
    var last := r.value;
    r := EncodeUnsigned(f.command, 1, target, last);
    OneByte(f.command);
    WroteBoth(s0, s3, target[..], begin, Some(done + [f.sequence]), Some([f.command]), last, r);
    assert done + [f.sequence] + [f.command] == Header(f);
  }

  /** Writes f into the rest of target, which must be of exactly the right size. */
  method EncodeInto(f: Frame, target: array<byte>, begin: nat) returns (r: Option<nat>)
    requires f.Valid() && begin <= target.Length
    modifies target
    ensures r.Some? <==> target.Length - begin == FrameSize(f)
    ensures r.Some? ==> r.value == target.Length && target[..] == old(target[..begin]) + EncodeFrame(f)
  {
    hide Written, LeBytes, FrameControl;
    ghost var s0 := target[..];
    r := EncodeHeader(f, target, begin);
    if r.None? {
      return None;
    }
    if target.Length - r.value != |f.payload| {
      return None;
    }
    ghost var s1 := target[..];
    CopyPayload(f.payload, target, r.value);
    HeaderThenPayload(s0, s1, target[..], begin, Header(f), f.payload);
    assert s0[..begin] == old(target[..begin]);
    return Some(target.Length);
  }

  method CopyPayload(payload: seq<byte>, target: array<byte>, begin: nat)
    requires begin + |payload| == target.Length
    modifies target
    ensures target[..] == old(target[..begin]) + payload
  {
    for i := 0 to |payload|
      invariant target[..begin] == old(target[..begin])
      invariant target[begin..begin + i] == payload[..i]
    {
      target[begin + i] := payload[i];
    }
    assert target[..] == target[..begin] + target[begin..begin + |payload|];
  }

  lemma HeaderThenPayload(s0: seq<byte>, s1: seq<byte>, s2: seq<byte>, begin: nat, header: seq<byte>,
      payload: seq<byte>)
    requires Written(s0, s1, begin, header) && begin + |header| + |payload| == |s0|
    requires s2 == s1[..begin + |header|] + payload
    ensures s2 == s0[..begin] + (header + payload)
  {
    assert s1[..begin + |header|] == s0[..begin] + header;
  }

  method EncodeWholeFrame(f: Frame) returns (bytes: seq<byte>)
    requires f.Valid()
    ensures bytes == EncodeFrame(f)
  {
    var target := new byte[FrameSize(f)];
    var end := EncodeInto(f, target, 0);
    return target[..];
  }

  method DecodeWholeFrame(data: seq<byte>) returns (frame: Option<Frame>)
    ensures frame == DecodeFrame(data)
  {
    hide LeValue;
    if data == [] {
      return None;
    }
    var control, begin := data[0], 1;
    var hasManufacturerCode := control / 4 % 2 != 0;
    var manufacturerCode := None;
    if hasManufacturerCode {
      var code := DecodeUnsigned(data, begin, 2);
      if code.Failed? {
        return None;
      }
      assert data[1..][..2] == data[1..3];
      manufacturerCode := Some(code.value);
      begin := begin + 2;
    }
    if begin == |data| || begin + 1 == |data| {
      return None;
    }
    frame := Some(Frame(control % 4, manufacturerCode, control / 8 % 2, control / 16 % 2 != 0, control / 32,
                        data[begin], data[begin + 1], data[begin + 2..]));
  }
}
