/**
 ZCL data type codes: how the codec treats each code, and the names under which codes
 appear in JSON and in the cluster database.
 */
module DataTypes {
  import opened Bytes
  import opened FloatFormat

  const NODATA: byte := 0x00
  const BOOL: byte := 0x10
  const OCTSTR: byte := 0x41
  const STRING: byte := 0x42
  const ATTRIBID: byte := 0xe9
  const UNK: byte := 0xff

  /** The case of the codec's switch a data type code falls into; n is a byte count. */
  datatype Kind =
    | Empty
    | Octets(n: nat)
    | Boolean
    | Bitmap(n: nat)
    | Unsigned(n: nat)
    | Signed(n: nat)
    | Floating(format: Format)
    | OctetString(n: nat)
    | CharString(n: nat)
    | Structure
    | TypedArray
    | AttributeId
    | Unsupported

  /** The byte counts and formats that occur. */
  predicate WellSized(k: Kind) {
    match k
    case Octets(n) => 1 <= n <= 8
    case Bitmap(n) => 1 <= n <= 8
    case Unsigned(n) => 1 <= n <= 8
    case Signed(n) => 1 <= n <= 8
    case OctetString(n) => 1 <= n <= 2
    case CharString(n) => 1 <= n <= 2
    case Floating(f) => f == SEMI || f == SINGLE || f == DOUBLE
    case _ => true
  }

  function KindOf(dt: byte): (k: Kind)
    ensures WellSized(k)
  {
    if dt == NODATA || dt == UNK then Empty
    else if 0x08 <= dt <= 0x0f then Octets(1 + dt - 0x08)
    else if dt == BOOL then Boolean
    else if 0x18 <= dt <= 0x1f then Bitmap(1 + dt - 0x18)
    else if 0x20 <= dt <= 0x27 then Unsigned(1 + dt - 0x20)
    else if 0x28 <= dt <= 0x2f then Signed(1 + dt - 0x28)
    else if 0x30 <= dt <= 0x31 then Unsigned(1 + dt - 0x30)
    else if dt == 0x38 then Floating(SEMI)
    else if dt == 0x39 then Floating(SINGLE)
    else if dt == 0x3a then Floating(DOUBLE)
    else if dt == OCTSTR then OctetString(1)
    else if dt == STRING then CharString(1)
    else if dt == 0x43 then OctetString(2)
    else if dt == 0x44 then CharString(2)
    else if dt == 0x4c then Structure
    else if dt == 0x48 || dt == 0x50 || dt == 0x51 then TypedArray
    else if dt == ATTRIBID then AttributeId
    else Unsupported
  }

  // ----- Names -----

  const WIDTHS: seq<string> := ["8", "16", "24", "32", "40", "48", "56", "64"]

  /** The enumeration's name table; data48 is missing from it. */
  function KnownName(dt: byte): Option<string> {
    if 0x08 <= dt <= 0x0f && dt != 0x0d then Some("data" + WIDTHS[dt - 0x08])
    else if 0x18 <= dt <= 0x1f then Some("map" + WIDTHS[dt - 0x18])
    else if 0x20 <= dt <= 0x27 then Some("uint" + WIDTHS[dt - 0x20])
    else if 0x28 <= dt <= 0x2f then Some("int" + WIDTHS[dt - 0x28])
    else if 0x30 <= dt <= 0x31 then Some("enum" + WIDTHS[dt - 0x30])
    else OtherName(dt)
  }

  function OtherName(dt: byte): Option<string> {
    if dt == NODATA then Some("nodata")
    else if dt == BOOL then Some("bool")
    else if dt == 0x38 then Some("semi")
    else if dt == 0x39 then Some("single")
    else if dt == 0x3a then Some("double")
    else if dt == OCTSTR then Some("octstr")
    else if dt == STRING then Some("string")
    else if dt == 0x43 then Some("octstr16")
    else if dt == 0x44 then Some("string16")
    else if dt == 0x48 then Some("array")
    else if dt == 0x4c then Some("struct")
    else if dt == 0x50 then Some("set")
    else if dt == 0x51 then Some("bag")
    else if dt == 0xe0 then Some("ToD")
    else if dt == 0xe1 then Some("date")
    else if dt == 0xe2 then Some("UTC")
    else if dt == 0xe8 then Some("clusterId")
    else if dt == ATTRIBID then Some("attribId")
    else if dt == 0xea then Some("bacOID")
    else if dt == 0xf0 then Some("EUI64")
    else if dt == 0xf1 then Some("key128")
    else if dt == UNK then Some("unk")
    else None
  }

  const HEX := "0123456789ABCDEF"

  /** enum_to_string: the table's name, or two upper-case hexadecimal digits. */
  function TypeName(dt: byte): string {
    match KnownName(dt)
    case Some(name) => name
    case None => [HEX[dt / 16], HEX[dt % 16]]
  }

  function HexDigit(c: char): (d: Option<int>)
    ensures d.Some? ==> 0 <= d.value < 16
  {
    if '0' <= c <= '9' then Some(c as int - '0' as int)
    else if 'A' <= c <= 'F' then Some(10 + c as int - 'A' as int)
    else if 'a' <= c <= 'f' then Some(10 + c as int - 'a' as int)
    else None
  }

  /** The value of a string made of hexadecimal digits only. */
  function HexValue(s: string): Option<nat> {
    if s == [] then Some(0)
    else match (HexValue(s[..|s| - 1]), HexDigit(s[|s| - 1]))
      case (Some(high), Some(low)) => Some(16 * high + low)
      case (_, _) => None
  }

  function SkipSpaces(s: string): (r: string)
    ensures |r| <= |s|
  {
    if s != [] && (s[0] == ' ' || '\t' <= s[0] <= '\r') then SkipSpaces(s[1..]) else s
  }

  /** std::stoul(s, &end, 16) when it consumes all of s; None when it throws or stops short. */
  function ParseHex(s: string): Option<nat> {
    var s1 := SkipSpaces(s);
    var negative := s1 != [] && s1[0] == '-';
    var s2 := if s1 != [] && (s1[0] == '-' || s1[0] == '+') then s1[1..] else s1;
    var digits := if |s2| > 2 && s2[0] == '0' && (s2[1] == 'x' || s2[1] == 'X') then s2[2..] else s2;
    if digits == [] then None
    else match HexValue(digits)
      case None => None
      case Some(v) =>
        if v >= Pow2(64) then None
        else Some(if negative then (Pow2(64) - v) % Pow2(64) else v)
  }

  /** string_to_enum: the table read backwards, with the hexadecimal fallback. */
  function TypeOfName(s: string): Option<byte> {
    if exists dt: byte :: KnownName(dt) == Some(s) then
      NamesAreDistinct(s);
      var dt: byte :| KnownName(dt) == Some(s);
      Some(dt)
    else match ParseHex(s)
      case Some(v) => if v < 256 then Some(v) else None
      case None => None
  }

  /** Reads a type code back from the letters of its name; only used to compare names. */
  ghost function WidthIndex(s: string): int
    requires |s| >= 2
  {
    var a, b := s[|s| - 2], s[|s| - 1];
    if b == '6' then (if a == '1' then 1 else 6)
    else if b == '2' then 3
    else if b == '0' then 4
    else if b == '4' then (if a == '2' then 2 else 7)
    else if a == '4' then 5 else 0
  }

  ghost predicate Starts(s: string, a: char, b: char, c: char) {
    |s| >= 3 && s[0] == a && s[1] == b && s[2] == c
  }

  ghost function CodeOf(s: string): int
    requires |s| >= 3
  {
    if Starts(s, 'd', 'a', 't') && |s| >= 5 then 0x08 + WidthIndex(s)
    else if Starts(s, 'm', 'a', 'p') then 0x18 + WidthIndex(s)
    else if Starts(s, 'u', 'i', 'n') then 0x20 + WidthIndex(s)
    else if Starts(s, 'i', 'n', 't') then 0x28 + WidthIndex(s)
    else if Starts(s, 'e', 'n', 'u') then 0x30 + WidthIndex(s)
    else if Starts(s, 'o', 'c', 't') then (if |s| == 6 then 0x41 else 0x43)
    else if Starts(s, 's', 't', 'r') then (if |s| == 8 then 0x44 else if |s| > 3 && s[3] == 'i' then 0x42 else 0x4c)
    else if Starts(s, 'n', 'o', 'd') then 0x00
    else if Starts(s, 'b', 'o', 'o') then 0x10
    else if Starts(s, 's', 'e', 'm') then 0x38
    else if Starts(s, 's', 'i', 'n') then 0x39
    else if Starts(s, 'd', 'o', 'u') then 0x3a
    else if Starts(s, 'a', 'r', 'r') then 0x48
    else if Starts(s, 's', 'e', 't') then 0x50
    else if Starts(s, 'b', 'a', 'g') then 0x51
    else if Starts(s, 'T', 'o', 'D') then 0xe0
    else if Starts(s, 'd', 'a', 't') then 0xe1
    else if Starts(s, 'U', 'T', 'C') then 0xe2
    else if Starts(s, 'c', 'l', 'u') then 0xe8
    else if Starts(s, 'a', 't', 't') then 0xe9
    else if Starts(s, 'b', 'a', 'c') then 0xea
    else if Starts(s, 'E', 'U', 'I') then 0xf0
    else if Starts(s, 'k', 'e', 'y') then 0xf1
    else 0xff
  }

  lemma NameDecodes(dt: byte, s: string)
    requires KnownName(dt) == Some(s)
    ensures |s| >= 3 && CodeOf(s) == dt
  {
    if OtherName(dt).Some? {
      OtherNameDecodes(dt, s);
    } else {
      FamilyNameDecodes(dt, s);
    }
  }

  lemma OtherNameDecodes(dt: byte, s: string)
    requires OtherName(dt) == Some(s)
    ensures |s| >= 3 && CodeOf(s) == dt
  {
  }

  lemma FamilyNameDecodes(dt: byte, s: string)
    requires KnownName(dt) == Some(s) && OtherName(dt).None?
    ensures |s| >= 3 && CodeOf(s) == dt
  {
  }

  lemma NamesAreDistinct(s: string)
    ensures forall a: byte, b: byte | KnownName(a) == Some(s) && KnownName(b) == Some(s) :: a == b
  {
    forall a: byte, b: byte | KnownName(a) == Some(s) && KnownName(b) == Some(s) ensures a == b {
      NameDecodes(a, s);
      NameDecodes(b, s);
    }
  }

  /** Names and codes are inverse on every code, the unnamed data48 included. */
  lemma TypeNameRoundTrip(dt: byte)
    ensures TypeOfName(TypeName(dt)) == Some(dt)
  {
    var s := TypeName(dt);
    if KnownName(dt).Some? {
      NamesAreDistinct(s);
    } else {
      forall other: byte ensures KnownName(other) != Some(s) {
        if KnownName(other) == Some(s) {
          NameDecodes(other, s);
        }
      }
      TwoDigits(dt);
    }
  }

  lemma TwoDigits(dt: byte)
    ensures ParseHex([HEX[dt / 16], HEX[dt % 16]]) == Some(dt)
  {
    HexDigitOfHex(dt / 16);
    HexDigitOfHex(dt % 16);
    ParseTwoDigits(HEX[dt / 16], HEX[dt % 16], dt / 16, dt % 16);
  }

  lemma TwoTo64()
    ensures Pow2(64) >= 256
  {
    Pow2Monotone(8, 64);
    assert Pow2(8) == 256;
  }

  lemma HexDigitOfHex(d: nat)
    requires d < 16
    ensures HexDigit(HEX[d]) == Some(d)
    ensures '0' <= HEX[d] <= 'F'
    ensures HEX[d] != '+' && HEX[d] != '-' && HEX[d] != ' '
  {
  }

  /** The marker of a Xiaomi block is not a data type name, so it cannot be encoded back. */
  lemma XiaomiIsNoType()
    ensures TypeOfName("xiaomi_ff01").None?
  {
    var s := "xiaomi_ff01";
    forall dt: byte ensures KnownName(dt) != Some(s) {
      if KnownName(dt) == Some(s) {
        NameDecodes(dt, s);
      }
    }
    NotHex(s, 0);
  }

  /** One character that is no digit makes the whole string no number. */
  lemma {:induction false} NotHex(s: string, i: nat)
    requires i < |s| && HexDigit(s[i]).None?
    ensures HexValue(s).None?
  {
    if i < |s| - 1 {
      NotHex(s[..|s| - 1], i);
    }
  }

  /** Codes can also be given as two hexadecimal digits, in either case. */
  lemma HexNames(hi: nat, lo: nat)
    requires hi < 16 && lo < 16
    ensures TypeOfName(["0123456789ABCDEF"[hi], "0123456789ABCDEF"[lo]]) == Some(16 * hi + lo)
    ensures TypeOfName(["0123456789abcdef"[hi], "0123456789abcdef"[lo]]) == Some(16 * hi + lo)
  {
    hide Pow2, KnownName;
    TwoHexDigits("0123456789ABCDEF"[hi], "0123456789ABCDEF"[lo], hi, lo);
    TwoHexDigits("0123456789abcdef"[hi], "0123456789abcdef"[lo], hi, lo);
  }

  lemma TwoHexDigits(a: char, b: char, hi: nat, lo: nat)
    requires hi < 16 && lo < 16
    requires a == "0123456789ABCDEF"[hi] || a == "0123456789abcdef"[hi]
    requires b == "0123456789ABCDEF"[lo] || b == "0123456789abcdef"[lo]
    ensures TypeOfName([a, b]) == Some(16 * hi + lo)
  {
    hide ParseHex, KnownName;
    DigitOf(a, hi);
    DigitOf(b, lo);
    ParseTwoDigits(a, b, hi, lo);
    forall dt: byte
      ensures KnownName(dt) != Some([a, b])
    {
      if KnownName(dt) == Some([a, b]) {
        NameDecodes(dt, [a, b]);
      }
    }
  }

  lemma ParseTwoDigits(a: char, b: char, hi: nat, lo: nat)
    requires hi < 16 && lo < 16 && HexDigit(a) == Some(hi) && HexDigit(b) == Some(lo)
    ensures ParseHex([a, b]) == Some(16 * hi + lo)
  {
    hide Pow2;
    TwoTo64();
    assert [a, b][..1] == [a] && [a][..0] == [];
    assert HexValue([a]) == Some(hi);
    assert HexValue([a, b]) == Some(16 * hi + lo);
  }

  lemma DigitOf(c: char, d: nat)
    requires d < 16 && (c == "0123456789ABCDEF"[d] || c == "0123456789abcdef"[d])
    ensures HexDigit(c) == Some(d)
    ensures c != '+' && c != '-' && c != ' ' && c > '\r'
  {
  }
}
