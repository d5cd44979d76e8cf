# Verification model of the AqaraHub ZigBee gateway

AqaraHub connects ZigBee devices, through a CC2531 dongle that speaks the ZNP protocol on a
serial line, to an MQTT broker. This project models its codecs and its state machines in
Dafny and proves the laws they are built on. It follows the program's own shape: what the
program computes is a function, what it does step by step is a method or a class proved
against that function, and the laws are lemmas about the functions and about whole runs.

- `DynamicTypes`, `DynamicSpec`: the schema language, JSON values, and what the schema-driven
  ZCL codec computes in either direction (ZigBee Cluster Library Specification, sections 2.5
  and 2.6.2). `DynamicLeaves`, `DynamicRoundTrip`, `DynamicReencode` and `DynamicTheorems`
  hold its laws; `DynamicDecoder` and `DynamicEncoder` are the codec as it runs, on a cursor
  that is shared and on a vector that grows.
- `DynamicWire`: the same codec type code by type code, in numbers: widths, values, what is
  accepted, and the names in the results.
- `FloatFormat`: the hand-written IEEE 754 encoder and decoder, generic in mantissa and
  exponent width, over exact reals.
- `ZnpEncoding`, `ZnpCodec`: the typed codec with its variants, as functions and as it runs
  on a buffer sized in advance; `ZnpWire`: its formats in numbers. `ZclFrame`: the bit-packed frame header.
- `ZnpApi`: the request and response dispatcher; `ZnpEvents`: the events it listens for, with
  the types of their arguments. `ZnpPort`: the serial framing.
- `Mqtt`: the publish and reconnect machine.
- `ClusterDb`, `SearchableList`, `DataTypes`: the schema grammar, the loader and the lookups;
  `ClusterLoad`: what a load puts where, and when it succeeds.
- `ZclEndpoint`: duplicate suppression and sequence numbers. `CommandPath` puts database,
  codec, frame and endpoint together.
- `WireExamples`: literal inputs, mostly from the repository's tests, that anchor the formats byte by
  byte. They are no laws; their rows stand at the end of the table.
- `Bytes`, `ZnpTypes`: shared definitions.

Where the code does something its comments or its callers do not expect, the model follows
the code, and the law is stated with the exact condition under which it holds:

- Values in the binade above the finite range of a float format are encoded with the reserved
  exponent (`FloatFormat.ReservedBinade`), though the comment promises the largest value.
- The signed range test accepts twice the two's-complement range
  (`DynamicLeaves.SignedRange`, `DynamicLeaves.SignedRoundTrip`).
- Bitmap bits from 31 up cannot be encoded (`DynamicLeaves.BitmapRoundTrip`).
- A packet id that is handed out again after a reconnect displaces a publish
  (`Mqtt.NothingIsLost`, `Mqtt.ReusedIdLosesAPublish`).
- Variant integers of 24, 40, 48 and 56 bits are neither sign-extended nor recognised as
  invalid, and a string16 variant loses its content (`ZnpEncoding.IntegerRoundTrip`,
  `ZnpEncoding.MistypedIsInvalid`).
- A global command hides a cluster command of the same name
  (`ClusterDb.ReceivedByIdSentByName`).

To verify: `dafny verify dfyconfig.toml`.

## Model

| member | source | states |
|---|---|---|
| DynamicTheorems.RoundTrip | src/dynamic_encoding/encoding.cpp:57-399 | For every schema with tail-only greedy arrays and distinct property names and every value the encoder accepts: decoding the encoding followed by any suffix returns the value and leaves the suffix if and only if the value is canonical (an arithmetic condition at every leaf: signed integers in two's complement, floats whole numbers of units below the overflow threshold, attribute ids given as names where they have one) and no string variant is met while FF01 is the attribute id read last |
| DynamicTheorems.ReencodeExact | src/dynamic_encoding/decoding.cpp:35-286 | For every input that decodes: re-encoding reproduces exactly the consumed bytes if and only if they are clean (bool bytes 00, 01 or FF, one NaN pattern, no FF01 block, integers below 8 bytes, bitmaps without bits from 31 up); an accepted re-encoding always has the consumed length |
| DynamicTheorems.DecodeEncodeDecode | src/dynamic_encoding/decoding.cpp:35-286 | Whenever a decoded value can be encoded again, decoding that gives the same value, length and attribute id as the first time |
| DynamicTheorems.SelfDelimiting | src/dynamic_encoding/decoding.cpp:9-26 | For every schema, value and length depend on the consumed bytes only: cutting the input right behind them changes nothing |
| DynamicTheorems.IndependentOfRest | src/dynamic_encoding/decoding.cpp:231-276 | Replacing what follows the consumed bytes changes nothing if something followed them, or if the schema has no greedy array and no FF01 block was read |
| DynamicTheorems.Transfer | src/dynamic_encoding/decoding.cpp:35-286 | The general form of both: an outcome carries over to any input that shares the consumed bytes and ends there, or goes on as the first did, or is never asked where it ends |
| DynamicTheorems.BlockExtent | src/dynamic_encoding/decoding.cpp:256-276 | An FF01 block consumes its length byte and then that many bytes, or all there are if there are fewer |
| DynamicTheorems.Terminates | src/dynamic_encoding/decoding.cpp:35-286 | If the elements of every greedy array consume at least one byte, decoding ends on every input; non-empty types make progress |
| DynamicTheorems.UnproductiveDiverges | src/dynamic_encoding/decoding.cpp:242-245 | A greedy array of elements that consume nothing repeats forever on every non-empty input |
| DynamicTheorems.StringAfterFF01 | src/dynamic_encoding/decoding.cpp:39-42 | While FF01 is the attribute id read last, no string variant ever comes back, whatever its text |
| DynamicTheorems.SignedCounterexample | src/dynamic_encoding/encoding.cpp:38-44 | 200 passes the range test of a one-byte signed integer and comes back as -56 |
| DynamicTheorems.BooleanCounterexample | src/dynamic_encoding/decoding.cpp:68-75 | Boolean byte 02 is read as true and written back as 01 |
| DynamicRoundTrip.RoundTripForward | src/dynamic_encoding/encoding.cpp:57-399 | The forward half of the round trip for all schemas, with the attribute id the decoder ends with |
| DynamicRoundTrip.RoundTripVariant | src/dynamic_encoding/encoding.cpp:69-99 | The same for variants: type byte, then the value under that type |
| DynamicRoundTrip.RoundTripProperties | src/dynamic_encoding/encoding.cpp:101-113 | The same for object properties in schema order, absent members counting as null |
| DynamicRoundTrip.RoundTripTyped | src/dynamic_encoding/encoding.cpp:274-308 | The same for the array, set and bag types |
| DynamicRoundTrip.RoundTripGreedy | src/dynamic_encoding/encoding.cpp:349-358 | The same for greedy arrays, which end with the input |
| DynamicRoundTrip.RoundTripErrorOr | src/dynamic_encoding/encoding.cpp:360-386 | The same for error-or values |
| DynamicRoundTrip.EncodingNonEmpty | src/dynamic_encoding/encoding.cpp:349-358 | Accepted values of a byte-consuming type encode to at least one byte, which is what keeps greedy arrays apart |
| DynamicReencode.Reencode | src/dynamic_encoding/decoding.cpp:35-286 | What re-encoding a decoded value does for all schemas: it gives the consumed bytes exactly when they are clean, and what was decoded is canonical whenever it is accepted |
| DynamicReencode.ReencodeVariant | src/dynamic_encoding/decoding.cpp:35-46 | The same for variants and FF01 blocks, which cannot be encoded at all |
| DynamicReencode.ReencodeProperties | src/dynamic_encoding/decoding.cpp:231-238 | The same for object properties |
| DynamicReencode.DecodedNames | src/dynamic_encoding/decoding.cpp:231-238 | A decoded object has exactly the schema's property names |
| DynamicLeaves.SignedRange | src/dynamic_encoding/encoding.cpp:32-55 | The signed range test accepts exactly -256^n up to but excluding 256^n, twice the two's-complement range |
| DynamicLeaves.SignedRoundTrip | src/dynamic_encoding/encoding.cpp:32-55 | An accepted signed integer comes back if and only if it is in the two's-complement range |
| DynamicLeaves.UnsignedRoundTrip | src/dynamic_encoding/encoding.cpp:32-55 | Unsigned integers are accepted exactly when they fit and the width is below 8, and then come back |
| DynamicLeaves.BitmapRoundTrip | src/dynamic_encoding/encoding.cpp:159-186 | A bitmap is accepted if and only if it has one Boolean for each bit, none from 31 up is set and its width is below 8 bytes; it then comes back bit by bit |
| DynamicLeaves.BitsAt | src/dynamic_encoding/decoding.cpp:87-91 | Element i of a decoded bitmap is the bit of weight 2^i |
| DynamicLeaves.BitmapReencode | src/dynamic_encoding/decoding.cpp:76-92 | A decoded bitmap can be encoded exactly when it is below 2^31 and narrower than 8 bytes, because bits are set through an int shift; then it gives its bytes back |
| DynamicLeaves.RealRoundTrip | src/dynamic_encoding/encoding.cpp:220-231 | A float comes back if and only if it is not finite, is zero, or lies below 2^(bias+1) and is a whole number of units in the last place of its format |
| DynamicLeaves.RealReencode | src/dynamic_encoding/decoding.cpp:123-140 | A float pattern is reproduced except for NaN patterns other than the one the encoder writes |
| DynamicLeaves.AttributeSurvives | src/dynamic_encoding/decoding.cpp:210-220 | An accepted attribute id comes back as given if and only if it is a name, or a number that has no name in the cluster |
| DynamicLeaves.AttributeReencode | src/dynamic_encoding/decoding.cpp:210-220 | An attribute id that was turned into a name, or left a number, maps back to the same id and is canonical |
| DynamicLeaves.AttributeRoundTrip | src/dynamic_encoding/encoding.cpp:310-335 | Whichever way an attribute id is given, the two bytes written are that id |
| DynamicLeaves.LeafRoundTrip | src/dynamic_encoding/encoding.cpp:120-347 | Round trip of every type that holds no other values |
| DynamicLeaves.LeafReencode | src/dynamic_encoding/decoding.cpp:48-229 | Re-encoding of every type that holds no other values, with its exact condition |
| DynamicDecoder.Decoder.DecodeInteger | src/dynamic_encoding/decoding.cpp:9-26 | The loop over the bytes reads their little-endian value, advances the shared cursor past them, and fails at the end of the window |
| DynamicDecoder.Decoder.DecodeVariant | src/dynamic_encoding/decoding.cpp:35-46 | Cursor, attribute id and result are those of the decoding function, with the FF01 branch |
| DynamicDecoder.Decoder.DecodeBlock | src/dynamic_encoding/decoding.cpp:256-276 | Likewise for the clipped sub-decoder of an FF01 block, which clears the attribute id |
| DynamicDecoder.Decoder.DecodeTyped | src/dynamic_encoding/decoding.cpp:187-208 | Likewise for the array, set and bag types |
| DynamicDecoder.Decoder.DecodeAttributeId | src/dynamic_encoding/decoding.cpp:210-220 | Likewise for attribute ids, which set the id read last |
| DynamicDecoder.Decoder.DecodeProperties | src/dynamic_encoding/decoding.cpp:231-238 | Likewise for the loop over properties |
| DynamicDecoder.Decoder.DecodeGreedy | src/dynamic_encoding/decoding.cpp:242-245 | Likewise for the loop to the end of the window, which ends for byte-consuming elements |
| DynamicDecoder.Decoder.DecodeErrorOr | src/dynamic_encoding/decoding.cpp:278-286 | Likewise for error-or |
| DynamicDecoder.Decoder.DecodeValue | src/dynamic_encoding/decoding.cpp:288-293 | Likewise for every schema |
| DynamicDecoder.BitLoop | src/dynamic_encoding/decoding.cpp:87-91 | The loop over bit positions yields the bits of the value, least significant first |
| DynamicEncoder.EncodeSignedInteger | src/dynamic_encoding/encoding.cpp:32-55 | Appends exactly the bytes of the encoding function to the target, or throws as it does |
| DynamicEncoder.EncodeBitItems | src/dynamic_encoding/encoding.cpp:176-184 | The running bit mask appends the bitmap's bytes, with the int shift's limits |
| DynamicEncoder.Encoder.EncodeVariant | src/dynamic_encoding/encoding.cpp:69-99 | What was in the target stays, and the encoding follows it |
| DynamicEncoder.Encoder.EncodeObject | src/dynamic_encoding/encoding.cpp:101-113 | Likewise for objects |
| DynamicEncoder.Encoder.EncodeTyped | src/dynamic_encoding/encoding.cpp:274-308 | Likewise for the array, set and bag types |
| DynamicEncoder.Encoder.EncodeItems | src/dynamic_encoding/encoding.cpp:355-357 | Likewise for the loops over elements |
| DynamicEncoder.Encoder.EncodeErrorOr | src/dynamic_encoding/encoding.cpp:360-386 | Likewise for error-or |
| DynamicEncoder.Encoder.EncodeValue | src/dynamic_encoding/encoding.cpp:388-395 | Likewise for every schema |
| DynamicWire.UnsignedDecodes | src/dynamic_encoding/decoding.cpp:93-104 | For each of uint8 to uint64: so many bytes, least significant first, are the value; too few throw |
| DynamicWire.SignedDecodes | src/dynamic_encoding/decoding.cpp:105-116 | For each of int8 to int64: two's complement with the sign in the top bit of the last byte; negative eight-byte integers are undefined |
| DynamicWire.EnumDecodes | src/dynamic_encoding/decoding.cpp:117-122 | The same for enum8 and enum16 |
| DynamicWire.DataDecodes | src/dynamic_encoding/decoding.cpp:51-67 | For each of data8 to data64: an array of its bytes |
| DynamicWire.BitmapDecodes | src/dynamic_encoding/decoding.cpp:76-92 | For each of map8 to map64: element j is the bit of weight 2^j |
| DynamicWire.Booleans | src/dynamic_encoding/decoding.cpp:68-75 | Boolean bytes and values, both ways |
| DynamicWire.FloatsDecode | src/dynamic_encoding/decoding.cpp:123-140 | Half, single and double precision take 2, 4 and 8 bytes with 10, 23 and 52 mantissa bits |
| DynamicWire.StringsDecode | src/dynamic_encoding/decoding.cpp:141-173 | Octet and character strings: one or two length bytes, all ones for null, and so many octets or characters |
| DynamicWire.StructuresDecode | src/dynamic_encoding/decoding.cpp:174-185 | A count of two bytes, all ones for null, and so many variants |
| DynamicWire.TypedArraysDecode | src/dynamic_encoding/decoding.cpp:187-208 | A type code, a count of two bytes, and so many values of that type, under the names the result has for them |
| DynamicWire.AttributeIdsDecode | src/dynamic_encoding/decoding.cpp:210-220 | Two bytes, given by the attribute's name if the cluster has one for them, and remembered |
| DynamicWire.EmptyTypes | src/dynamic_encoding/decoding.cpp:50-51 | The types nodata and unk take no bytes and hold null only, both ways |
| DynamicWire.OtherTypesFail | src/dynamic_encoding/decoding.cpp:224-227 | Every other type code throws, both ways |
| DynamicWire.UnsignedEncodes | src/dynamic_encoding/encoding.cpp:187-199 | For each of uint8 to uint56: exactly the numbers that fit are accepted, and written in so many bytes |
| DynamicWire.SignedEncodes | src/dynamic_encoding/encoding.cpp:200-212 | For each of int8 to int56: exactly the numbers of magnitude up to 256^n are accepted |
| DynamicWire.EnumEncodes | src/dynamic_encoding/encoding.cpp:213-219 | The same as for unsigned integers, for enum8 and enum16 |
| DynamicWire.LongUnsignedIsUndefined | src/dynamic_encoding/encoding.cpp:36-39 | Eight-byte integers shift by their own width, which is undefined |
| DynamicWire.DataEncodes | src/dynamic_encoding/encoding.cpp:130-150 | Exactly arrays of as many octets as the type has are accepted, and written as they are |
| DynamicWire.BitmapEncodes | src/dynamic_encoding/encoding.cpp:159-186 | Exactly arrays of as many Booleans as the type has bits are accepted, with none true from 31 up; bit j of what is written is element j |
| DynamicWire.FloatsEncode | src/dynamic_encoding/encoding.cpp:220-231 | Numbers are written in the format and width of the type; anything else throws |
| DynamicWire.StringsEncode | src/dynamic_encoding/encoding.cpp:232-260 | The length in one or two bytes and the octets, all ones for null; what is longer than the length can say throws |
| DynamicWire.StructuresEncode | src/dynamic_encoding/encoding.cpp:261-273 | The count and the variants, or all ones for null |
| DynamicWire.TypedArraysEncode | src/dynamic_encoding/encoding.cpp:274-308 | The type code for the name given, the count and the elements; absent elements are null |
| DynamicWire.AttributeIdsEncode | src/dynamic_encoding/encoding.cpp:310-335 | Null, names the cluster has and numbers of two bytes are accepted, and written as the id they mean |
| DynamicWire.ArraysEncode | src/dynamic_encoding/encoding.cpp:349-358 | A count in as many bytes as the type says, none for greedy arrays, and the elements |
| DynamicWire.ArraysDecode | src/dynamic_encoding/decoding.cpp:246-252 | The same, read back |
| DynamicWire.VariantsDecode | src/dynamic_encoding/decoding.cpp:35-46 | A type code and its value under the names the result has for them, or a block for a string while FF01 is remembered |
| DynamicWire.VariantsEncode | src/dynamic_encoding/encoding.cpp:69-99 | The code for the type's name and the value, null if there is none; null alone is the code of no data |
| DynamicWire.ErrorOrsDecode | src/dynamic_encoding/decoding.cpp:278-286 | Status 0 and the value, or another status alone, under the names the result has for them |
| DynamicWire.ErrorOrsEncode | src/dynamic_encoding/encoding.cpp:360-386 | For every object: the status cut to 32 bits, then the value if it is 0; other statuses must fit a byte and go alone |
| DynamicWire.MissingIsNull | src/dynamic_encoding/encoding.cpp:107-113 | A member that an object does not have is encoded as null |
| DynamicWire.WrongKindsThrow | src/dynamic_encoding/encoding.cpp:101-107 | Values of another kind than the type's throw, except null for an object without properties |
| DynamicWire.BlocksDecode | src/dynamic_encoding/decoding.cpp:256-276 | An FF01 block: its length, clipped, and keys with variants, read with no attribute id remembered; the result has their values under the keys as text, of equal keys the last one |
| DynamicWire.BlockEntries | src/dynamic_encoding/decoding.cpp:267-271 | The same for the entries up to the end of the window |
| DynamicWire.DecimalIsKeyText | src/dynamic_encoding/decoding.cpp:270 | A key as text is its decimal digits without leading zeros |
| DynamicWire.LastWinsAt | src/dynamic_encoding/decoding.cpp:270 | An entry is kept if no later one has its key |
| DynamicWire.LastWinsNames | src/dynamic_encoding/decoding.cpp:270 | There is a value for exactly the keys that occur |
| DynamicWire.FamilyNames | src/zcl/zcl_string_enum.h:26-62 | The names of the numbered families of types, and the missing one |
| DynamicWire.OtherNames | src/zcl/zcl_string_enum.h:26-82 | The names of all other types |
| DynamicWire.NamelessTypes | src/string_enum.h:29-34 | A code without a name is given by two upper-case hexadecimal digits |
| DataTypes.HexNames | src/string_enum.h:49-65 | Two hexadecimal digits in either case name their code |
| DataTypes.TypeNameRoundTrip | src/string_enum.h:24-66 | Names and codes of data types are inverse for all 256 codes, those without a name, data48 among them, through the hexadecimal fallback |
| DataTypes.XiaomiIsNoType | src/dynamic_encoding/decoding.cpp:272-275 | The marker of an FF01 block is no data type name, so such a block cannot be encoded back |
| FloatFormat.EncodeOfDecode | src/znp/encoding.h:311-398 | For every mantissa and exponent width: encoding a decoded pattern gives it back for every non-NaN pattern, with subnormals, both zeros and infinities |
| FloatFormat.RoundingError | src/znp/encoding.h:329-371 | Below 2^(bias+1) the decoded encoding is off by less than one unit in the last place, and by at most half a unit if and only if the mantissa was not clamped |
| FloatFormat.SurvivesIffRepresentable | src/znp/encoding.h:311-398 | For every mantissa and exponent width a value survives encoding and decoding if and only if it is not finite, is zero, or lies below 2^(bias+1) and is a whole number of units in the last place |
| FloatFormat.FieldsMeanIEEE | src/znp/encoding.h:376-396 | For every format and every sign, exponent and mantissa field: what the pattern stands for, in the terms of IEEE 754-2008 section 3.4 |
| FloatFormat.SpecialPatterns | src/znp/encoding.h:316-328 | The patterns written for NaN, the infinities and the zeros |
| FloatFormat.RoundsToNearest | src/znp/encoding.h:348-366 | A value is rounded to the nearest number of units, halves going up, the top of a binade being held below the next |
| FloatFormat.OneTenthIsLost | src/znp/encoding.h:311-398 | One tenth does not survive half precision |
| FloatFormat.ReproducedIffQuiet | src/znp/encoding.h:311-398 | A pattern is reproduced if and only if it is no NaN or the one NaN the encoder writes |
| FloatFormat.DecodedIsBounded | src/znp/encoding.h:380-396 | No pattern stands for a finite value at or above 2^(bias+1) |
| FloatFormat.RoundingMonotone | src/znp/encoding.h:325-398 | 0 <= x <= y below the overflow threshold, of either sign, keep their order through encoding and decoding |
| FloatFormat.RoundedMonotone | src/znp/encoding.h:329-371 | The same for the magnitudes of non-zero values |
| FloatFormat.EncodeMonotone | src/znp/encoding.h:329-371 | Larger magnitudes get larger exponent-and-mantissa fields |
| FloatFormat.DecodeMonotone | src/znp/encoding.h:388-396 | Larger fields decode to larger magnitudes |
| FloatFormat.OverflowIsLargest | src/znp/encoding.h:343-347 | From 2^(bias+2) up the encoding is the largest finite value of the format |
| FloatFormat.ReservedBinade | src/znp/encoding.h:341-355 | In the binade between, against the comment, the reserved exponent is written and the value comes back as an infinity or NaN; which of the two is stated exactly |
| FloatFormat.FractionInRange | src/znp/encoding.h:353-366 | The fraction is never negative, so the mantissa failure cannot happen |
| FloatFormat.EncodeFits | src/znp/encoding.h:368-370 | Every value is encoded into exactly the bits of the format |
| FloatFormat.DecodeOfEncode | src/znp/encoding.h:311-398 | Sign and rounded magnitude survive below the overflow threshold |
| FloatFormat.DecodedIsRepresentable | src/znp/encoding.h:372-398 | Whatever a pattern decodes to meets that condition |
| FloatFormat.QuietNaN | src/znp/encoding.h:316-320 | NaN is encoded as a NaN pattern |
| FloatFormat.EncodeFields | src/znp/encoding.h:330-366 | The branches on value, exponent and mantissa compute the fields and never throw |
| FloatFormat.EncodeFloat | src/znp/encoding.h:311-371 | The encoder as it runs computes the encoding function and never throws |
| FloatFormat.DecodeFloat | src/znp/encoding.h:372-398 | The decoder as it runs computes the decoding function |
| ZnpEncoding.RoundTrip | src/znp/encoding.h:482-501 | For every type the codec is instantiated with and every value of it that can be encoded: decoding the encoding followed by anything returns the value and its length if and only if every variant inside meets the condition of its type (lists below the all-ones length, integers that fit and are not the invalid marker, floats whole numbers of units, no string16); otherwise it never returns the value |
| ZnpEncoding.RoundTripWithoutVariants | src/znp/encoding.h:92-219 | Tuples, arrays, vectors of at most 255 elements, bit sets and bind targets round trip in front of any suffix, without condition |
| ZnpEncoding.EncodesInSize | src/znp/encoding.h:482-491 | Encoding succeeds exactly when vectors have at most 255 elements and variants hold the data their type needs, and then writes exactly the size computed in advance |
| ZnpEncoding.ReencodesIffClean | src/znp/encoding.h:495-501 | For every type and every input that decodes: the value is well typed, and encoding it gives exactly the bytes read if and only if flags are 0 or 1, NaN patterns are the one the encoder writes, and no variant is a string16 |
| ZnpEncoding.Reencode | src/znp/encoding.h:495-501 | The same, and bytes that are not clean differ from their re-encoding at some place they share |
| ZnpEncoding.ReencodeContent | src/zcl/encoding.cpp:46-371 | The same for every data type of a variant |
| ZnpEncoding.IntegerRoundTrip | src/zcl/encoding.cpp:239-284 | A variant integer survives if and only if it is not the invalid marker of the type that stores it and fits the bytes sent; an invalid one survives if and only if those have the same width |
| ZnpEncoding.RoundTripContent | src/zcl/encoding.cpp:94-371 | The exact survival condition for every data type of a variant that holds data: lists below the all-ones length, representable floats, never string16 |
| ZnpEncoding.RoundTripInvalid | src/zcl/encoding.cpp:46-284 | The same for invalid variants |
| ZnpEncoding.MistypedIsInvalid | src/zcl/encoding.cpp:232-234 | A string16 variant is written as an invalid list and read back as a string |
| ZnpEncoding.TargetRoundTrip | src/znp/encoding.h:401-480 | Bind targets of all five modes round trip in front of any suffix |
| ZnpEncoding.TargetReencodes | src/znp/encoding.h:445-479 | Every decoded bind target re-encodes to the bytes read |
| ZnpWire.UnsignedVariants | src/zcl/encoding.cpp:239-284 | For each of uint8 to uint64 as a variant: so many bytes, and which of their values is invalid, if any |
| ZnpWire.SignedVariants | src/zcl/encoding.cpp:239-284 | For each of int8 to int64 as a variant: two's complement and the invalid value where the width is a C++ integer's, never negative otherwise |
| ZnpWire.InvalidIntegers | src/zcl/encoding.cpp:247-263 | The bytes an invalid integer of each type is sent as |
| ZnpWire.PlainVariants | src/zcl/encoding.cpp:46-171 | No data, Booleans, octets and bit sets as variants, type code by type code |
| ZnpWire.FloatVariants | src/zcl/encoding.cpp:363-371 | Half, single and double precision as variants: width and format |
| ZnpWire.ListVariants | src/zcl/encoding.cpp:173-237 | Strings and structures as variants: length bytes, invalid length, and what a string16 becomes |
| ZnpWire.OtherVariantsFail | src/zcl/encoding.cpp:23-44 | Every other type code fails both ways |
| ZnpWire.TargetBytes | src/znp/encoding.h:423-444 | The bytes of a bind target in each of its five modes |
| ZnpWire.VectorBytes | src/znp/encoding.h:192-206 | A vector of octets is its length and the octets, an array is the octets |
| ZnpWire.SignedBytes | src/znp/encoding.h:55-58 | A negative integer of n bytes is sent as 256^n more |
| ZnpWire.FlagBytes | src/znp/encoding.h:253-256 | A flag is one byte, 1 or 0 |
| ZnpCodec.EncodeWhole | src/znp/encoding.h:482-491 | The two-pass encoder returns the encoding; its buffer is never too small for an encodable value and never too large |
| ZnpCodec.EncodeUnsigned | src/znp/encoding.h:23-32 | The shift loop writes the little-endian bytes at the cursor, touches nothing else, and fails exactly when they do not fit |
| ZnpCodec.EncodeItems | src/znp/encoding.h:76-82 | The loop over elements does so for a sequence of values |
| ZnpCodec.EncodeValue | src/znp/encoding.h:92-206 | Writing through the cursor gives the encoding and nothing else, and fails exactly when there is none or it does not fit |
| ZnpCodec.EncodeContent | src/zcl/encoding.cpp:94-371 | The same for the content of a variant |
| ZnpCodec.GetSize | src/znp/encoding.h:185-191 | The summing loops compute the size function |
| ZnpCodec.DecodeUnsigned | src/znp/encoding.h:33-42 | The shift loop reads the little-endian value or fails at the end of the data |
| ZnpCodec.DecodeItems | src/znp/encoding.h:83-89 | The loop over elements decodes them one behind the other |
| ZnpCodec.DecodeValue | src/znp/encoding.h:92-219 | Advancing the cursor computes the decoding function at every position |
| ZnpCodec.DecodeContent | src/zcl/encoding.cpp:94-371 | The same for the content of a variant |
| ZnpCodec.DecodePartial | src/znp/encoding.h:495-501 | Trailing bytes are ignored |
| ZnpCodec.DecodeWhole | src/znp/encoding.h:502-511 | Trailing bytes are an error |
| ZclFrame.FrameRoundTrip | src/zcl/encoding.h:20-67 | Decoding an encoded frame with anything behind it returns the frame with three bits of its reserved field and the rest as payload; the size is exact |
| ZclFrame.FrameSurvives | src/zcl/encoding.h:20-67 | A frame comes back if and only if its reserved field is below 8 |
| ZclFrame.FrameReencodes | src/zcl/encoding.h:43-67 | A byte string decodes exactly when it is long enough for its header, and is then the encoding of the frame it decodes to |
| ZclFrame.EncodeInto | src/zcl/encoding.h:20-42 | Writes the frame and nothing else, and succeeds exactly when the rest of the buffer has the frame's size |
| ZclFrame.EncodeHeader | src/zcl/encoding.h:23-36 | The header fields are written at the cursor |
| ZclFrame.DecodeWholeFrame | src/zcl/encoding.h:43-67 | The field-by-field decoder computes the decoding function |
| ZclEndpoint.SignalsSkipRepeats | src/zcl/zcl_endpoint.cpp:40-62 | For every device, the signals are those of its messages for this endpoint with consecutive repeats removed, starting from the empty message, however messages and commands are interleaved |
| ZclEndpoint.OthersDoNotMatter | src/zcl/zcl_endpoint.cpp:40-62 | Two histories with the same messages from a device give the same signals from it |
| ZclEndpoint.SendsAreNumbered | src/zcl/zcl_endpoint.cpp:64-87 | The n-th command to a device goes out as the bytes [0 or 1 for global or not, plus 8 if to the client; n modulo 256; command] and its payload, in order, and they decode to that command |
| ZclEndpoint.SignalsReadTheBytes | src/zcl/zcl_endpoint.cpp:50-61 | For every message: it signals exactly if it is long enough for its header and of type 0 or 1, and then scope, direction, command and payload are those of the bytes and the source that of the message |
| ZclEndpoint.CommandBytes | src/zcl/zcl_endpoint.cpp:71-82 | For every command: its frame's bytes are type and direction, number, command and payload |
| ZclEndpoint.SendsDoNotRepeat | src/zcl/zcl_endpoint.cpp:64-87 | Two commands in a row to one device never have the same bytes, so a receiver that drops repeats drops neither |
| ZclEndpoint.FrameGoesOut | src/zcl/zcl_endpoint.cpp:71-82 | What a command's frame encodes to decodes to that frame |
| ZclEndpoint.ZclEndpoint.OnIncomingMsg | src/zcl/zcl_endpoint.cpp:40-62 | The new maps and signals are those of the state machine; an undecodable frame throws only after its data was noted |
| ZclEndpoint.ZclEndpoint.SendCommand | src/zcl/zcl_endpoint.cpp:64-83 | The new maps and requests are those of the state machine |
| ZclEndpoint.ZclEndpoint.NextTransSeqNumFor | src/zcl/zcl_endpoint.cpp:85-87 | Returns the counter of one address, then advances it, wrapping at a byte |
| CommandPath.CommandArrives | src/main.cpp:152-183 | A command sent by name goes out as its bytes and arrives as the same command found by id, and its payload decodes to the arguments given if and only if they are canonical and no string variant is met while FF01 is the attribute id read last; the address lookup and the dongle's records around the frame are left out |
| Bytes.LeBytesAt | src/dynamic_encoding/encoding.cpp:52-54 | Byte i of an encoded integer is the one of weight 256^i |
| Bytes.LeValueAppend | src/dynamic_encoding/decoding.cpp:14-19 | A byte read after an integer so far is its most significant one |
| Bytes.LeRoundTrip | src/dynamic_encoding/decoding.cpp:14-19 | Reading the bytes of an integer that fits gives it back |
| Bytes.LeBytesOfValue | src/dynamic_encoding/encoding.cpp:52-54 | Writing the integer that bytes stand for gives them back |
| ZnpApi.KthAnswerResolvesKthRequest | src/znp/znp_api.cpp:332-346 | If requests that accept command c accept nothing else, whatever other requests and waits there are for other commands: every answer for c resolves a request if and only if answers never outnumber requests at any moment; and then the k-th request for c is resolved by the k-th response or RPC error for c with its outcome, and the later requests are those pending, whatever is interleaved |
| ZnpApi.RefinesFifo | src/znp/znp_api.cpp:454-501 | Seen from one command, every run of the dispatcher is a run of a first-in first-out queue |
| ZnpApi.WalkPending | src/znp/znp_api.cpp:332-346 | One frame along the handler list: an answer resolves the oldest request for its command, any other frame leaves those requests alone |
| ZnpApi.RpcErrorFailsOldestRequest | src/znp/znp_api.cpp:475-491 | In every reachable state the synchronous response of command 0/0 with bytes [status, 0x20 + subsystem, command], if no wait takes it and no request accepts 0/0, fails the oldest pending request for that command with that status, and resolves nothing when there is none |
| ZnpApi.OtherRpcErrorsAreIgnored | src/znp/znp_api.cpp:475-497 | With another length or another type in its second byte it resolves nothing |
| ZnpApi.ResponseAnswersOldestRequest | src/znp/znp_api.cpp:469-474 | Every other synchronous response answers the oldest pending request for its command with its payload |
| ZnpApi.TimersTimeOut | src/znp/znp_api.cpp:523-532 | In every reachable state a timer resolves its wait with a timeout if and only if the wait was made with a positive timeout and nothing has resolved it |
| ZnpApi.CreatedByCalls | src/znp/znp_api.cpp:397-434 | The p-th request or wait of a run makes the handler of promise p |
| ZnpApi.ReactionsAreRuns | src/znp/znp_api.cpp:332-346 | A frame with the calls its continuation makes is a run: the frame, and then the calls if it resolved or fired anything |
| ZnpEvents.SubscribedEventsFire | src/znp/znp_api.cpp:16-30 | In every reachable state an asynchronous frame for one of the six subscribed commands fires that signal and nothing else if its payload parses as the signal's argument types, all of it except for an incoming message, and no event handler hears it if not |
| ZnpEvents.DecodesIffParses | src/znp/znp_api.h:183-194 | For each of the six: the event is decoded exactly when the typed codec reads its arguments |
| ZnpApi.NeverResolvedTwice | src/znp/znp_api.cpp:508-547 | Over every run no promise is resolved twice, by response, RPC error or timeout |
| ZnpApi.NeverLost | src/znp/znp_api.cpp:508-547 | Over every run a promise is resolved, or some handler in the list can still resolve it, and never both |
| ZnpApi.StepResolvesAtMostOne | src/znp/znp_api.cpp:332-346 | One frame or timer resolves at most one promise or fires one signal, and forgets nothing |
| ZnpApi.HandlersKeepTheirOrder | src/znp/znp_api.cpp:10-31 | Over every run the constructor's handlers lead the list, and the surviving requests and waits stand in the order they were added |
| ZnpApi.EventsShadowWaits | src/znp/znp_api.h:170-199 | In every reachable state a well-formed event fires its signal and nothing else; a wait for the same command never sees it |
| ZnpApi.WaitsAreServedInOrder | src/znp/znp_api.cpp:412-424 | In every reachable state a frame that is no synchronous response and no well-formed event answers the oldest wait for it that has not timed out, with what follows its prefix, and nothing else |
| ZnpApi.RequestsAreServedInOrder | src/znp/znp_api.cpp:454-501 | In every reachable state, for arbitrary response sets: an answer for c that no wait takes resolves the oldest pending request that accepts c, with its outcome, and nothing when there is none |
| ZnpApi.FirstTakerIsAnswered | src/znp/znp_api.cpp:332-346 | For any handler list, any response sets and waits: a frame no event handler hears goes to the first request or wait that takes it, with the outcome it has for that handler, and to no other |
| ZnpApi.StepAnswersFirstTaker | src/znp/znp_api.cpp:332-346 | The same in every reachable state |
| ZnpApi.RunInvariant | src/znp/znp_api.cpp:332-346 | The invariant behind these holds in every reachable state: each promise has at most one handler, live or resolved exactly once, and timer flags belong to handlers in the list |
| ZnpApi.WalkAccounts | src/znp/znp_api.cpp:332-346 | What one frame does to one promise: nothing, or it takes its only handler and resolves it |
| ZnpApi.StopsHere | src/znp/znp_api.cpp:332-346 | Erasing the handler after its continuation has appended new ones comes to the same as making those calls after the frame |
| ZnpApi.ZnpApi.constructor | src/znp/znp_api.cpp:10-31 | The list starts with the six event handlers |
| ZnpApi.ZnpApi.AddSimpleEventHandler | src/znp/znp_api.h:170-199 | An event handler is added at the end of the list and nothing else changes |
| ZnpApi.ZnpApi.RawSReq | src/znp/znp_api.cpp:454-501 | A request's handler is appended and its frame sent; the invariant is kept |
| ZnpApi.ZnpApi.WaitFor | src/znp/znp_api.cpp:397-434 | A wait's handler is appended, with a timer flag if its timeout is positive; the invariant is kept |
| ZnpApi.ZnpApi.AddHandlerWithTimeout | src/znp/znp_api.cpp:508-547 | The flag shared with the timer is set exactly for positive timeouts |
| ZnpApi.ZnpApi.TimerFires | src/znp/znp_api.cpp:523-532 | A timer resolves its promise with a timeout only if its flag is still set |
| ZnpApi.ZnpApi.CallHandler | src/znp/znp_api.cpp:539-546 | One handler's effects, the flag being cleared after the continuation ran |
| ZnpApi.ZnpApi.OnFrame | src/znp/znp_api.cpp:332-346 | The walk that erases from the list while continuations append to it has the effect of one atomic step followed by the continuation's calls |
| ZnpPort.WireBytes | src/znp/znp_port.cpp:27-40 | For every frame: start byte, length, type and subsystem, command, payload, and a byte that makes the exclusive or of all but the start byte zero |
| ZnpPort.XorIsBitwise | src/znp/znp_port.cpp:36-39 | The exclusive or works on every bit |
| ZnpPort.ReceiverSynchronises | src/znp/znp_port.cpp:78-147 | For frames separated by bytes other than FE, some altered with a non-zero XOR difference: exactly the unaltered ones are delivered, in order, and the machine ends ready for the next |
| ZnpPort.NoiseBringsIdle | src/znp/znp_port.cpp:86-147 | From every state of the receive machine 259 bytes without a start byte bring it back to the idle state, with at most one frame delivered on the way |
| ZnpPort.ReceiverResynchronises | src/znp/znp_port.cpp:78-147 | Wherever the machine has got to, after such a pause exactly the intact frames that follow are delivered, in order |
| ZnpPort.AlteredIsDropped | src/znp/znp_port.cpp:132-141 | A body of the right length is dropped if and only if its XOR differs from that of the body sent |
| ZnpPort.SingleByteDiffers | src/znp/znp_port.cpp:132-141 | Changing one byte always changes the XOR |
| ZnpPort.AcceptedIffZero | src/znp/znp_port.cpp:132-141 | A body is accepted exactly when its bytes and its length cancel |
| ZnpPort.CheckOfBody | src/znp/znp_port.cpp:28-40 | The body built for a frame is accepted as that frame |
| ZnpPort.FrameIsRead | src/znp/znp_port.cpp:86-147 | From the idle state a frame is read to its end, whatever is in it, and delivered if it checks |
| ZnpPort.ReceiveConcat | src/znp/znp_port.cpp:78-147 | Receiving is independent of how the bytes are split |
| ZnpPort.EndToEnd | src/znp/znp_port.cpp:21-147 | Over any interleaving of sends and write completions, the completed writes, fed to a receiver, give back the first of the frames in call order, as many as completions came in for them |
| ZnpPort.SendingMakesProgress | src/znp/znp_port.cpp:46-76 | Over every run: the completed writes are the first accepted frames, as many as completions came in while something was unwritten, the others are queued, and a write is outstanding exactly while something is queued and none has failed |
| ZnpPort.SendsWithoutErrors | src/znp/znp_port.cpp:46-76 | Without write errors a write is outstanding exactly while something is queued, and as many completions as accepted frames put all of them on the line |
| ZnpPort.SendRunConserves | src/znp/znp_port.cpp:46-76 | Written buffers followed by queued ones are the accepted frames in call order, and a send is in progress exactly while the queue is not empty |
| ZnpPort.FillBuffer | src/znp/znp_port.cpp:27-40 | The buffer filled in place is the wire form of the frame |
| ZnpPort.ComputeCrc | src/znp/znp_port.cpp:36-39 | The accumulation loop computes the XOR of the range |
| ZnpPort.ZnpPort.SendFrame | src/znp/znp_port.cpp:21-44 | Payloads above 255 bytes throw and change nothing; otherwise the wire form is queued and a write started if none is under way |
| ZnpPort.ZnpPort.TrySend | src/znp/znp_port.cpp:46-62 | A write is started exactly when none is in progress and something is queued |
| ZnpPort.ZnpPort.SendHandler | src/znp/znp_port.cpp:64-76 | A completed write leaves the queue and the next one starts; after an error nothing is sent any more |
| ZnpPort.ZnpPort.FrameHandler | src/znp/znp_port.cpp:123-147 | The check byte decides whether the frame is delivered; reading starts over either way |
| ZnpPort.ZnpPort.ByteArrives | src/znp/znp_port.cpp:78-147 | The chain of read handlers is the receive machine |
| Mqtt.PublishesKeepTheirOrder | src/mqtt_wrapper_impl.h:97-177 | Over every run the publishes handed to the client followed by the offline queue are the publishes asked for, in order, across any number of disconnects; and the queue is empty while connected |
| Mqtt.Conservation | src/mqtt_wrapper_impl.h:97-268 | Over every run, with any packet ids, each publish is in exactly one place: queue, in flight, with the client at most once, completed, or displaced by a later publish with its packet id |
| Mqtt.NothingIsLost | src/mqtt_wrapper_impl.h:97-268 | Nothing is ever displaced if and only if every packet id acquired is new among those in flight; then each callback is in exactly one of the four places; in any case it runs at most once |
| Mqtt.OverwrittenIffNotFresh | src/mqtt_wrapper_impl.h:115-118 | The if and only if over whole runs, the drain after a reconnect included |
| Mqtt.PublishAllOverwrites | src/mqtt_wrapper_impl.h:158-163 | A drain displaces nothing if and only if its packet ids differ from each other and from those in flight |
| Mqtt.ReusedIdLosesAPublish | src/mqtt_wrapper_impl.h:115-118 | A run on which a packet id reused after a reconnect displaces a publish whose callback then never runs |
| Mqtt.InFlightIsLatest | src/mqtt_wrapper_impl.h:214-268 | At all times an in-flight packet id stands for the publish last handed over with it |
| Mqtt.HandedAreAccounted | src/mqtt_wrapper_impl.h:97-268 | Nothing is completed that was not handed to the client |
| Mqtt.SubscriptionsAreRenewed | src/mqtt_wrapper_impl.h:131-157 | While connected, the subscribe calls made on this connection are for all topics ever asked for |
| Mqtt.CallsAreThoseDue | src/mqtt_wrapper_impl.h:131-212 | Over every run: the connection state, the subscribe calls with their topics and in their order (all known topics on each accepted connection, and each new one while it is up), the connection attempts and the timers started are those read off the events alone |
| Mqtt.IdsAreTheNext | src/mqtt_wrapper_impl.h:115-118 | Over every run each publish is handed over with the next of the client's packet ids, or with 0 at most once |
| Mqtt.CompletionsFit | src/mqtt_wrapper_impl.h:214-268 | In every reachable state an event completes at most one publish, with the success and for the quality of service it stands for, and one that fits a publish in flight completes the publish last handed over with its id |
| Mqtt.StepKeepsInvariant | src/mqtt_wrapper_impl.h:97-268 | Every step keeps order, conservation, in-flight ids and subscriptions together |
| Mqtt.MqttWrapper.constructor | src/mqtt_wrapper_impl.h:16-26 | A new object is valid and disconnected, with nothing queued or in flight |
| Mqtt.MqttWrapper.Publish | src/mqtt_wrapper_impl.h:56-71 | A publish goes through the publishing step, and the object stays valid: order, conservation, in-flight ids and subscriptions hold of it after every method below |
| Mqtt.MqttWrapper.SafePublish | src/mqtt_wrapper_impl.h:97-129 | The new queue, in-flight map and hand-overs are those of the state machine |
| Mqtt.MqttWrapper.SafeSubscribe | src/mqtt_wrapper_impl.h:131-140 | Topics are remembered, and sent at once if connected |
| Mqtt.MqttWrapper.ConnAckHandler | src/mqtt_wrapper_impl.h:142-164 | The drain loop publishes the queue in order, after the subscriptions are renewed |
| Mqtt.MqttWrapper.ErrorHandler | src/mqtt_wrapper_impl.h:166-171 | An error disconnects and starts the timer |
| Mqtt.MqttWrapper.FinishHandler | src/mqtt_wrapper_impl.h:173-177 | The end of a connection disconnects and starts the timer |
| Mqtt.MqttWrapper.OnReconnectTimer | src/mqtt_wrapper_impl.h:192-212 | The timer connects only while disconnected |
| Mqtt.MqttWrapper.OnAsyncPublishCallback | src/mqtt_wrapper_impl.h:214-228 | An error completes the publish in flight under the id, if any |
| Mqtt.MqttWrapper.OnDirectCallback | src/mqtt_wrapper_impl.h:102-114 | The client's callback completes a publish it was handed without an id |
| Mqtt.MqttWrapper.PublishAcknowledgedHandler | src/mqtt_wrapper_impl.h:230-249 | Completes an at-least-once publish and ignores the others |
| Mqtt.MqttWrapper.PublishCompletedHandler | src/mqtt_wrapper_impl.h:250-268 | Completes an exactly-once publish and ignores the others |
| ClusterDb.ParseOfPrint | src/clusterdb/cluster_db.cpp:21-108 | Printing a schema to a type name and a property tree and parsing it gives the schema back with its property names mangled |
| ClusterDb.ParseOfPrintIsSame | src/clusterdb/cluster_db.cpp:21-108 | Printing and parsing gives back the same schema if and only if the name mangler leaves all its property names alone |
| ClusterDb.MangledIffFixed | src/clusterdb/cluster_db.cpp:24-34 | Mangling a schema leaves it as it is exactly when the mangler fixes every property name in it |
| ClusterDb.ParseThenMangle | src/clusterdb/cluster_db.cpp:21-108 | Parsing with a mangler is parsing without one and then mangling the names |
| ClusterDb.GrammarIsPrintable | src/clusterdb/cluster_db.cpp:47-108 | The schemas that parse are exactly the printable ones (no FF01, length sizes 0, 1 or 2) with their names mangled; with a mangler that changes no name, exactly the printable ones |
| ClusterDb.ParsedIsPrintable | src/clusterdb/cluster_db.cpp:47-108 | Everything that parses is in that class |
| ClusterDb.TypeNamesAreNoKeywords | src/clusterdb/cluster_db.cpp:51-102 | No data type is named like one of the grammar's prefixes or words |
| ClusterDb.ReportSchemaBehaves | clusters.info:30-37 | The entry for Report Attributes parses to a schema the codec's laws hold for |
| ClusterDb.LoadsKeepDbValid | src/clusterdb/cluster_db.cpp:110-262 | Over any loads, failed ones included: ids and names are unique and in range in every list, exactly the global commands are marked global, all schemas are in the grammar, and nothing stored is lost |
| ClusterDb.AttributesStayValid | src/clusterdb/cluster_db.cpp:143-184 | The attribute list of a loaded cluster is one the schema codec may use |
| ClusterLoad.ClusterLoads | src/clusterdb/cluster_db.cpp:186-220 | A cluster loads exactly when its sections are known, their entries can be read and no id or name is used twice in a list; then its attributes and the commands of either direction are those of its sections of that kind, in order |
| ClusterLoad.CommandsLoad | src/clusterdb/cluster_db.cpp:110-141 | A list of commands loads exactly when every entry can be read and no id or name is used twice, and holds one command an entry with its id, name, scope and arguments |
| ClusterLoad.AttributesLoad | src/clusterdb/cluster_db.cpp:143-184 | The same for attributes, with the data type of their type entry |
| ClusterLoad.EntryLoads | src/clusterdb/cluster_db.cpp:222-262 | An entry called global adds to the global commands, any other is a cluster with its id and name; and when either succeeds |
| ClusterLoad.LoadsInOrder | src/clusterdb/cluster_db.cpp:222-262 | Entries are loaded one after the other, up to the first that fails |
| ClusterLoad.DirectionsMatchSections | src/clusterdb/cluster_db.cpp:298-305 | Direction 1 finds the commands from server to client, 0 the others |
| ClusterLoad.GrammarWords | src/clusterdb/cluster_db.cpp:51-101 | Each prefix of the grammar, in front of anything, and its two words |
| ClusterDb.SentByNameReceivedById | src/clusterdb/cluster_db.cpp:287-326 | A command found by name is the one found by its id and scope |
| ClusterDb.ReceivedByIdSentByName | src/clusterdb/cluster_db.cpp:287-326 | The converse holds if and only if no global command hides the name |
| ClusterDb.ParseTypeFromPTree | src/clusterdb/cluster_db.cpp:47-108 | The parser as it runs computes the grammar's parse function |
| ClusterDb.ParseObjectTypeFromPTree | src/clusterdb/cluster_db.cpp:21-36 | Likewise for the loop over properties |
| ClusterDb.ParseCommandListFromPTree | src/clusterdb/cluster_db.cpp:110-141 | The loop leaves exactly what was added before the first bad entry |
| ClusterDb.ParseArgumentListFromPTree | src/clusterdb/cluster_db.cpp:143-184 | Likewise for attributes |
| ClusterDb.ParseClusterInfoFromPTree | src/clusterdb/cluster_db.cpp:186-220 | Likewise for the sections of a cluster |
| ClusterDb.ClusterDb.ParseFromPTree | src/clusterdb/cluster_db.cpp:222-262 | The lists after a load, complete or not, and their validity |
| SearchableList.AddedAllKeepsIndexes | src/clusterdb/searchable_list.h:17-33 | Over any sequence of Adds ids and names stay unique, nothing stored is lost or reordered, and an item is refused only for a clash |
| SearchableList.LookupsAreInverse | src/clusterdb/searchable_list.h:35-49 | Finding by id and finding by name are inverse on the stored items |
| SearchableList.IndexesAgree | src/clusterdb/searchable_list.h:51-54 | The two indexes answer as a linear search of the items does |
| SearchableList.SearchableList.Add | src/clusterdb/searchable_list.h:17-33 | Accepted exactly when neither id nor name is taken; a refused Add changes nothing |
| SearchableList.SearchableList.FindByName | src/clusterdb/searchable_list.h:35-41 | Equals a linear search by name |
| SearchableList.SearchableList.FindById | src/clusterdb/searchable_list.h:43-49 | Equals a linear search by id |
| WireExamples.Integers | tests/dynamic_encoding.cpp:21-24 | Example: the bytes of positive and negative 32-bit integers, both ways |
| WireExamples.HalfPrecision | tests/dynamic_encoding.cpp:25-33 | Example: the bytes of 123.375 and of the subnormal 2^-15 in half precision, both ways |
| WireExamples.Strings | src/dynamic_encoding/encoding.cpp:247-260 | Example: the bytes of short strings with one and two length bytes, and of null, both ways |
| WireExamples.ErrorOrsDecode | tests/dynamic_encoding.cpp:60-65 | Example: the bytes of a success and of an error, decoded |
| WireExamples.ErrorOrsEncode | tests/dynamic_encoding.cpp:60-65 | Example: the same, encoded |
| WireExamples.Report | tests/cluster_db.cpp:111-140 | Example: a report with two readings decodes to the attribute's name and its two values |
| WireExamples.ReportEncodes | src/dynamic_encoding/encoding.cpp:349-358 | Example: those two readings are encoded to the same bytes, and are a canonical value under a schema and context that meet every premise of the round trip |
| WireExamples.TypedVariant | tests/variant_encoding.cpp:48-49 | Example: the bytes of a typed 32-bit variant, both ways |
| WireExamples.PingFrame | src/znp/znp_port.cpp:27-40 | Example: the bytes of a ping frame with its check byte |
| WireExamples.ManufacturerFrame | src/zcl/encoding.h:20-42 | Example: the bytes of a frame with a manufacturer code |

## Left out

- CommandPath.CommandArrives: the address lookup and the dongle's data request and incoming message records between the two endpoints are not modelled, only the ZCL frame they carry.
- ZnpApi.KthAnswerResolvesKthRequest: is about commands that no request accepts together with others and no wait shares; for the one request that accepts two commands, and any other response sets, `RequestsAreServedInOrder` and `FirstTakerIsAnswered` say which request an answer goes to.
- ZnpPort.EndToEnd: assumes command types and subsystems below 16, which the header has room for.
- The conversions `as<T>` of the JSON library: an integer outside the range of T, and a double where an integer type is expected, are modelled as exceptions; converting a JSON double to float before encoding is modelled as exact.
- Operations that are undefined in C++ (shifts by the full width for 8-byte integers, int shifts by 31 or more) are one outcome of their own, about which nothing further is said.
- NaN payloads: all NaN patterns decode to one value.
- Rounding inside `log2`, `pow` and the other C++ floating-point operations: the float codec is modelled over exact reals, with the exponent the code's correction step aims at.
- Bit operations on disjoint fields (`|=` of shifted bytes and of the frame control fields) are modelled as sums.
- `std::stoul` on the ids in the cluster definitions is a parameter of the loader.
- The lists inside a loaded cluster are sequences searched in order; that the two-index list behaves like that is proved separately in `SearchableList`.
- The INFO text format of the cluster definitions and JSON text: the model starts from the property tree and the JSON value.
- Data types without an implementation (times, addresses, keys) only fail.
- `SysReset`, `WaitForState` and other listeners of signals: the dispatcher model ends where a signal fires.
- Continuations of a promise are modelled as the further requests and waits they make.
- The thin wrappers that compose a request, a wait and a decoder for each ZNP command.
- The serial port, timers, futures and the MQTT client library are steps of the environment; after a failed read nothing more is received.
- The MQTT client's choice of packet ids is an arbitrary stream; its set of used ids and the QoS handshakes behind it are not part of this model.
- `Publish` of the MQTT wrapper returns the future of the queued call, not of the publish; futures are not part of this model.
- Command line, logging, topic patterns and start-up in `src/main.cpp`, URI parsing, and all printers.
