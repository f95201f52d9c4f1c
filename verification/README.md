# zigpy basic wire types, modelled in Dafny

This project models the byte-level codecs of zigpy's basic Zigbee types
(`zigpy/types/basic.py`). Every type there follows one convention:
- `serialize()` returns bytes or raises `ValueError`.
- `deserialize(data)` returns `(value, rest)` or raises `ValueError`.
- Callers chain fields by passing `rest` on to the next decode.

Here, an encode is a pure function returning `Result` (`Success(bytes)` or
`Failure(error)`). A decode returns `Decoded` (`Ok(value, rest)` or
`Err(error)`). Bytes are `seq<Byte>`, with `Byte` the integers 0..255.

Modules, one per concern of the original:

| module | models |
|---|---|
| `Wire` | bytes, the error kinds, the two result shapes, and a generic `Codec` (a pair of encode and decode functions) for the generic wrappers |
| `Bits`, `LittleEndian` | Python's `>>`, `<<`, `&`, `\|` on non-negative integers, and `int.to_bytes` / `int.from_bytes` in little-endian order |
| `FixedInt` | `FixedIntType` and its sixteen sized subclasses (`int8s` .. `int64s`, `uint8_t` .. `uint64_t`) |
| `FloatFormat` | `BaseFloat._convert_format`, the integer bit conversion between `Half`, `Single` and `Double` |
| `OctetString` | `LVBytes` and `LongOctetString` |
| `CharString` | `CharacterString`, `LongCharacterString` and `LimitedCharString` |
| `Collections` | `List`, `LVList` and `FixedList`, generic over the item codec |
| `OptionalType` | `Optional(item_type)` |
| `Digits`, `Enums` | the text-to-integer reading of `_IntEnumMeta.__call__` and `enum_factory`'s `_missing_`, with `enum8` and `enum16` |
| `Instances` | `data8` .. `data64`, and small worked cases |

Every `ValueError` of the original is a `Failure`/`Err` with a kind:
- `RangeError`: the value is outside the integer type's range.
- `Truncated`: the input is too short.
- `LengthExceeded`: the payload is too long.
- `Validation`: a fixed list has the wrong length.
- `InvalidLiteral`: the text is not a number.

One kind has no counterpart in the original. `NoProgress` marks the one
place where the original does not terminate: a greedy `List` decode whose
item decode consumes nothing.

## Model

All source cells refer to `zigpy/types/basic.py`.

| member | source | states |
|---|---|---|
| FixedInt.Serialize | zigpy/types/basic.py:43-48 | Encoding succeeds exactly for values in the type's range: `[0, 256^size - 1]` unsigned, `[-2^(8·size-1), 2^(8·size-1) - 1]` signed. Outside it, the error is the range error. On success the result is `size` bytes that read back as the value, little-endian and in two's complement. |
| FixedInt.Construct | zigpy/types/basic.py:13-20 | Construction succeeds exactly when serializing would, and keeps the value; otherwise it fails with the same range error. |
| FixedInt.Deserialize | zigpy/types/basic.py:51-57 | Decoding fails exactly when fewer than `size` bytes are given. Otherwise the value is in range and its encoding is exactly the first `size` bytes, and the remainder is what follows them. |
| FixedInt.SerializeFromPattern | zigpy/types/basic.py:51-57 | Every `size`-byte pattern reads as an in-range value whose encoding is that same pattern. |
| FixedInt.RoundTrip | zigpy/types/basic.py:43-57 | Decoding the encoding of any in-range value, followed by any bytes, gives the value and exactly those bytes. |
| FixedInt.IntCodecWellBehaved | zigpy/types/basic.py:43-57 | As a generic codec, an integer type round-trips, never encodes to nothing, and returns a suffix of its input. |
| FixedInt.Examples | zigpy/types/basic.py:43-57 | `uint16_t(0x1234)` encodes as `34 12`; decoding `34 12 FF` gives 0x1234 and leaves `FF`. |
| FixedInt.SignedExample | zigpy/types/basic.py:43-48 | `int16s(-2)` encodes in two's complement as `FE FF`. |
| FixedInt.RangeExamples | zigpy/types/basic.py:43-48 | 256 and -1 are refused by `uint8_t`, and -129 by `int8s`. |
| Bits.ShrIsDiv | zigpy/types/basic.py:240 | `n >> k` is `n` divided by `2^k`, rounded down. |
| Bits.AndLowMask | zigpy/types/basic.py:241-242 | `n & ((1 << k) - 1)` is `n mod 2^k`. |
| Bits.OrDisjoint | zigpy/types/basic.py:261-265 | Or-ing a multiple of `2^k` with a number below `2^k` is their sum. |
| FloatFormat.TargetExponent | zigpy/types/basic.py:243-253 | The destination's biased exponent always fits the destination's exponent field. |
| FloatFormat.ResizeFractionBound | zigpy/types/basic.py:255-259 | A fraction, after right truncation or zero extension, fits the destination's fraction field. |
| FloatFormat.FieldsOfWord | zigpy/types/basic.py:240-242 | Reading sign, exponent and fraction out of a word assembled from fitting fields gives those fields back. |
| FloatFormat.WordOfFields | zigpy/types/basic.py:240-242 | Every word is the assembly of the sign, exponent and fraction read out of it. |
| FloatFormat.OrAssemble | zigpy/types/basic.py:261-265 | `sign << (E+F) \| exp << F \| frac`, with fields that fit, is the word with those fields. |
| FloatFormat.Reformat | zigpy/types/basic.py:240-265 | The shift-and-mask conversion, for any floor, gives a word with the source's sign, the destination exponent of the source's exponent, and the resized fraction. |
| FloatFormat.ConvertFormat | zigpy/types/basic.py:229-265 | The conversion as written keeps the sign, maps the exponent by its three classes with the floor `2 - 2^(E-1)`, and truncates or zero-extends the fraction from the right. |
| FloatFormat.ConvertExponentClasses | zigpy/types/basic.py:245-253 | The destination exponent is all ones exactly when the source's is, and zero exactly when the source's is. Any other exponent is the clamped, re-biased value, strictly between the two and never 1. |
| FloatFormat.ResizeWidenNarrow | zigpy/types/basic.py:255-259 | Zeros appended to a fraction when widening are dropped again when narrowing. |
| FloatFormat.ResizeNarrowWiden | zigpy/types/basic.py:255-259 | Narrowing and then widening a fraction clears exactly the bits the narrow format lacks. |
| FloatFormat.TargetWidenNarrow | zigpy/types/basic.py:243-253 | An exponent carried to a format at least as wide and back is restored when both floors admit it. |
| FloatFormat.ReformatWidenNarrow | zigpy/types/basic.py:229-265 | A word carried to a format at least as wide and back is restored when both floors admit its exponent. |
| FloatFormat.WidenThenNarrow | zigpy/types/basic.py:229-265 | As written, widening then narrowing restores every word whose biased exponent is not 1. |
| FloatFormat.WidenThenNarrowSmallestNormal | zigpy/types/basic.py:250-253 | As written, a word with biased exponent 1 comes back with biased exponent 2 and an unchanged sign and fraction, that is, increased by `2^F`. |
| FloatFormat.HalfSmallestNormalDrifts | zigpy/types/basic.py:250-253 | The smallest normal `Half` word `0x0400`, widened to `Double` and narrowed back, becomes `0x0800`. |
| FloatFormat.ConvertFormatCorrected | zigpy/types/basic.py:250-253 | The conversion with the floor `1 - 2^(E-1)` keeps the sign, the exponent classes and the fraction resizing of the original. |
| FloatFormat.CorrectedWidenThenNarrow | zigpy/types/basic.py:229-265 | With the corrected floor, widening then narrowing restores every word. |
| FloatFormat.CorrectedExponentRange | zigpy/types/basic.py:250-253 | With the corrected floor, every ordinary exponent lands in `[1, 2^E - 2]`: strictly between all zeros and all ones, with 1 no longer excluded. |
| FloatFormat.NarrowThenWidenFraction | zigpy/types/basic.py:255-259 | Narrowing then widening keeps the sign and the fraction's high bits, and zeroes only the low bits the narrow format drops. |
| FloatFormat.InfinityConverts | zigpy/types/basic.py:245-246 | A word with an all-ones exponent and a zero fraction converts to the same-signed word of that kind in the other format. |
| FloatFormat.InfinityExample | zigpy/types/basic.py:245-246 | `Double` `0x7FF0000000000000` and `Half` `0x7C00` convert into each other. |
| OctetString.Serialize | zigpy/types/basic.py:299-302 | Encoding fails exactly when the payload has `256^p - 1` bytes or more. Otherwise the result is the payload length in `p` little-endian bytes, then the payload. |
| OctetString.Deserialize | zigpy/types/basic.py:304-316 | Decoding fails exactly when the prefix is missing, or the input is shorter than the prefix plus the count it holds. Otherwise the payload is exactly as long as the count in the prefix, and the input is the prefix, the payload and the remainder, in that order. |
| OctetString.RoundTrip | zigpy/types/basic.py:299-316 | An encodable payload followed by any bytes decodes to the payload and exactly those bytes. |
| OctetString.CountFramesPayload | zigpy/types/basic.py:309-316 | Whatever follows the prefix, the count alone decides where the payload ends. |
| OctetString.DecodeThenEncode | zigpy/types/basic.py:299-316 | A decoded payload encodes again exactly when it is shorter than the prefix's largest count, and then to the bytes it came from. |
| OctetString.Limits | zigpy/types/basic.py:296-320 | `LVBytes` accepts at most 254 bytes, and `LongOctetString` at most 65534. |
| OctetString.LVBytesCodecWellBehaved | zigpy/types/basic.py:299-316 | As a generic codec, a length-prefixed byte string round-trips, never encodes to nothing, and returns a suffix of its input. |
| CharString.Utf8Encode | zigpy/types/basic.py:486-488 | UTF-8 is never shorter than the text, and exactly as long when the text is ASCII, in which case each byte is its character. It contains a zero byte only for a zero character. |
| CharString.UntilNul | zigpy/types/basic.py:501 | `raw.split(b"\x00")[0]` is the longest prefix of `raw` without a zero byte. |
| CharString.Serialize | zigpy/types/basic.py:483-488 | Encoding fails exactly when the text has `256^p - 1` characters or more. Otherwise the prefix holds the CHARACTER count, followed by the UTF-8 bytes. |
| CharString.Deserialize | zigpy/types/basic.py:490-503 | Decoding fails exactly as `LVBytes` does. Otherwise `raw` is exactly as long as the count in the prefix, the input is the prefix, `raw` and the remainder, and the text is the decoding of `raw` up to its first zero byte. |
| CharString.LimitedSerialize | zigpy/types/basic.py:514-517 | `LimitedCharString` encoding fails exactly when the text is longer than `max_len`, or too long for the one-byte prefix. Otherwise it is `CharacterString`'s encoding. |
| CharString.NoNulKeepsWholeEncoding | zigpy/types/basic.py:501 | For a text without zero characters, the decoder's cut at the first zero byte keeps the whole encoding. |
| CharString.RoundTrip | zigpy/types/basic.py:483-503 | An ASCII text without zero characters, followed by any bytes, decodes to itself with `raw` holding its bytes, and leaves exactly those bytes. |
| CharString.LimitedRoundTrip | zigpy/types/basic.py:510-517 | A text within `max_len` round-trips through `LimitedCharString` as it does through `CharacterString`. |
| CharString.NonAsciiSplitsPayload | zigpy/types/basic.py:486-503 | A non-ASCII text is announced with fewer bytes than it occupies. Decoding keeps only the first `len(text)` bytes as `raw` and leaves the rest of the text in the remainder. |
| CharString.ShortCount | zigpy/types/basic.py:495-503 | A prefix announcing any count `n` the prefix can hold, up to and including `256^p - 1`, frames exactly `n` bytes, whatever follows. |
| CharString.NonAsciiExample | zigpy/types/basic.py:483-503 | `"é"` encodes as `01 C3 A9`; decoding that reads `raw` = `C3` and leaves `A9`. |
| CharString.SerializeByteCount | zigpy/types/basic.py:483-488 | With the prefix counting bytes, encoding fails exactly when the UTF-8 bytes are too many for the prefix. It agrees with the original on ASCII text. |
| CharString.RoundTripByteCount | zigpy/types/basic.py:483-503 | With a byte-count prefix, every text without zero characters round-trips, whether ASCII or not. |
| Collections.EncodeItems | zigpy/types/basic.py:415-417 | `List.serialize` (`ListSerialize` is this function). Encoding succeeds exactly when every item encodes. A failure is the failure of some item. |
| Collections.EncodeItemsAppend | zigpy/types/basic.py:415-417 | The items of `xs + ys` encode as the encoding of `xs` followed by that of `ys`, and fail exactly when either part fails. |
| Collections.DecodeCount | zigpy/types/basic.py:470-477 | A counted decode returns exactly the requested number of items, and with a count of zero it returns nothing and the untouched input. With a count above zero, a failure of the first item decode is the whole decode's failure; `DecodeCountAppend` carries this to every later item. |
| Collections.DecodeGreedy | zigpy/types/basic.py:419-428 | `List.deserialize` (`ListDeserialize` is this function). A successful greedy decode always consumes the whole input. A failure of the first item decode is the list's failure. |
| Collections.DecodeGreedyAppend | zigpy/types/basic.py:423-426 | After encoded items `xs`, a greedy decode continues as it would on what follows. A failure at any later item is the list's failure, and a success puts the later items after `xs`. |
| Collections.DecodeCountAppend | zigpy/types/basic.py:470-477 | The same for a counted decode: after encoded items `xs`, decoding `len(xs) + n` items fails exactly as decoding `n` items from what follows, and otherwise returns `xs` followed by those items and the same remainder. |
| Collections.LVListSerialize | zigpy/types/basic.py:437-441 | A count the length type cannot hold fails with the range error. Otherwise encoding succeeds exactly when the items encode, and gives the count's encoding followed by the items' encodings. |
| Collections.LVListDeserialize | zigpy/types/basic.py:443-451 | Input shorter than the length type fails. A success returns as many items as the count read, or none for a negative count. With a positive count, a failure of the first item decode after the count is the list's failure. |
| Collections.LVListReturnsSuffix | zigpy/types/basic.py:446-451 | With an item codec that returns suffixes, the remainder of an `LVList` decode is a suffix of the input after the count. |
| Collections.FixedListSerialize | zigpy/types/basic.py:460-468 | A list of the wrong length fails with the validation error. Otherwise encoding succeeds exactly when the items encode. |
| Collections.FixedListDeserialize | zigpy/types/basic.py:470-477 | A success returns exactly `length` items. With `length` above zero, a failure of the first item decode is the list's failure. |
| Collections.DecodeCountRoundTrip | zigpy/types/basic.py:448-451 | For an item codec that round-trips, decoding `len(xs)` items from the encoding of `xs`, followed by anything, gives `xs` and exactly what followed. |
| Collections.DecodeGreedyRoundTrip | zigpy/types/basic.py:419-428 | For an item codec that round-trips and never encodes to nothing, greedy decoding of the encoding of `xs` gives `xs`. |
| Collections.ListRoundTrip | zigpy/types/basic.py:415-428 | `List` round-trips under the same conditions. |
| Collections.LVListRoundTrip | zigpy/types/basic.py:437-451 | `LVList` round-trips its count and its items, followed by anything. |
| Collections.FixedListRoundTrip | zigpy/types/basic.py:460-477 | `FixedList` round-trips its items, followed by anything. |
| Collections.DecodeCountReturnsSuffix | zigpy/types/basic.py:470-477 | If the item decode returns suffixes, so does a counted decode. |
| Collections.NoProgressOnlyWhenStuck | zigpy/types/basic.py:424-426 | With an item codec that returns suffixes, NoProgress arises only where the original loops forever. After some number `k` of successful item decodes, the `while data:` loop reaches a non-empty remainder on which the item decode consumes nothing (or itself reports NoProgress). |
| OptionalType.Deserialize | zigpy/types/basic.py:526-531 | A successful item decode is passed through. A `ValueError` gives no value and an EMPTY remainder, discarding the rest of the input. Only a non-`ValueError` failure propagates. |
| OptionalType.RoundTrip | zigpy/types/basic.py:526-531 | A present value round-trips through `Optional(T)` exactly as through `T`. |
| OptionalType.OptionalCodecRoundTrips | zigpy/types/basic.py:522-531 | The optional codec round-trips whenever its item codec does. |
| Digits.Format | zigpy/types/basic.py:167-168 | A formatted number is a non-empty string of digits. |
| Digits.ValueOfFormat | zigpy/types/basic.py:167-168 | Reading a formatted number gives the number back. |
| Digits.FormatLength | zigpy/types/basic.py:167-168 | A number below `base^k` has at most `k` digits, so zero-padding it to width `k` writes exactly `k` characters. |
| Digits.ValueOfPadded | zigpy/types/basic.py:167-168 | Reading a zero-padded number gives the number back, whatever the width. |
| Digits.ParseDecimalString | zigpy/types/basic.py:155-156 | `int(str(v)) == v` for every integer. |
| Digits.ParseHexPadded | zigpy/types/basic.py:153-154 | `0x` followed by the padded hexadecimal digits of `v` reads back as `v` under `int(..., 16)`. |
| Digits.DecimalIsNotHex | zigpy/types/basic.py:153-156 | No decimal text starts with `0x`, so `__call__` reads it as decimal. |
| Enums.Lookup | zigpy/types/basic.py:163-170 | The result has the asked value. It is the member when there is one. Otherwise it is a pseudo-member when the integer type holds the value, and otherwise the range error. |
| Enums.Call | zigpy/types/basic.py:152-157 | An integer argument is looked up directly. A text of `0x` and hexadecimal digits is looked up as that hexadecimal number. Decimal digits, optionally after `-` or `+`, are looked up as that decimal number. The result is the invalid-literal error exactly when the argument is a text of neither form. |
| Enums.Serialize | zigpy/types/basic.py:43-48 | An enum value encodes exactly when the integer type holds it, and to bytes that decode back to its value. |
| Enums.Deserialize | zigpy/types/basic.py:51-57 | Decoding fails only for short input and never for an unknown value. The value re-encodes to exactly the bytes read, and it is a declared member exactly when its number is one. |
| Enums.RoundTrip | zigpy/types/basic.py:51-57 | An enum value, followed by any bytes, round-trips. |
| Enums.UndefinedNameCarriesValue | zigpy/types/basic.py:165-169 | A pseudo-member's name is the stem, `_`, and a `0x` text of lower-case digits that reads back as the value. There are at least two digits per byte, and exactly two per byte when the integer type holds the value. |
| Enums.CallHex | zigpy/types/basic.py:153-154 | Calling the type on `0x` followed by the hex digits of a number, at any width, equals looking up the number. |
| Enums.CallDecimal | zigpy/types/basic.py:155-156 | Calling the type on an integer's decimal text equals calling it on the integer. |
| Enums.Enum8Example | zigpy/types/basic.py:175-176 | `enum8(5)` is the pseudo-member `undefined_0x05`. |
| Enums.Enum16Example | zigpy/types/basic.py:179-180 | `enum16`'s value 0x1234 is named `undefined_0x1234`. |
| Enums.CallExamples | zigpy/types/basic.py:152-157 | `enum8("0x1F")` is 31, `enum8("0x")` fails to read, and `enum8(256)` is out of range. |
| Instances.SerializeByte | zigpy/types/basic.py:43-48 | A `uint8_t` encodes as the one byte it is. |
| Instances.BytesEncodeAsThemselves | zigpy/types/basic.py:536-581 | A sequence of `uint8_t` items encodes as itself. |
| Instances.DataBytes | zigpy/types/basic.py:536-581 | `data<8n>` encodes `n` bytes as themselves, refuses any other count, and decodes exactly `n` bytes back. |
| Instances.ListExample | zigpy/types/basic.py:419-428 | `List[uint8_t]` reads `01 02 03` as three items. |
| Instances.ListTruncatedExample | zigpy/types/basic.py:419-428 | `List[uint16_t]` fails on `01 02 03`, because the last item is cut short. |
| Instances.LVListExample | zigpy/types/basic.py:437-441 | `LVList[uint8_t]` of `[7, 8]` is `02 07 08`. |
| Instances.OptionalDiscardsInput | zigpy/types/basic.py:526-531 | `Optional(uint16_t)` on `01` gives no value and drops the byte that a following `uint8_t` would have read. |

## Left out

- Floats: `BaseFloat.serialize` and `deserialize` (lines 267-281) go through `struct.pack`/`struct.unpack` of IEEE 754 doubles. Only the integer-level `_convert_format` is modelled.
- Bitmaps: the bitmap operators (lines 132-148, 183-212) are borrowed from the standard `enum.IntFlag`, whose code is not part of this model. On the wire a bitmap is its fixed-width integer, which `FixedInt` covers.
- `KwargTypeMeta` (lines 323-408) is Python class plumbing: memoised `List[...]` subscripts, keyword arguments and subclass checks. The collection codecs are generic over an item `Codec` and an integer length type instead.
- `hex_repr` string formatting, and the `TypeError` for abstract integer classes (lines 14-15, 31-36), are presentation and class-level details.
- The class-level `assert`s in `List`, `LVList` and `FixedList` guard unconfigured classes, which the generic parameters make impossible.
- FixedInt.Construct: takes an integer. The `int` conversion that `__new__` applies to other arguments (texts, floats) is left out.
- Item construction: each `item_type(i)` conversion of an arbitrary Python value before encoding is left out. The item codec's `encode`, which for integers checks the range, stands for construction followed by serialization.
- CharString.Deserialize: lossy UTF-8 decoding (`errors="replace"`) is the host's codec. It enters as the function parameter `decode`, and round trips assume only that it inverts UTF-8 encoding (`InvertsUtf8`).
- CharString.Serialize: Python strings may hold lone surrogates, on which `encode("utf8")` raises. Dafny's `char` is a Unicode scalar value, so that error path is not modelled.
- Digits.ParseDecimal: accepts an optional sign and ASCII digits. Python's `int()` also accepts surrounding whitespace, `_` between digits, and non-ASCII decimal digits. These texts are read as invalid here.
- Digits.ParseHexLiteral: `int(text, 16)` also accepts whitespace, `_` after the prefix and between digits, and a sign before the prefix. The last never reaches it, because `__call__` checks for a leading `0x` first.
- Enums.Call: arguments other than integers and texts (floats, other objects converted by `int()`) and the functional-API `names` argument are left out.
- Enums: member identity and caching of pseudo-members by `enum.Enum` is not modelled. A pseudo-member is the value `Unknown(v)`.
- Collections.DecodeGreedy: where the original loops forever (an item decode that consumes nothing), the model stops with `NoProgress`. `NoProgressOnlyWhenStuck` shows that the loop reaches such a remainder whenever the model reports it. The converse, that every stuck remainder the loop reaches yields `NoProgress`, is not stated as a lemma. `OptionalType.Deserialize` passes `NoProgress` through, since it is not a `ValueError`.
- OptionalType.OptionalCodec: the absent value has no encoding (it fails with `Validation`). The original's `Optional` only changes decoding and gives `None` no `serialize`.

## Findings

| source | as written | input that shows it | evidently intended | confidence | as-written member | corrected member |
|---|---|---|---|---|---|---|
| zigpy/types/basic.py:250 | The lowest ordinary exponent is `2 - 2^(E-1)`. With the bias `2^(E-1)`, biased exponent 1 (the smallest normal) is clamped up to 2. | `Half` `0x0400` (2^-14) widened to `Double` and narrowed back gives `0x0800` (2^-13). | The floor `1 - 2^(E-1)`. The comment at line 250 says the clamp is there so that the biased exponent cannot be all zeroes, and that excludes only biased 0, not biased 1. With that floor, widening then narrowing gives back every word. | medium; not executed | FloatFormat.HalfSmallestNormalDrifts | FloatFormat.CorrectedWidenThenNarrow |
| zigpy/types/basic.py:486-488 | The prefix holds `len(self)`, the number of characters. The payload is the UTF-8 bytes, which the decoder frames by that count. | `"é"` encodes as `01 C3 A9`; decoding reads `raw` = `C3` and leaves `A9` in the remainder. | The prefix holds the number of UTF-8 bytes, so that every text without zero characters round-trips. | medium; not executed | CharString.NonAsciiSplitsPayload | CharString.RoundTripByteCount |
