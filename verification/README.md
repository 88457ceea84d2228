# Simple-8b words and the test-harness throttle

This project models two small pieces of the MongoDB tree and proves properties of them.

**Simple-8b single-word codec** (`Simple8b`, `Simple8bVectors`, `BitArith`). This is the codec behind
`Simple8b::encodeSimple8b` and `Simple8b::decodeSimple8b`. Its unit tests fix selectors 1, 8, 12 and
14, the reserved selectors 0 and 15, and decoding of the zero word. The layouts of the other ten
selectors (2-7, 9-11 and 13) come from the published Simple-8b table; no test word pins them.
- A 64-bit word holds a 4-bit selector in bits 0-3 and a 60-bit payload in bits 4-63.
- Selectors 1..14 split the payload into `count` slots of `width` bits: (60,1), (30,2), (20,3),
  (15,4), (12,5), (10,6), (8,7), (7,8), (6,10), (5,12), (4,15), (3,20), (2,30), (1,60).
- Slot `i` occupies bits `[4 + i*width, 4 + (i+1)*width)`.
- Selectors 0 and 15 are reserved.
- Words and values are naturals below 2^64. Shifts and masks are division and remainder by powers
  of two, and OR-ing disjoint fields is addition (`BitArith`).
- `Simple8bVectors` derives every expected word of the unit tests from the definitions and the
  round-trip lemmas.

**Operation throttle of the WiredTiger C++ test harness** (`Throttle`). A rate string such as
`"10ms"`, `"2s"` or `"1m"` becomes the milliseconds to wait between operations.
- The unit is found by searching for `"ms"`, then `"s"`, then `"m"`.
- The text before the first occurrence of that unit is the magnitude. It is read as a decimal
  `int` and multiplied by 1, 1000 or 60000.
- `ParseRate` is that computation as a function returning the millisecond count or the reason for
  rejection. In the source, rejection is a fatal harness error or a `std::stoi` exception.
- The class `Throttle` holds the `_ms` field. Its constructors set it from a rate or from the
  default `"1s"`.

## Model

| member | source | states |
|---|---|---|
| Simple8b.LayoutOf | src/mongo/bson/util/simple8b_test.cpp:46-114 | exactly selectors 1..14 have a layout; each width is 1..60 bits, count is 60 / width and width is 60 / count, so the slots fill the 60-bit payload as fully as that width allows |
| Simple8b.WidthIncreasing | src/mongo/bson/util/simple8b_test.cpp:46-100 | slot width strictly increases with the selector over 1..14; with count = 60/width and width = 60/count this fixes the table |
| Simple8b.Encode | src/mongo/bson/util/simple8b_test.cpp:46-114 | a reserved selector gives the zero word; otherwise the low nibble is the selector and the word is below 2^(4 + count*width), so payload bits above the last slot are zero |
| Simple8b.Decode | src/mongo/bson/util/simple8b_test.cpp:53-120 | a reserved selector nibble gives no values; otherwise exactly `count` values, each below 2^width |
| Simple8b.EncodeLayout | src/mongo/bson/util/simple8b_test.cpp:60-65 | in an encoded word, bits 0-3 are the selector and bits [4 + i*width, 4 + (i+1)*width) are value i, or 0 past the last value |
| Simple8b.DecodeSlotBits | src/mongo/bson/util/simple8b_test.cpp:67-72 | decoded value i is bits [4 + i*width, 4 + (i+1)*width) of the word |
| Simple8b.SlotOfPack | src/mongo/bson/util/simple8b_test.cpp:60-65 | slot i of the packed payload is value i, or 0 past the last value |
| Simple8b.PackSlots | src/mongo/bson/util/simple8b_test.cpp:67-72 | packing the slots read from a payload rebuilds the payload's low count*width bits |
| Simple8b.DecodeEncode | src/mongo/bson/util/simple8b_test.cpp:46-100 | decoding an encoded word gives back the values followed by zeros for the unfilled slots |
| Simple8b.DecodeEncodeFull | src/mongo/bson/util/simple8b_test.cpp:46-100 | when the values fill every slot and fit the width, decode undoes encode exactly |
| Simple8b.EncodeDecode | src/mongo/bson/util/simple8b_test.cpp:53-100 | a word with a valid selector and no bits above its last slot decodes to values that fit, and they encode back to the same word |
| Simple8b.SlotsOfLowBits | src/mongo/bson/util/simple8b_test.cpp:95-100 | clearing payload bits above the last slot leaves every slot unchanged |
| Simple8b.DecodeIgnoresPadding | src/mongo/bson/util/simple8b_test.cpp:95-100 | clearing the bits of a word above its last slot does not change what it decodes to |
| Simple8bVectors.EncodeOneValue | src/mongo/bson/util/simple8b_test.cpp:46-51 | selector 14 with [1] encodes to 0x1E |
| Simple8bVectors.DecodeOneValue | src/mongo/bson/util/simple8b_test.cpp:53-58 | 0x1E decodes to [1] |
| Simple8bVectors.EncodeMultipleValues | src/mongo/bson/util/simple8b_test.cpp:60-65 | selector 12 with [1, 2, 3] encodes to 0x000030000200001C |
| Simple8bVectors.DecodeMultipleValues | src/mongo/bson/util/simple8b_test.cpp:67-72 | 0x000030000200001C decodes to [1, 2, 3] |
| Simple8bVectors.PackOnes | src/mongo/bson/util/simple8b_test.cpp:74-79 | n one-bit slots all holding 1 pack to 2^n - 1 |
| Simple8bVectors.EncodeMaxValues | src/mongo/bson/util/simple8b_test.cpp:74-79 | selector 1 with sixty 1s encodes to 0xFFFFFFFFFFFFFFF1 |
| Simple8bVectors.DecodeMaxValues | src/mongo/bson/util/simple8b_test.cpp:81-86 | 0xFFFFFFFFFFFFFFF1 decodes to sixty 1s |
| Simple8bVectors.EncodeWithTrailingDirtyBits | src/mongo/bson/util/simple8b_test.cpp:88-93 | selector 8 with seven 1s encodes to 0x0010101010101018, the top payload nibble zero |
| Simple8bVectors.DecodeWithTrailingDirtyBits | src/mongo/bson/util/simple8b_test.cpp:95-100 | 0x0010101010101018 decodes to seven 1s |
| Simple8bVectors.InvalidEncodeSelectors | src/mongo/bson/util/simple8b_test.cpp:102-114 | selectors 0 and 15 encode to the zero word |
| Simple8bVectors.InvalidDecodeZeroSelector | src/mongo/bson/util/simple8b_test.cpp:116-120 | the zero word decodes to no values |
| Throttle.Find | src/third_party/wiredtiger/test/cppsuite/test_harness/core/throttle.h:48-56 | `find` returns a position where the pattern occurs with no occurrence before it, or npos when it occurs nowhere |
| Throttle.FindFirst | src/third_party/wiredtiger/test/cppsuite/test_harness/core/throttle.h:48-56 | a search from the start succeeds iff the pattern occurs, and returns exactly its first occurrence |
| Throttle.UnitOf | src/third_party/wiredtiger/test/cppsuite/test_harness/core/throttle.h:44-62 | no unit iff neither 's' nor 'm' occurs; milliseconds iff "ms" occurs; seconds iff no "ms" but an 's'; minutes iff no 's' but an 'm'; the position is the unit text's first occurrence |
| Throttle.ParseDecimal | src/third_party/wiredtiger/test/cppsuite/test_harness/core/throttle.h:63-65 | the magnitude text is read iff it is non-empty and all decimal digits |
| Throttle.ParseDecimalLeadingZero | src/third_party/wiredtiger/test/cppsuite/test_harness/core/throttle.h:63-65 | a leading zero does not change the value read ("05" is 5); with ParseDecimalOfDecimal this fixes the value of every digit text |
| Throttle.ParseDecimalOfDecimal | src/third_party/wiredtiger/test/cppsuite/test_harness/core/throttle.h:63-65 | reading the decimal text of n gives n |
| Throttle.ParseRate | src/third_party/wiredtiger/test/cppsuite/test_harness/core/throttle.h:40-66 | "no rate specifier" iff neither 's' nor 'm' occurs; invalid magnitude iff the text before the unit is empty or not all digits; out of range iff it exceeds INT_MAX; otherwise magnitude times the unit's multiplier, which fits the uint64_t field |
| Throttle.UnitOfDigitsThenSuffix | src/third_party/wiredtiger/test/cppsuite/test_harness/core/throttle.h:48-63 | for digits followed by a unit's text, that unit is found right after the digits |
| Throttle.ParseFormattedRate | src/third_party/wiredtiger/test/cppsuite/test_harness/core/throttle.h:40-66 | the decimal text of any n <= INT_MAX followed by a unit parses to n times that unit's milliseconds |
| Throttle.DefaultRate | src/third_party/wiredtiger/test/cppsuite/test_harness/core/throttle.h:70-71 | the rate "1s" is 1000 ms |
| Throttle.Throttle.constructor | src/third_party/wiredtiger/test/cppsuite/test_harness/core/throttle.h:40-66 | for an accepted rate, `_ms` is the parsed milliseconds and below 2^64 |
| Throttle.Throttle.Default | src/third_party/wiredtiger/test/cppsuite/test_harness/core/throttle.h:70-80 | the default throttle waits 1000 ms, the same as the field's default |
| Throttle.NewThrottle | src/third_party/wiredtiger/test/cppsuite/test_harness/core/throttle.h:59-65 | a throttle is built iff the rate parses, with `_ms` the parsed value; otherwise the parse error is reported and nothing is built |

## Left out

- src/mongo/bson/util/simple8b.h is not part of this model. The codec is reconstructed from the
  words its unit tests expect for selectors 0, 1, 8, 12, 14 and 15. The layouts of selectors 2-7,
  9-11 and 13 follow the published Simple-8b table, which no test word confirms.
- Simple8b.Encode: requires that the values fit the selector's slots (at most `count` values, each
  below 2^width). The tests never encode a value too wide or too many values, so no truncation
  or rejection behaviour is modelled.
- Simple8b.Encode: fewer values than slots leaves the remaining slots zero. This follows from
  packing and no test pins it.
- Simple8b.Decode: a selector nibble of 15 decodes to no values, like 0. Only selector 0 is
  pinned by a test.
- Choosing a selector for a run of values, building streams of words, and run-length or extended
  selectors: the single-word codec does none of these.
- `throttle::sleep` (throttle.h:73-77): a blocking thread sleep, an effect with nothing to prove.
- The `throttle(configuration *)` constructor (throttle.h:68): it reads an option from a
  configuration object that is not part of this model before delegating to the string
  constructor.
- Throttle.ParseDecimal: `std::stoi` also skips leading whitespace, accepts a sign and ignores
  trailing non-digits. Here only a non-empty run of decimal digits is read, and anything else is
  an invalid magnitude.
- Throttle.ParseRate: negative magnitudes are not modelled. In the source they wrap around in the
  `int * uint64_t` product.
- Throttle.ParseRate: the fatal harness error and the `stoi` exceptions become a `RateError` value
  instead of ending the process or unwinding.
