# conversions, modelled in Dafny

A model of the two classes of the PHP library `bmatovu/conversions`.

- `Data` converts between hex text and integers. It covers one, two or four bytes, signed (two's complement) or unsigned. The two- and four-byte forms take a byte-order code: 1 big endian, 2 mid-big, 3 little, 4 mid-little.
- `Time` converts epoch seconds between the GPS time scale and the Unix time scale. It uses a fixed table of the 16 GPS seconds at which leap seconds were inserted.

Modules:

- `Results` (`results.dfy`): `Option`, and `Result`, whose `Failure` stands for the PHP `false` an operation returns.
- `Bits` (`bits.dfy`): powers of two, XOR with an all-ones mask (`FlipBits`), bit tests, and the value of a byte string. These are proved on unbounded integers.
- `Hex` (`hex.dfy`): the three PHP built-ins the codec relies on, as pure functions.
  - `pack("H*", …)` is `Pack`.
  - `base_convert(…, 10, 16)` is `Numeral`.
  - `str_pad(…, 2, '0', STR_PAD_LEFT)` is `PadTwo`.
  - Their case, padding and injectivity facts.
- `Data` (`data.dfy`): the eight-, sixteen- and thirty-two-bit codecs. Each decoder comes with an independent reference reading (`TwosComplement`), and each codec with its round trips in both directions. The PHP default arguments are Dafny default values: the byte order defaults to big endian (1) and the signedness to signed, so `Int16ToWord(-32768)` is the call `int16ToWord(-32768)`.
- `DataCases` (`data_cases.dfy`): the library's own test examples, stated as lemmas about the model.
- `Time` (`time.dfy`): the time converter.
  - Its functions take the leap table as a parameter, and `Leaps` is the library's table.
  - The counting and round-trip lemmas hold for any table whose entries are at least two seconds apart (`WellSpaced`). `LeapTable` proves that `Leaps` is such a table.
  - Times are exact reals.

## Model

| member | source | states |
|---|---|---|
| Data.EndiannessOf | src/Data.php:38-42 | the codes 1..4, and no others, name a byte order, and the order found has that code |
| Data.EndiannessCodeRoundTrip | src/Data.php:38-42 | every byte order is found again from its own code |
| Data.Lane | src/Data.php:112-113 | a byte read by `unpack("c*")` as a signed char, shifted to its place and masked, contributes exactly the unsigned byte times its place: the mask undoes the sign extension |
| Data.ByteToInt8 | src/Data.php:53-68 | the result lies in [-128, 128) when signed and [0, 256) when unsigned, and is congruent mod 256 to the first byte `pack("H*")` makes of the text |
| Data.ReadInt8 | src/Data.php:61-67 | the sign step `-((b ^ 0xFF) + 1)` from 0x80 on gives the one value of the signedness range with residue b |
| Data.ByteToInt8IsTwosComplement | src/Data.php:53-68 | byteToInt8 equals the independent two's-complement reading of the packed byte |
| Data.TwosComplementResidue | src/Data.php:61-67 | the reference reading lies in the width's range and keeps the pattern as its residue |
| Data.Int8ToByte | src/Data.php:76-87 | fails exactly outside [-128, 255]; otherwise gives lowercase hex whose numeral value is v mod 256, one digit below 0x10 and two digits from 0x10 on |
| Data.Int8ToByteDropsPadding | src/Data.php:83-86 | int8ToByte(5) is "5", and byteToInt8 reads that text back as 80 under either signedness |
| Data.Int8RoundTripFromSixteen | src/Data.php:53-87 | the unpadded encoder is inverted by byteToInt8 on every in-range value whose low byte is at least 0x10 |
| Data.Int8ToBytePadded | src/Data.php:76-87 | the corrected encoder fails exactly outside [-128, 255]; otherwise it gives two lowercase digits that pack to v mod 256 |
| Data.Int8RoundTrip | src/Data.php:53-87 | byteToInt8 after the padded encoder gives back every value of the signed and of the unsigned 8-bit range |
| Data.LowerIsHexByte | src/Data.php:56-59 | a two-digit byte text in lower case is the padded text of the byte it packs to |
| Data.Int8DecodeEncode | src/Data.php:53-87 | the padded encoder after byteToInt8 gives back every two-digit byte text, in lower case |
| Data.WordOrderSelfInverse | src/Data.php:111-116 | the little-endian byte swap undoes itself, so the encoder's layout inverts the decoder's permutation |
| Data.WordOrder | src/Data.php:110-116 | the bytes of a word in the significance order of big (1) or little (3) endian are a permutation of the input bytes |
| Data.WordToInt16 | src/Data.php:103-127 | succeeds exactly for codes 1 and 3; the value lies in the signedness range, with the bytes in that order's significance as its residue mod 2^16 |
| Data.ReadInt16 | src/Data.php:121-126 | the sign step on bit 15 gives the one value of the signedness range with the pattern as residue |
| Data.WordToInt16IsTwosComplement | src/Data.php:103-127 | wordToInt16 equals the two's-complement reading of the pattern its byte order assembles |
| Data.Int16ToWord | src/Data.php:140-158 | succeeds exactly for codes 1 and 3, with four lowercase digits that, read back in that order, are v mod 2^16 for any v |
| Data.WordBytes | src/Data.php:143-155 | the two padded halves pack, in either order, to the bytes of v mod 2^16 in that order |
| Data.Int16LittleIsSwappedBig | src/Data.php:150-155 | the little-endian word is the big-endian word with its two bytes swapped |
| Data.Int16RoundTrip | src/Data.php:103-158 | wordToInt16 after int16ToWord in the same order gives back every value of the signed and of the unsigned 16-bit range |
| Data.Int16DecodeEncode | src/Data.php:103-158 | int16ToWord after wordToInt16 in the same order gives back every four-digit word, in lower case |
| Data.DwordOrderSelfInverse | src/Data.php:185-205 | each of the four byte permutations of a double word undoes itself |
| Data.DwordOrder | src/Data.php:185-204 | the four byte orders take the four input bytes to four bytes in significance order |
| Data.DwordOrderPermutes | src/Data.php:185-204 | each of the four byte orders is a permutation of the input bytes |
| Data.DwordPattern | src/Data.php:182-207 | for codes 1..4 the assembled pattern is the input bytes in that order's permutation; an unknown code leaves every lane 0 |
| Data.DwordToInt32 | src/Data.php:174-213 | an unknown code gives 0; for codes 1..4 the value lies in the signedness range, with the permuted bytes as its residue mod 2^32 |
| Data.ReadInt32 | src/Data.php:207-212 | the sign step on bit 31 gives the one value of the signedness range with the pattern as residue, and 0 for pattern 0 |
| Data.DwordToInt32IsTwosComplement | src/Data.php:174-213 | dwordToInt32 equals the two's-complement reading of the pattern its byte order assembles |
| Data.Int32ToDword | src/Data.php:226-252 | succeeds exactly for codes 1..4, with eight lowercase digits that, read back in that byte order, are v mod 2^32 for any v |
| Data.DwordLayout | src/Data.php:229-249 | the text laid out for byte order e is eight lowercase digits that, read back in that order, are v mod 2^32 |
| Data.DwordBytes | src/Data.php:229-249 | each of the four layouts packs to the bytes of v mod 2^32, permuted by its byte order |
| Data.Int32LayoutsPermuteBig | src/Data.php:240-249 | every layout packs to the big-endian bytes permuted by its byte order |
| Data.Int32RoundTrip | src/Data.php:174-252 | dwordToInt32 after int32ToDword in the same order gives back every value of the signed and of the unsigned 32-bit range, for all four orders |
| Data.Int32DecodeEncode | src/Data.php:174-252 | int32ToDword after dwordToInt32 in the same order gives back every eight-digit double word, in lower case |
| Bits.FlipBits | src/Data.php:64 | XOR with the all-ones mask of n bits is the ones' complement 2^n - 1 - x on an n-bit pattern |
| Hex.Pack | src/Data.php:56 | `pack("H*")` makes one byte from every two digits, a trailing odd digit included |
| Hex.PackNibbles | src/Data.php:56 | byte k of `pack("H*")` has digit 2k as its high nibble and digit 2k + 1 as its low one, and a zero low nibble for a lone last digit |
| Hex.PackFromLeft | src/Data.php:56 | `pack("H*")` read from the left takes two digits to the first byte, high nibble first, and packs the rest after it; a lone last digit becomes a high nibble over a zero |
| Hex.PackIgnoresCase | src/Data.php:56 | upper- and lower-case digits pack alike |
| Hex.PackAppend | src/Data.php:179 | packing distributes over joining after an even number of digits |
| Hex.PackInjective | src/Data.php:147-152 | lowercase texts of equal even length that pack alike are equal |
| Hex.Numeral | src/Data.php:86 | `base_convert` writes a byte as lowercase hex with no leading zero and with the byte's value, one digit exactly below 0x10 |
| Hex.PadTwo | src/Data.php:147 | `str_pad` keeps the text as its suffix and fills only zeros in front, up to two characters |
| Hex.HexByte | src/Data.php:147-148 | the padded text of a byte is two lowercase digits that pack to that byte |
| Hex.HexBytePack | src/Data.php:147-148 | two lowercase digits are the padded text of the byte they pack to |
| DataCases.UnsignedByteZero | tests/DataTest.php:15-16 | "00" read unsigned is 0 |
| DataCases.UnsignedByteMax | tests/DataTest.php:18-19 | "FF" read unsigned is 255 |
| DataCases.SignedByteMin | tests/DataTest.php:27-28 | "80" read signed is -128 |
| DataCases.SignedByteMax | tests/DataTest.php:30-31 | "7F" read signed is 127 |
| DataCases.Int8ToByteMin | tests/DataTest.php:39-40 | -128 encodes as "80" |
| DataCases.Int8ToByteMax | tests/DataTest.php:42-43 | 255 encodes as "ff" |
| DataCases.BigEndianUnsignedWordZero | tests/DataTest.php:51-52 | "0000" big-endian unsigned is 0 |
| DataCases.BigEndianUnsignedWordMax | tests/DataTest.php:54-55 | "FFFF" big-endian unsigned is 65535 |
| DataCases.BigEndianSignedWordMin | tests/DataTest.php:63-64 | "8000" big-endian signed is -32768 |
| DataCases.BigEndianSignedWordMinusOne | tests/DataTest.php:66-67 | "FFFF" big-endian signed is -1 |
| DataCases.LittleEndianUnsignedWordZero | tests/DataTest.php:75-76 | "0000" little-endian unsigned is 0 |
| DataCases.LittleEndianUnsignedWordMax | tests/DataTest.php:78-79 | "FFFF" little-endian unsigned is 65535 |
| DataCases.LittleEndianSignedWordLow | tests/DataTest.php:87-88 | "8000" little-endian signed is the pattern 0x0080, which is 128 |
| DataCases.LittleEndianSignedWordMinusOne | tests/DataTest.php:90-91 | "FFFF" little-endian signed is -1 |
| DataCases.Int16ToWordMin | tests/DataTest.php:99-100 | -32768, with the default byte order, encodes as "8000" |
| DataCases.Int16ToWordMax | tests/DataTest.php:102-103 | 65535, with the default byte order, encodes as "ffff" |
| DataCases.BigEndianUnsignedDwordZero | tests/DataTest.php:111-112 | "00000000" big-endian unsigned is 0 |
| DataCases.BigEndianUnsignedDwordMax | tests/DataTest.php:114-115 | "FFFFFFFF" big-endian unsigned is 4294967295, the example the suite leaves commented out |
| DataCases.BigEndianSignedDwordZero | tests/DataTest.php:123-124 | "00000000" big-endian signed is 0 |
| DataCases.BigEndianSignedDwordMinusOne | tests/DataTest.php:126-127 | "FFFFFFFF" big-endian signed is -1 |
| DataCases.Int32ToDwordMin | tests/DataTest.php:135-136 | -2147483648, with the default byte order, encodes as "80000000" |
| DataCases.Int32ToDwordMax | tests/DataTest.php:138-139 | 4294967295, with the default byte order, encodes as "ffffffff" |
| Time.LeapTable | src/Time.php:23-45 | the table has 16 entries, strictly ascending, each at least two seconds after the one before |
| Time.Ordered | src/Time.php:25-42 | in a well-spaced table, index order and time order agree |
| Time.LeapFrom | src/Time.php:59-63 | the search from index i finds t exactly when t equals an entry at index i or later |
| Time.IsLeap | src/Time.php:54-66 | isleap(t) holds exactly when t equals some table entry |
| Time.CountFrom | src/Time.php:81-93 | the count over entries from i on stays within the table, and in a well-spaced table the entries that count are exactly the first n |
| Time.CountLeaps | src/Time.php:76-96 | countleaps is at most the table size, and in a well-spaced table entry j counts for t (t >= L[j], or t >= L[j] - j for unix2gps) exactly when j < the count |
| Time.CountLeapsMonotone | src/Time.php:76-96 | a later time never counts fewer entries, in either direction |
| Time.LeapIsLatestCounted | src/Time.php:54-96 | t is a leap instant exactly when it equals the last entry gps2unix counts for it |
| Time.BeforeFirstLeap | src/Time.php:76-96 | before the first entry nothing counts in either direction and no time is a leap instant |
| Time.GpsToUnix | src/Time.php:105-116 | on a whole GPS second, gps2unix gives a whole Unix second exactly when the second is not a leap instant, and a value ending in .5 when it is |
| Time.UnixToGps | src/Time.php:125-139 | unix2gps of a whole Unix second, or of one ending in .5, is a whole GPS second, and in a well-spaced table the GPS second found for a whole Unix second is never a leap instant |
| Time.EpochsCorrespond | src/Time.php:105-139 | with the library's table, GPS second 0 is Unix second 315964800 and back |
| Time.CountsAtLeap | src/Time.php:76-96 | at leap instant L[k] gps2unix counts k + 1 entries, and unix2gps counts k at the time gps2unix gives for it |
| Time.CountsOffLeap | src/Time.php:76-96 | off the leap instants, unix2gps counts at g - n the same n entries that gps2unix counts at g |
| Time.RoundTripAtLeap | src/Time.php:105-139 | a leap instant goes through gps2unix to a half second, which unix2gps maps back to it |
| Time.RoundTripOffLeap | src/Time.php:105-139 | a whole second that is not a leap instant goes to a whole Unix second and back |
| Time.UnixToGpsInvertsGpsToUnix | src/Time.php:105-139 | unix2gps undoes gps2unix on every whole GPS second, leap instants included |
| Time.CountsAfterUnixToGps | src/Time.php:76-96 | at the GPS second unix2gps finds, gps2unix counts the same entries unix2gps counted |
| Time.NoLeapAfterUnixToGps | src/Time.php:125-139 | the GPS second unix2gps finds for a whole Unix second is never a leap instant |
| Time.GpsToUnixInvertsUnixToGps | src/Time.php:105-139 | gps2unix undoes unix2gps on every whole Unix second |
| Time.SourceTableRoundTrips | src/Time.php:23-139 | with the library's table, the two conversions invert each other on whole seconds in both directions |

## Left out

- The debug `print` in dwordToInt32 (src/Data.php:176) and the `echo` of the invalid-flag branch in countleaps (src/Time.php:91) are output only and are not modelled.
- The invalid `dirFlag` branch of countleaps is not modelled. `Direction` has only the two flags, because the public conversions pass nothing else.
- `pack`, `unpack`, `base_convert` and `str_pad` are PHP library calls. They are replaced by the functions of `Hex` and by `Data.Lane`, which state their behaviour on the inputs the codec gives them.
- Data.ByteToInt8, Data.WordToInt16, Data.DwordToInt32: decoding requires well-formed hex text of the width's length (at least one digit for a byte). PHP's behaviour on other characters or on missing bytes (warnings, and reads of undefined array entries as 0) is not modelled.
- PHP integer width is not modelled. Integers are unbounded, which matches 64-bit PHP for every value the codec produces; on a 32-bit build, the unsigned 32-bit readings above 2^31 - 1 would become floats.
- Floating point is not modelled: times are exact reals, and `fmod($unixTime, 1) != 0` is `!IsWhole`.
- The signedness argument is the enum `Signedness`, whose `Code` is SIGNED = 1 or UNSIGNED = 0; the sign steps test `Code() != 0`, as the source tests the flag for truthiness. Other truthy or falsy PHP values are not modelled.
- Time.UnixToGpsInvertsGpsToUnix, Time.GpsToUnixInvertsUnixToGps: the round trips are stated for whole seconds and, for the table parameter, under `WellSpaced`. Fractional inputs other than the .5 marking a leap instant are not covered. `Time.SourceTableRoundTrips` discharges the condition for the library's table.
- The library's documentation describes a stricter contract than its code. The model follows the code:
  - int16ToWord and int32ToDword do no range check, though their docblocks give an input range; they cut the value to its low 16 or 32 bits.
  - int8ToByte does not pad to two digits (see Findings).
  - wordToInt16 promises `false` for invalid input, but does not check the length of its input.
- dwordToInt32 returns 0 for an unknown byte-order code, as its docblock's `@return int` allows, where wordToInt16 and the two encoders return `false`. The model keeps the 0.

## Findings

| source | as written | input that shows it | evidently intended | confidence | as-written member | corrected member |
|---|---|---|---|---|---|---|
| src/Data.php:86 | int8ToByte returns `base_convert($int8, 10, 16)` without `str_pad`, so bytes below 0x10 come out as one digit | int8ToByte(5) is "5"; byteToInt8("5") packs it as 0x50 and gives 80, not 5 | pad to two digits as int16ToWord and int32ToDword do, so that byteToInt8 inverts int8ToByte | not executed | Data.Int8ToByte, Data.Int8ToByteDropsPadding | Data.Int8ToBytePadded, Data.Int8RoundTrip |
