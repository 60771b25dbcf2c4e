# protodup codec, modelled in Dafny

This project models `main.go` of protodup. protodup is a small tag-prefixed binary codec
loosely based on the Protocol Buffers wire format. The model proves properties of that model.

- **Writer.** `ProtoWriter.Write` sorts a message's field numbers. For each field it appends:
  - the varint of `index << 3`;
  - the wire-type selector ORed into the last byte written so far: 0 for an int, 1 for a string;
  - the payload: a varint for an int, or a length-delimited run for a string.
- **Reader.** `ProtoReader.Read` walks the buffer with a cursor. It reads a varint tag and
  splits it into `tag >> 3` (the field number) and `tag & 0x07` (the selector). It looks the
  selector up in the two-entry `globalMap` table, reads the payload, and `Put`s it into the
  message.

The codec departs from protobuf, and the model keeps every departure:

- Varint digits are written most significant first.
- The continuation bit 0x80 is set on every byte but the last two.
- `parseVarInts` truncates its accumulator to a byte on every step.
- Zero, negative numbers and the empty string are written as nothing at all.
- Strings use selector 1.

Modules, one file each:

- `Wire` (`wire.dfy`):
  - values;
  - errors, which stand for Go panics;
  - the `globalMap` table;
  - `ToTagType` and `getWireType`;
  - the 64-bit `<< 3`;
  - the reader's tag split.
- `VarInt` (`varint.dfy`):
  - `ToVarInts` and `ToVarIntsGeneric`;
  - `parseVarInts`, as a loop proved against the function `VarIntAt`.
- `LenDelim` (`lendelim.dfy`): `ToLen`, and `parseLen` with its `strings.Builder` of runes.
- `Reflection` (`reflection.dfy`): the `Reflection` interface, as a `Message` class over a
  map from field number to value.
- `Writer` (`writer.dfy`): `ProtoWriter.Write`, its key sort, and its loop, proved against
  the function `WriteSpec`.
- `Reader` (`reader.dfy`): `ProtoReader.Read`, its cursor loop proved against the function
  `ReadFrom`.
- `RoundTrip` (`roundtrip.dfy`): on field numbers 1..15, ints 1..127 and ASCII strings of 1
  to 127 characters, reading what Write produced gives back the message.
- `Vectors` (`vectors.dfy`):
  - the byte vectors of `main_test.go`, worked out against `main.go`;
  - the messages outside that domain that are lost or misread.

A panic is an `Err` result. Read returns `Fail` and keeps the fields it put before the panic.

## Model

| member | source | states |
|---|---|---|
| `Wire.LookupWireType` | main.go:23 | `globalMap[w]` exists only for selectors 0 (VarInt) and 1 (LEN); any other selector is an index-out-of-range panic |
| `Wire.ToTagType` | main.go:93-101 | an int gets selector 0 and a string selector 1, and each selector maps back through `globalMap` to the matching wire type; any other value type is an unsupported-type error |
| `Wire.GetWireType` | main.go:165-167 | the result is the tag's low two bits: between 0 and 3, and congruent to the tag modulo 4 |
| `Wire.GetWireTypeAgrees` | main.go:165-167 | on tag bytes with selector 0 or 1, the unused two-bit `getWireType` agrees with the reader's three-bit split |
| `Wire.Shl3` | main.go:63 | `index << 3` is `index * 8` whenever that fits in 64 bits |
| `Wire.Wrap64Congruent` | main.go:63 | the 64-bit wrap of `<< 3` keeps the value modulo 2^64, and leaves an in-range value unchanged |
| `Wire.SplitTag` | main.go:148-149 | a tag is `field * 8 + wire` with `wire < 8` |
| `Wire.SplitTagInverse` | main.go:148-149 | splitting `field * 8 + wire` gives back the field number and selector |
| `Wire.OrLowBit` | main.go:70 | ORing a selector `t` into `b` keeps all bits of `b` above the lowest, and sets the low bit when `b` or `t` has it |
| `VarInt.VarIntBytes` | main.go:129-140 | the encoding of `i` is empty exactly when `i <= 0` |
| `VarInt.VarIntBytesFlags` | main.go:133-135 | in an encoding, a byte has the continuation bit exactly when it is not one of the last two |
| `VarInt.VarIntBytesValue` | main.go:129-140 | for `i > 0`: the bytes' low seven bits, read most significant first, give back `i`; the first digit is non-zero, and there is one byte per base-128 digit (128^(n-1) <= i < 128^n for n bytes) |
| `VarInt.DigitsValue` | main.go:131-137 | the base-128 digits of `n`, most significant first, denote `n` |
| `VarInt.ToVarInts` | main.go:129-140 | the loop that prepends a digit per round returns exactly the encoding `VarIntBytes(i)` |
| `VarInt.ToVarIntsGeneric` | main.go:122-126 | an int payload gets bytes whose low seven bits denote it when it is positive, with a non-zero leading digit and the continuation bit on exactly the bytes before the last two; a non-positive int gets no bytes; any other payload is a mismatched-type error |
| `VarInt.VarIntBytesSmall` | main.go:129-140 | an int from 1 to 127 is the single byte holding it |
| `VarInt.VarIntBytesTwoDigits` | main.go:129-140 | a two-digit number is written as its two digits with no continuation bit at all |
| `VarInt.StopIndexScans` | main.go:172-179 | the scan stops at the first byte without the continuation bit, and fails only if every byte from the start on has it |
| `VarInt.VarIntAt` | main.go:169-183 | `parseVarInts` yields a value in 0..255 and an index past the start and within the buffer, just after a byte without the continuation bit; running off the end is an index-out-of-range panic |
| `VarInt.VarIntAtStops` | main.go:169-183 | every byte consumed before the last has the continuation bit, and the read fails exactly when every byte from the start on has it |
| `VarInt.VarIntAtStop` | main.go:173-180 | with the stop byte at `k`, the value is the low bit of byte `k - 1` shifted up by 7, plus the low seven bits of byte `k` |
| `VarInt.ParseVarInts` | main.go:169-183 | the loop that shifts, truncates to a byte and ORs in each byte's seven bits returns exactly `VarIntAt` |
| `VarInt.VarIntRoundTripSmall` | main.go:129-183 | an int from 1 to 127 is encoded as one byte, which decodes back to it at any position |
| `VarInt.VarIntMisreadsLarge` | main.go:129-183 | from 128 on, decoding an encoding stops one byte before its end, and yields `(i >> 7) & 0xFF` instead of `i` |
| `LenDelim.ToLen` | main.go:103-120 | succeeds exactly on a string, and then fills the buffer with the varint of the length followed by the characters; any other payload is a mismatched-type error |
| `LenDelim.LenBytesSplit` | main.go:107-118 | the run ends with exactly the string's bytes, and the bytes before them denote the length when it is not zero |
| `LenDelim.EmptyStringVanishes` | main.go:107-108 | the empty string is written as no bytes at all |
| `LenDelim.LenBytesSmall` | main.go:103-120 | a string of 1 to 127 characters is its one-byte length followed by its bytes |
| `LenDelim.RuneBytes` | main.go:189 | `WriteRune(rune(b))` appends `b` itself when it is ASCII, and otherwise two UTF-8 bytes that encode `b` |
| `LenDelim.Utf8OfAscii` | main.go:187-192 | the builder holds an ASCII run unchanged, and never holds fewer bytes than were read |
| `LenDelim.LenAt` | main.go:185-193 | parseLen fails when its length varint fails, and otherwise succeeds exactly when the length fits in what remains, returning an end index past the start |
| `LenDelim.LenAtCases` | main.go:185-193 | once the length is read, parseLen takes exactly the next `len` bytes, or is an index-out-of-range panic when fewer remain |
| `LenDelim.ParseLen` | main.go:185-193 | the loop that appends one rune per byte returns exactly `LenAt` |
| `LenDelim.LenRoundTripSmall` | main.go:103-193 | an ASCII string of 1 to 127 characters reads back from its run at any position |
| `LenDelim.LenAtSingle` | main.go:185-193 | a one-byte length followed by that many ASCII bytes reads as those bytes |
| `Reflection.Message.constructor` | main.go:32-36 | a message starts with the given fields |
| `Reflection.Message.Put` | main_test.go:20-24 | Put stores the value under the field number, keeps every other field, and reports success |
| `Reflection.Message.GetDescriptors` | main_test.go:32-38 | the descriptors list every field, each with the value GetValue returns for it |
| `Reflection.Message.GetValue` | main_test.go:40-42 | GetValue returns the stored value, and a missing field is neither int nor string |
| `Writer.Ascending` | main.go:53-59 | the sorted field numbers hold every field number once, in strictly increasing order |
| `Writer.LeastExists` | main.go:59 | a non-empty set of field numbers has a least element |
| `Writer.LeastFirst` | main.go:59 | the least field number in front of the sorted others sorts them all |
| `Writer.SortedKeys` | main.go:53-59 | collecting and sorting the keys gives every field number of the descriptors once, strictly increasing |
| `Writer.OrIntoLastByte` | main.go:69-70 | ORing the selector into an unflagged even last byte adds the selector to the number the bytes denote |
| `Writer.TagBytesValue` | main.go:63-70 | for a field number from 1 up to the limit of `<< 3`, the tag bytes denote `index * 8 + selector` and keep the continuation bit on all but the last two |
| `Writer.LastByteOfVarInt` | main.go:129-140 | the last byte of a positive number's encoding is its lowest base-128 digit |
| `Writer.WriteFieldOk` | main.go:61-86 | one pass of the loop appends the field's tag and payload after everything written before it |
| `Writer.WriteAllOk` | main.go:61-89 | with valid field numbers and int or string values, the loop appends every field in order |
| `Writer.WriteAllUnsupported` | main.go:65-68 | a value of any other type makes the loop panic |
| `Writer.WriteEncodable` | main.go:50-91 | with valid field numbers and int or ASCII string values, Write emits each field, in strictly ascending field-number order |
| `Writer.WriteUnsupported` | main.go:65-68 | Write panics on a value that is neither an int nor a string |
| `Writer.WriteNonPositive` | main.go:63-70 | Write panics on a field number of zero or below: its tag is empty, so the selector has no byte to go into |
| `Writer.WriteSpecOutcomes` | main.go:50-91 | when Write panics, and what it writes when it does not |
| `Writer.Write` | main.go:50-91 | the method returns exactly `WriteSpec`: the panics and the emitted bytes above |
| `Reader.ReadFrom` | main.go:142-163 | Read keeps earlier fields it does not overwrite, puts only field numbers 0 to 31 and ints 0 to 255, and panics only on an index out of range; a tag whose selector (`tag & 0x07`) is 2 to 7 is that panic, with the fields left as they were |
| `Reader.ReadVarIntField` | main.go:148-156 | a tag with selector 0 puts the varint after it under the tag's field number, and reading goes on after it |
| `Reader.ReadLenField` | main.go:148-160 | a tag with selector 1 puts the string after it under the tag's field number, and reading goes on after it |
| `Reader.Read` | main.go:142-163 | the cursor loop leaves the message and outcome that `ReadFrom` describes |
| `RoundTrip.PutAll` | main.go:156 | putting fields in turn holds each put key's value, and the earlier value for every other key |
| `RoundTrip.PutAllUnion` | main.go:156-160 | putting every field of `m` overrides the earlier fields with `m` |
| `RoundTrip.SmallTag` | main.go:63-70 | a field number from 1 to 15 has the one-byte tag `k * 8 + selector` |
| `RoundTrip.SmallFieldIsBytes` | main.go:61-86 | Write frames a small field as its tag byte, then its value byte, or its length byte and its characters |
| `RoundTrip.FieldsAreSmall` | main.go:61-89 | on the round-trip domain, the bytes Write emits are exactly these one-byte framings |
| `RoundTrip.WriteSmall` | main.go:50-91 | on the round-trip domain, Write succeeds with the small framings in ascending field order |
| `RoundTrip.FieldsFramed` | main.go:61-89 | the framings lie field after field, and nothing follows the last |
| `RoundTrip.ReadSmallField` | main.go:145-161 | one pass of Read takes a small field as one put of that field |
| `RoundTrip.ReadFields` | main.go:142-163 | Read takes framed fields as one put per field, in order, and returns normally |
| `RoundTrip.RoundTrip` | main.go:50-163 | on the round-trip domain, Write succeeds; reading its bytes into a message with earlier fields leaves those fields overridden by the written ones, with no panic |
| `Vectors.WriteTwoInts` | main_test.go:123-137 | `{1: 1, 2: 1}` is written as `08 01 10 01` |
| `Vectors.WriteStringThenInt` | main_test.go:201-220 | `{1: "testing", 2: 1}` is written as `09 07 "testing" 10 01` |
| `Vectors.OneTwentyNine` | main_test.go:77-90 | 129 is written as `01 01`, which reads back as 1; the test data `81 01` reads as 129 |
| `Vectors.ReadPaddedTag` | main_test.go:62-75 | `80 80 80 08 01` reads as `{1: 1}`: the padding bytes drop out of the tag |
| `Vectors.ReadTwoRecords` | main_test.go:92-108 | `08 81 01 10 01` reads as `{1: 129, 2: 1}` |
| `Vectors.ReadStringThenInt` | main_test.go:222-243 | `09 07 "testing" 10 01` reads as `{1: "testing", 2: 1}` |
| `Vectors.WriteOneField` | main.go:50-91 | a one-field message with a valid field number and an int or ASCII string value is written as that field's framing |
| `Vectors.ZeroIsLost` | main.go:129-140 | an int of 0 is written as its tag `08` alone, and reading that panics |
| `Vectors.EmptyStringIsLost` | main.go:103-120 | the empty string is written as its tag `09` alone, and reading that panics |
| `Vectors.ThreeHundredWritten` | main.go:129-140 | `{1: 300}` is written as `08 02 2C` |
| `Vectors.ThreeHundredMisread` | main.go:142-183 | `08 02 2C` reads as `{1: 2}`, then panics on selector 4 |

## Left out

- `LenDelim.ToLen`: requires the string to be ASCII. Go's `range` over a string walks UTF-8 runes (an invalid byte becomes U+FFFD) and `byte(c)` keeps each rune's low byte; multi-byte runes are not modelled. `parseLen`'s `WriteRune` is modelled for every byte.
- `Writer.Write`: requires every string of the message to be ASCII, for the same reason as `ToLen`.
- `Writer.WriteEncodable`: `Encodable` admits ASCII strings only, so what Write emits for a non-ASCII string is not stated.
- `Writer.WriteSpecOutcomes`: its successful case covers only `Encodable` messages, whose strings are ASCII.
- `Vectors.WriteOneField`: requires an ASCII string, for the same reason.
- `Writer.WriteNonPositive`: requires every field number to be at least -2^60. Below that, `index << 3` wraps around in 64 bits to a positive tag, and the outcome depends on the wrapped value.
- `Writer.WriteEncodable`, `Writer.WriteSpecOutcomes`: a field number of 2^60 or more overflows `<< 3`; what Write emits for it is not stated.
- Unreachable guard: the end-of-stream guard in `parseVarInts` (main.go:176) can never fire. `buffer[starting_index]` panics first, and the model gives that panic.
- Mismatched-type panics: the payload panics in Write (main.go:76-77, 82-83) cannot fire, because the payload is the value the selector came from. `Writer.Write` asserts this instead of modelling a branch.
- Map iteration order: Go's map iteration order is not modelled. The sort at main.go:59 makes it irrelevant, so the keys are a set and the sort picks the least remaining key each time.
- Error values: error texts and the `fmt`/`errors` calls are left out. A panic is one of three error kinds.
- Not behaviour: `main()` and the `ParseOp` constants (main.go:18-26) have none.
- The test file's API: `ProtoValue`, `ProtoType`, `PutType`, zigzag and `Int32`/`Sint32` width handling exist only in `main_test.go`, not in `main.go`, so they are not modelled.
- Where the test vectors disagree with `main.go`, the model follows the code:
  - zero is written as `08`, not `08 00`;
  - the empty string is written as `09`, not `09 00`;
  - 129 is written as `01 01`, not `81 01`;
  - -1 is written as the tag alone.
- Dynamic types: the `interface{}` type switches become the closed `Value` datatype. Any value that is neither an int nor a string is `Unsupported`.
