# cbor42 in Dafny

A model of the `cbor42` crate: the canonical CBOR codec behind the
DAG-CBOR multicodec (code 0x51). It writes IPLD values with every length
and integer in its shortest form. It reads values back through a
"try to read" discipline. Each decoder looks at one leading byte. It then
claims the item, declines it, or fails. `read` turns a decline into
`UnexpectedCode`.

The model works on byte sequences. A reader takes the input and returns
what it read together with the rest of the input. A `Result` carries the
crate's error kinds (`Io`, `Utf8`, `LengthOutOfRange`, `NumberOutOfRange`,
`UnexpectedCode`, `UnknownTag`, `InvalidCidPrefix`, `CidParse`,
`UnexpectedKey`). The modules are:

- `ByteOrder`: big-endian numbers of 1, 2, 4 and 8 bytes.
- `Results`: errors, the claim/decline result and `Settle`, which is what `read` does with a decline.
- `Utf8`: well-formed UTF-8, as `std::str::from_utf8` accepts it.
- `SortedMap`: `BTreeMap<String, _>` as a key-sorted association list.
- `Ipld`: the `Ipld` value, CIDs, floats as IEEE-754 bit patterns, and the collaborators below.
- `Reader`: the `read_*` helpers of `src/decode.rs`.
- `Encode`: `src/encode.rs`.
- `Headers`: the shortest-form header rule.
- `ScalarDecode`, `IpldDecode`, `MapDecode` and `TypedDecode`: the `TryReadCbor` implementations.
- `RoundTrip` and `TypedRoundTrip`: write-then-read properties.
- `DecodeFacts`: consequences of the decoders.
- `TypedFacts`: the typed `read_list::<T>` and `read_map::<T>` without their recursion: the elements in wire order, and the pairs inserted in order.
- `KeyCheck`: `read_key`.
- `Codec`: `src/lib.rs`.

Code the model cannot see is passed in as an `Externals` value:

- the platform's `usize::MAX`, anywhere from 2^32 - 1 to 2^64 - 1;
- the CID parser `Cid::try_from`;
- the `f64 as f32` and `f32 as f64` conversions.

A lemma that needs a fact about them states it as a hypothesis. Examples
are `CidBytesRoundTrip`, for "the CID library reads back what it writes",
and `WideningKeepsNonFinite`.

Integers are unbounded in Dafny. The source's widths are written out:

- `u8`..`u64` read arguments up to 256^w;
- `i8`..`i64` wrap with `as iN` (`AsSigned`);
- the `i128` encoder checks the band [-2^64, 2^64 - 1];
- lengths are checked against `usize::MAX`.

Where the code and the crate's description differ, the model follows the
code:

- A major type 6 leading byte other than 0xd8 is declined by the `Ipld`
  decoder, so `read` reports `UnexpectedCode`, not `UnknownTag`.
  `UnknownTag` comes only from inside `read_link`.
- `u8`, `u16` and `u32` decline an argument written wider than the type
  (`u8` declines 0x19, even for a value that fits). So not every valid
  width is accepted.
- `read_key` does not read a length-prefixed text string. See Findings.
- `TryFrom<u64>` accepts every code, not only 0x51.
- `Encode for i8`..`i64` writes major type 1 with argument -(x+1) wrapped
  to the type's width, for non-negative x as well. The signed decoders undo
  this, so the typed pair round-trips (`TypedRoundTrip.SignedRoundTrip`).
  The `Ipld` decoder reads the same bytes as x - 2^N
  (`TypedRoundTrip.NonNegativeSignedReadAsNegative`).

## Model

| member | source | states |
|---|---|---|
| ByteOrder.FromBE | src/decode.rs:17-33 | a w-byte big-endian number is below 256^w |
| ByteOrder.ToBE | src/decode.rs:17-33 | writing n in w big-endian bytes gives w bytes that read back as n |
| ByteOrder.ToBEFromBE | src/decode.rs:17-33 | reading w bytes and writing the number back in w bytes gives the same bytes, so reader and writer are inverse both ways |
| Results.Settle | src/decode.rs:69-76 | `read` turns a decline into `UnexpectedCode`, passes an error through unchanged, and returns a claimed item as is |
| Utf8.Validate | src/decode.rs:53-57 | the scan accepts the bytes exactly when they are well-formed UTF-8 |
| SortedMap.BelowIrreflexive | src/decode.rs:86-94 | no key sorts before itself in the `String` order `BTreeMap` uses |
| SortedMap.BelowTransitive | src/decode.rs:86-94 | the key order is transitive |
| SortedMap.BelowTotal | src/decode.rs:86-94 | any two different keys are ordered one way or the other |
| SortedMap.BelowAsymmetric | src/decode.rs:86-94 | two keys are never ordered both ways |
| SortedMap.Insert | src/decode.rs:91 | `BTreeMap::insert` adds at most one entry |
| SortedMap.InsertLookup | src/decode.rs:91 | after inserting k, k maps to the new value and every other key keeps its old value or stays absent |
| SortedMap.InsertKeys | src/decode.rs:91 | inserting k adds exactly k to the key set |
| SortedMap.InsertSorted | src/decode.rs:91 | inserting keeps the map strictly key-sorted |
| SortedMap.InsertAbove | src/decode.rs:91 | inserting a key above every present key appends the entry |
| SortedMap.InsertAll | src/decode.rs:86-94 | inserting a run of pairs leaves at most the old size plus the number of pairs |
| SortedMap.InsertAllLookup | src/decode.rs:86-94 | after inserting a run of pairs, a key has the value of its last pair in the run, or its old value if the run never names it |
| SortedMap.InsertAllAbove | src/decode.rs:86-94 | inserting sorted pairs that all sort above the present keys appends them in order |
| Reader.ReadU8 | src/decode.rs:11-15 | fails with `Io` exactly on empty input; otherwise the input is the byte read followed by the rest |
| Reader.ReadUint | src/decode.rs:17-33 | fails with `Io` exactly when fewer than w bytes remain; otherwise the input is the big-endian form of the number followed by the rest |
| Reader.ReadF32 | src/decode.rs:35-39 | fails with `Io` exactly when fewer than 4 bytes remain; otherwise it splits off the 4-byte float |
| Reader.ReadF64 | src/decode.rs:41-45 | fails with `Io` exactly when fewer than 8 bytes remain; otherwise it splits off the 8-byte float |
| Reader.ReadBytes | src/decode.rs:47-51 | fails with `Io` exactly when fewer than len bytes remain; otherwise it returns exactly the next len bytes |
| Reader.ReadStr | src/decode.rs:53-57 | `Io` exactly on a short input; `Utf8` exactly when the next len bytes are not well-formed; otherwise those bytes as text |
| Reader.ReadKey | src/decode.rs:59-67 | succeeds exactly when the key equals the bytes after the first one; `Io` exactly on a short input |
| Reader.ReadArgument | src/decode.rs:400-412 | additional info 0-23 is the argument itself; 24-27 announce 1, 2, 4 or 8 big-endian bytes; a code above the type's widest one is declined; a short input is `Io` |
| Reader.ArgumentBounds | src/decode.rs:400-412 | an argument read fits 64 bits, and fits 32 bits below code 27 |
| Reader.ReadLength | src/decode.rs:415-442 | a length is an argument of width up to 8 bytes; one above `usize::MAX` is `LengthOutOfRange` |
| Encode.Lead | src/encode.rs:14-23 | the leading byte carries the major type in its top three bits and the additional info in the low five |
| Encode.WriteNull | src/encode.rs:8-11 | null is the single simple-value byte 0xf6 |
| Encode.WriteU8 | src/encode.rs:14-23 | writes the shortest header for a value below 2^8 |
| Encode.WriteU16 | src/encode.rs:26-35 | writes the shortest header for a value below 2^16 |
| Encode.WriteU32 | src/encode.rs:38-47 | writes the shortest header for a value below 2^32 |
| Encode.WriteU64 | src/encode.rs:50-59 | writes the shortest header for a value below 2^64 |
| Encode.WriteTag | src/encode.rs:62-64 | a tag is the shortest major type 6 header for its number |
| Encode.WriteUint | src/encode.rs:74-96 | the per-width writers all emit the shortest header of their value |
| Encode.EncodeBool | src/encode.rs:66-72 | a bool is one major type 7 byte, code 21 for true and 20 for false |
| Encode.EncodeUnsigned | src/encode.rs:74-96 | an unsigned integer is the shortest major type 0 header of its value |
| Encode.EncodeSigned | src/encode.rs:98-120 | an `iN` is the shortest major type 1 header of -(x+1) wrapped to N bits, for negative and non-negative x alike |
| Encode.EncodeI128 | src/encode.rs:185-200 | fails with `NumberOutOfRange` exactly outside [-2^64, 2^64 - 1]; otherwise it writes the shortest major 0 header of x, or the shortest major 1 header of -(x+1) |
| Encode.EncodeF32 | src/encode.rs:122-140 | a finite `f32` is 0xfa and its four bytes; infinities and NaN become the half floats 0x7c00, 0xfc00 and 0x7e00 behind 0xf9 |
| Encode.EncodeF64 | src/encode.rs:142-155 | an `f64` that survives `as f32` is written as an `f32`, and so is a non-finite one; every other is 0xfb and its eight bytes |
| Encode.EncodeBytes | src/encode.rs:157-169 | a byte string is its shortest major type 2 header followed by the bytes |
| Encode.EncodeStr | src/encode.rs:171-183 | a text string is its shortest major type 3 header followed by its UTF-8 bytes |
| Encode.EncodeCid | src/encode.rs:202-214 | a link is tag 42 (0xd8 0x2a), then a byte string of a zero byte and the CID's bytes |
| Encode.EncodeNone | src/encode.rs:216-225 | `None` is the single byte 0xf6: major type 7, simple value 22 |
| Encode.EncodeValue | src/encode.rs:248-262 | encoding an `Ipld` value fails, with `NumberOutOfRange`, exactly when some integer inside it is out of range |
| Encode.ContainerLayout | src/encode.rs:227-246 | a list is the shortest major type 4 header of its length followed by its items in order, and a map is the shortest major type 5 header of its size followed by its key/value pairs in order |
| Encode.EncodeItems | src/encode.rs:227-235 | a list body fails exactly when some item's integers are out of range |
| Encode.EncodeEntries | src/encode.rs:237-246 | a map body fails exactly when some value's integers are out of range |
| Encode.EncodeTuple | src/encode.rs:270-317 | a tuple of up to four elements is an array header of its arity followed by the elements in order |
| Headers.ShortestHeaderReads | src/decode.rs:400-412 | the argument reader reads the shortest header back as its value and stops right after it |
| Headers.ShortestHeaderLength | src/decode.rs:415-442 | a shortest header of a length up to `usize::MAX` reads back as that length |
| Headers.ShortestHeaderUnique | src/encode.rs:50-59 | each value has exactly one shortest header |
| Headers.CascadeAgrees | src/encode.rs:74-96 | writing with the narrow writers gives the same bytes as `write_u64` |
| Headers.HeaderMinimal | src/encode.rs:50-59 | any header the reader accepts is at least as long as the one `write_u64` writes for its value, and equal to it when as long |
| ScalarDecode.TryReadBool | src/decode.rs:154-162 | claims exactly 0xf4 (false) and 0xf5 (true) and reads nothing more |
| ScalarDecode.TryReadUnsigned | src/decode.rs:165-212 | declines exactly the codes wider than the type; for a major type 0 byte the result is exactly the argument reader's, errors included; what it reads fits the type |
| ScalarDecode.AsSigned | src/decode.rs:215-263 | `as iN` gives the unique value in the signed N-bit range congruent to the argument modulo 2^N |
| ScalarDecode.TryReadSigned | src/decode.rs:215-263 | claims exactly the major type 1 bytes up to the type's widest code; an error of the unsigned argument is passed on; otherwise the result is -1 minus the argument wrapped with `as iN`, and it lies in the type's range |
| ScalarDecode.TryReadF32 | src/decode.rs:265-272 | claims exactly 0xfa and reads the four bytes after it |
| ScalarDecode.TryReadF64 | src/decode.rs:275-283 | claims exactly 0xfa, widened with `as f64`, and 0xfb |
| ScalarDecode.TryReadByteBuf | src/decode.rs:317-335 | claims exactly 0x40..0x5b; an error from the length (`Io`, `LengthOutOfRange`) is passed on; a payload shorter than the length is `Io`; otherwise the result is exactly the next length bytes and the rest |
| ScalarDecode.TryReadString | src/decode.rs:286-304 | claims exactly 0x60..0x7b; an error from the length (`Io`, `LengthOutOfRange`) is passed on; a payload shorter than the length is `Io`; ill-formed UTF-8 is `Utf8`; otherwise the result is exactly the next length bytes and the rest |
| ScalarDecode.ReadString | src/decode.rs:286-304 | `read::<String>` consumes at least the leading byte and leaves a suffix of its input |
| ScalarDecode.ReadLink | src/decode.rs:96-117 | each error is given with its input: `Io` on short input, `UnknownTag` for a tag other than 42 or a length byte other than 0x58, `LengthOutOfRange` for length 0, `InvalidCidPrefix` for a nonzero first byte, `CidParse` when `Cid::try_from` refuses the bytes after the prefix; when it accepts them, the link is that CID and reading stops at the end of the payload |
| ScalarDecode.ReadLinkPayload | src/decode.rs:106-116 | after the length byte: a short input is `Io`, a nonzero first byte is `InvalidCidPrefix`, a refused parse of the bytes between the prefix and the end of the payload is `CidParse`, and an accepted parse is the link, with reading stopped at the end of the payload |
| ScalarDecode.TryReadCid | src/decode.rs:307-314 | claims exactly 0xd8 and then reads a link |
| IpldDecode.TryReadInteger | src/decode.rs:400-412 | major type 0 reads the argument and major type 1 reads -1 minus it, giving integers in [0, 2^64) and [-2^64, 0); codes 28-31 are declined |
| IpldDecode.TryReadLeaf | src/decode.rs:397-548 | the non-container arms claim exactly the leading bytes the `Ipld` decoder lists, and what they read is valid; 0xf4 and 0xf5 are `Bool(false)` and `Bool(true)`, 0xf6 and 0xf7 (undefined) are both `Null`, and neither consumes anything; the integer, bytes, text, link and float arms are exactly their rule's outcome: its error (`Io`, `Utf8`, `LengthOutOfRange`, a link error) passed on, its decline, or its value inside the matching constructor |
| IpldDecode.ReadValue | src/decode.rs:69-76 | `read::<Ipld>` is `Io` on empty input, fails with `UnexpectedCode` on a leading byte `Ipld` declines, and otherwise consumes input and returns a valid value |
| IpldDecode.TryReadValue | src/decode.rs:397-548 | `Ipld` declines exactly the reserved integer codes, indefinite lengths, tags other than 0xd8, and simple values other than false, true, null, undefined and the two float widths |
| IpldDecode.TryReadIpldList | src/decode.rs:474-502 | claims major type 4 except codes 28-31, and the list it returns is valid and stops inside the input |
| IpldDecode.TryReadIpldMap | src/decode.rs:504-532 | claims major type 5 except codes 28-31, and the map it returns is valid and stops inside the input |
| IpldDecode.ReadList | src/decode.rs:78-84 | `read_list` returns exactly n valid items and stops inside its input |
| IpldDecode.ReadEntry | src/decode.rs:89-90 | one pass of `read_map`'s loop reads a text key, then a value |
| IpldDecode.ReadMap | src/decode.rs:86-94 | `read_map` keeps at most n more entries than it started with, and keeps every value valid |
| IpldDecode.InsertKeepsValid | src/decode.rs:91 | inserting a valid value keeps the map's values valid |
| MapDecode.ReadPairs | src/decode.rs:86-94 | reads exactly n key/value pairs in wire order, all values valid |
| MapDecode.ReadMapInsertsPairs | src/decode.rs:86-94 | `read_map` fails exactly when reading its pairs fails, with the same error; otherwise it is the pairs inserted in order, stopping at the same place |
| MapDecode.ReadMapLastWins | src/decode.rs:86-94 | a repeated key keeps the value of its last occurrence, and a key never read is absent |
| TypedDecode.ReadTyped | src/decode.rs:69-76 | `read::<T>` is `Io` on empty input, fails with `UnexpectedCode` on a leading byte T declines, and otherwise consumes input and returns a value of type T |
| TypedDecode.TryReadTyped | src/decode.rs:154-395 | each `TryReadCbor` declines exactly the leading bytes its type does not claim, and what it reads has its type |
| TypedDecode.TryReadTypedVec | src/decode.rs:355-373 | `Vec<T>` claims major type 4 except codes 28-31 and reads elements of type T |
| TypedDecode.TryReadTypedMap | src/decode.rs:376-394 | `BTreeMap<String, T>` claims major type 5 except codes 28-31 and reads values of type T |
| TypedDecode.ReadTypedList | src/decode.rs:78-84 | the typed `read_list` returns exactly n elements, all of type T |
| TypedDecode.ReadTypedMap | src/decode.rs:86-94 | the typed `read_map` keeps the map sorted and every value of type T |
| RoundTrip.RoundTripsValid | src/lib.rs:47-60 | a value that round-trips has sorted maps and in-range integers |
| RoundTrip.IntegerRoundTrip | src/encode.rs:185-200 | every integer in [-2^64, 2^64 - 1] is written and read back exactly, leaving what follows untouched |
| RoundTrip.BytesRoundTrip | src/encode.rs:157-163 | a byte string whose length fits `usize` reads back exactly |
| RoundTrip.TextRoundTrip | src/encode.rs:171-177 | a text string whose length fits `usize` reads back exactly, as a `String` and as an `Ipld` |
| RoundTrip.F32Arm | src/decode.rs:542 | 0xfa and four bytes read as the widened float |
| RoundTrip.F64Arm | src/decode.rs:543 | 0xfb and eight bytes read as that float |
| RoundTrip.FloatRoundTrip | src/encode.rs:142-155 | a finite `f64` reads back exactly, whichever width the encoder picked |
| RoundTrip.NonFiniteFloatRejected | src/encode.rs:122-140 | infinities and NaN are written as half floats, which the decoder refuses with `UnexpectedCode` |
| RoundTrip.LinkHeaderInWindow | src/encode.rs:202-214 | a link of 24 to 255 bytes, prefix included, has the one-byte length header 0x58 |
| RoundTrip.ReadLinkBack | src/decode.rs:96-117 | `read_link` reads back the CID the encoder wrote in the window |
| RoundTrip.LinkRoundTrip | src/encode.rs:202-214 | a link whose prefixed bytes take 24 to 255 bytes reads back exactly |
| RoundTrip.LinkLengthRejected | src/decode.rs:102-104 | any length byte after tag 42 other than 0x58 is `UnknownTag` |
| RoundTrip.CidLayout | src/encode.rs:202-214 | the written link is 0xd8, 42, a header, a zero byte and the CID's bytes |
| RoundTrip.ShortLinkRejected | src/decode.rs:102-104 | a link the encoder writes with a one-byte header (under 24 bytes) is refused with `UnknownTag` |
| RoundTrip.LongLinkRejected | src/decode.rs:102-104 | a link the encoder writes with a header wider than 0x58 (256 bytes or more) is refused with `UnknownTag` |
| RoundTrip.ListArm | src/decode.rs:474-502 | a list reads as its length, then that many items |
| RoundTrip.MapArm | src/decode.rs:504-532 | a map reads as its length, then `read_map` from an empty map |
| RoundTrip.ReadListHeader | src/encode.rs:227-235 | the list header the encoder writes is read back as the list's length |
| RoundTrip.ReadMapHeader | src/encode.rs:237-246 | the map header the encoder writes is read back as the map's length |
| RoundTrip.ReadListStep | src/decode.rs:78-84 | a list of n items is its first item followed by n-1 more |
| RoundTrip.ReadPairsStep | src/decode.rs:86-94 | n pairs are the first pair followed by n-1 more |
| RoundTrip.EncodeItemsCons | src/encode.rs:227-235 | a list body is the first item's encoding followed by the rest |
| RoundTrip.EncodeEntriesCons | src/encode.rs:237-246 | a map body is the first key, its value, and then the rest |
| RoundTrip.ValueRoundTrip | src/lib.rs:47-60 | every value with sorted maps, in-range integers, finite floats and links in the window is written and read back equal |
| RoundTrip.ItemsRoundTrip | src/encode.rs:227-235 | the items of a list body read back in order |
| RoundTrip.PairsRoundTrip | src/encode.rs:237-246 | the pairs of a map body read back in order |
| RoundTrip.EntryRoundTrip | src/decode.rs:89-90 | one written key and value read back as that entry |
| RoundTrip.MapRebuilds | src/decode.rs:86-94 | inserting sorted pairs into an empty map rebuilds the same map |
| DecodeFacts.ReadListSplit | src/decode.rs:78-84 | reading n+m items is reading n and then m more from where they stopped |
| DecodeFacts.FirstErrorAborts | src/decode.rs:78-84 | the first item that fails ends the whole list with its error |
| DecodeFacts.IpldListOutcome | src/decode.rs:474-502 | the `Ipld` list arm fails with the length's error (`Io`, `LengthOutOfRange`); after the length it is exactly `read_list`'s outcome: the first item error, or the items as a `List` |
| DecodeFacts.IpldMapOutcome | src/decode.rs:504-532 | the `Ipld` map arm fails with the length's error; after the length it is exactly `read_map`'s outcome from an empty map: its error, or the entries as a `Map` |
| DecodeFacts.TypedVecOutcome | src/decode.rs:355-373 | `Vec<T>` fails with the length's error; after the length it is exactly `read_list::<T>`'s outcome |
| DecodeFacts.TypedMapOutcome | src/decode.rs:376-394 | `BTreeMap<String, T>` fails with the length's error; after the length it is exactly `read_map::<T>`'s outcome from an empty map |
| DecodeFacts.ReadPassesErrors | src/decode.rs:69-76 | `read` passes the rule's error on unchanged, for `Ipld` and for every typed rule |
| DecodeFacts.NonTextKeyRejected | src/decode.rs:89 | a map key that is not text is `UnexpectedCode` |
| DecodeFacts.TypedNonTextKeyRejected | src/decode.rs:376-394 | the same holds for `BTreeMap<String, T>` |
| DecodeFacts.ReservedCodesRejected | src/decode.rs:544 | the reserved integer codes and the half float 0xf9 are declined without reading further, and `read` reports `UnexpectedCode` |
| DecodeFacts.NarrowUnsignedDeclines | src/decode.rs:165-212 | a fixed-width unsigned type declines an argument written wider than itself |
| DecodeFacts.OptionNullIsNone | src/decode.rs:338-352 | `Option<T>` reads null and undefined as `None` for every T |
| DecodeFacts.IntegerLead | src/decode.rs:400-412 | an integer the generic decoder reads starts with a major type 0 or 1 byte |
| DecodeFacts.IntegerCanonical | src/encode.rs:185-200 | re-encoding a decoded integer never takes more bytes, and gives the same bytes when it takes as many |
| DecodeFacts.IntegerRuleCanonical | src/decode.rs:400-412 | the same, from the integer arm |
| DecodeFacts.HeaderCanonical | src/encode.rs:50-59 | any header the reader accepts is no shorter than `write_u64`'s, and equal to it when as long |
| TypedFacts.TypedListSplit | src/decode.rs:78-84 | reading n+m elements of type T is reading n and then m more from where they stopped; an error of either part is the error of the whole |
| TypedFacts.TypedListCons | src/decode.rs:78-84 | a list of n elements is its first element followed by the other n-1, in wire order |
| TypedFacts.TypedListConsErr | src/decode.rs:78-84 | an error among the elements after the first is the error of the whole list |
| TypedFacts.TypedFirstErrorAborts | src/decode.rs:78-84 | the first element that fails to read ends `read_list::<T>` with its error |
| TypedFacts.TypedListRoundTrip | src/decode.rs:78-84 | elements written one after another, each of which `read::<T>` reads back, are read back as exactly those elements, in order, with the tail left over |
| TypedFacts.ReadTypedPairs | src/decode.rs:86-94 | the pairs of a map body, each a `String` key then a value of type T, in wire order; n of them when reading succeeds |
| TypedFacts.TypedPairsCons | src/decode.rs:86-94 | the pairs are the first key and value followed by the pairs after them |
| TypedFacts.TypedMapCons | src/decode.rs:86-94 | after one key and value, `read_map::<T>` continues with that pair inserted into the map |
| TypedFacts.TypedMapInsertsPairs | src/decode.rs:86-94 | `read_map::<T>` fails exactly when reading the pairs fails, with the same error, and otherwise is the accumulator with the pairs inserted in order |
| TypedFacts.TypedReadMapLastWins | src/decode.rs:86-94 | in a decoded `BTreeMap<String, T>` each key has the value of its last pair in the body, and a key not among them is absent |
| KeyCheck.ShortKeyAccepted | src/decode.rs:59-67 | a key of up to 23 bytes written by the encoder is accepted |
| KeyCheck.LongKeyRefused | src/decode.rs:59-67 | a key of 24 to 255 bytes written by the encoder is refused, unless every byte of it equals its length |
| KeyCheck.LongUniformKeyAccepted | src/decode.rs:59-67 | a key of 24 to 255 bytes that all equal its length is accepted, with reading stopped one byte short of the key's end |
| KeyCheck.ByteStringTakenForKey | src/decode.rs:59-67 | a byte string holding the key's bytes is accepted as the key |
| KeyCheck.ReadKeyChecked | src/decode.rs:59-67 | the corrected helper succeeds exactly when the string read is the expected key, and otherwise fails with `UnexpectedKey` |
| KeyCheck.KeyRoundTrip | src/decode.rs:59-67 | the corrected helper accepts every key the encoder writes, of any length |
| KeyCheck.OtherKeyRefused | src/decode.rs:59-67 | the corrected helper refuses every other key |
| TypedRoundTrip.UnsignedRoundTrip | src/encode.rs:74-96 | `u8`..`u64` read back every value they write |
| TypedRoundTrip.SignedArgument | src/decode.rs:215-263 | undoing the major type 1 transform with `as iN` gives back x |
| TypedRoundTrip.SignedRoundTrip | src/encode.rs:98-120 | `i8`..`i64` read back every value they write, non-negative values included |
| TypedRoundTrip.NonNegativeSignedReadAsNegative | src/encode.rs:98-120 | a non-negative x written as `iN` reads as the `Ipld` integer x - 2^N |
| TypedRoundTrip.BoolRoundTrip | src/encode.rs:66-72 | `bool` reads back what it writes |
| TypedRoundTrip.StringRoundTrip | src/encode.rs:171-183 | `String` reads back a text whose length fits `usize` |
| TypedRoundTrip.BytesTypedRoundTrip | src/encode.rs:157-169 | `Box<[u8]>` reads back bytes whose length fits `usize` |
| TypedRoundTrip.F32RoundTrip | src/encode.rs:122-140 | `f32` reads back a finite value |
| TypedRoundTrip.F64RoundTrip | src/encode.rs:142-155 | `f64` reads back a finite value, whichever width was written |
| TypedRoundTrip.CidRoundTrip | src/encode.rs:202-214 | `Cid` reads back a link in the window |
| TypedRoundTrip.NoneRoundTrip | src/encode.rs:216-225 | `Option<T>` reads `None` back for every T |
| TypedRoundTrip.SomeRoundTrip | src/encode.rs:216-225 | `Option<T>` reads `Some(x)` back wherever T reads x from bytes not starting with null or undefined |
| Codec.ToCode | src/lib.rs:19-23 | the codec's code is 0x51, which fits a `u64` |
| Codec.FromCode | src/lib.rs:25-31 | `TryFrom<u64>` succeeds for every code |
| Codec.CodeRoundTrip | src/lib.rs:19-31 | the codec's code is 0x51, and converting it back gives the codec |
| Codec.LinksOfExact | src/lib.rs:62-72 | scanning for references finds every embedded link at any depth, and nothing else |
| Codec.ReferencesFound | src/lib.rs:62-72 | scanning the written bytes of a value finds every link it embeds |
| Codec.SampleKeysBelow | src/lib.rs:50-56 | the sample's keys are in `BTreeMap` order |
| Codec.SampleRoundTrips | src/lib.rs:50-56 | the sample value round-trips for any keys in order |
| Codec.SampleRoundTrip | src/lib.rs:47-60 | the round-trip test's value is written and read back equal, with nothing left over |
| Codec.SampleReferences | src/lib.rs:62-72 | the references test's value, written, yields its link |

## Left out

- I/O: the `Read` and `Write` traits become byte sequences. A short read is `Io`. Writing to a `Vec` cannot fail, so the encoders return bytes.
- IEEE-754 arithmetic: `f64 as f32` and `f32 as f64` are parameters. Finite, infinite and NaN are classified on the bits.
- The CID library: `Cid::to_bytes` is the CID's bytes and `Cid::try_from` is a parameter. Its round trip is a hypothesis (`CidBytesRoundTrip`). `Cid::new_v1` and the Blake3 digests of the tests are represented by an arbitrary CID whose bytes fit the link window.
- The codec registry and `references`: `Ipld.LinksOf` stands for the scan.
- Trait and macro plumbing: `impl_decode!`, `Decode`, `Cbor42`, the `Arc` and `Box` forwarding impls, and the error conversions.
- Recursion depth: the Rust decoder recurses on the call stack. The model has no depth limit.
- Allocation before reading: `read_bytes` allocates `vec![0; len]` (src/decode.rs:48) and `read_list` calls `Vec::with_capacity(len)` (src/decode.rs:79) before reading anything. A huge length that passes the `usize::MAX` check makes Rust panic or abort. One example is the byte string header `5b 80 00 00 00 00 00 00 00` on a 64-bit target. The model has no allocator, so it returns `Io` there when the input is too short.
- Encode.EncodeSigned: does not model the debug-build overflow of `-(x + 1)` at `iN::MAX`. It wraps as a release build does.
- Encode.EncodeTuple: takes the elements already encoded. The elements' own encoders are modelled separately.
- A typed write-then-read round trip of a whole `Vec<T>` or `BTreeMap<String, T>` is not stated. `TypedFacts.TypedListRoundTrip` gives the body of a list for any element type whose values read back.
- Encode.EncodeF64: the choice between the 4- and 8-byte form is stated through the `narrow` and `widen` parameters, not IEEE-754 arithmetic.
- Utf8.Validate: stands for `std::str::from_utf8`. Well-formedness is stated on bytes; decoding to code points is not modelled.
- IpldDecode.TryReadIpldList: the contract does not give the outcome of the length and of the item reads. `DecodeFacts.IpldListOutcome` states it. In the contract, the recursive `ReadList` it mentions makes every proof that unfolds the decoders too costly.
- IpldDecode.TryReadIpldMap: the outcome of the length and of `read_map` is stated by `DecodeFacts.IpldMapOutcome`, for the same reason.
- TypedDecode.TryReadTypedVec: the outcome of the length and of `read_list::<T>` is stated by `DecodeFacts.TypedVecOutcome`, for the same reason.
- TypedDecode.TryReadTypedMap: the outcome of the length and of `read_map::<T>` is stated by `DecodeFacts.TypedMapOutcome`, for the same reason.
- IpldDecode.ReadValue: that the rule's own error is passed on is stated by `DecodeFacts.ReadPassesErrors`, for the same reason.
- TypedDecode.ReadTyped: that the rule's own error is passed on is stated by `DecodeFacts.ReadPassesErrors`, for the same reason.
- TypedDecode.ReadTypedList: the contract gives the count and the element types. The elements themselves, in wire order, are stated by `TypedFacts.TypedListSplit`, `TypedFacts.TypedFirstErrorAborts` and `TypedFacts.TypedListRoundTrip`, for the same reason.
- TypedDecode.ReadTypedMap: the contract gives sortedness and the value types. The contents are stated by `TypedFacts.TypedMapInsertsPairs` and `TypedFacts.TypedReadMapLastWins`, for the same reason.
- ScalarDecode.ReadString: states only that input is consumed. Its content is stated by `RoundTrip.TextRoundTrip`.
- SortedMap.Insert: states only the size. Its content is stated by `SortedMap.InsertLookup`, `SortedMap.InsertKeys` and `SortedMap.InsertSorted`.

## Findings

| source | as written | input that shows it | evidently intended | confidence | as-written member | corrected member |
|---|---|---|---|---|---|---|
| src/decode.rs:59-67 | `read_key` skips one byte and compares the next `key.len()` bytes with the key. A text header is one byte only below 24 bytes. | the encoded key of 24 bytes `a`: 0x78 0x18 followed by 24 bytes 0x61. The window starts at 0x18, so the key is refused. A byte string 0x41 0x61 is accepted as the key "a". | read a text string, header included, and compare it with the key | medium, not executed | KeyCheck.LongKeyRefused | KeyCheck.ReadKeyChecked |

`KeyCheck.ByteStringTakenForKey` shows the second half of the as-written
behaviour. `KeyCheck.KeyRoundTrip` and `KeyCheck.OtherKeyRefused` prove that
the corrected reader accepts exactly the keys the encoder writes. No other
function in the crate calls `read_key`, so nothing else depends on the
correction.
