# A verified model of nanopb

nanopb 0.3.9.8 is the Protocol Buffers runtime vendored under `project/Pods/nanopb`. This project
models its encoder, its decoder and the field iterator they share, and proves that they fit
together: what is encoded is what is decoded, for every message description and every message.

The model has two layers.

The **specification** is a set of functions on values. A message description (`Schema`) is a list
of fields with the offsets of their members; a struct is a map from offset to cell. `Encoding` says
which bytes a struct becomes. `Decoding` says what a run of the decoder makes of a byte string: one
record at a time, with the state that `pb_decode_noinit` keeps between records. `RoundTrip`,
`NormalForm`, `Typing`, `Runs`, `Traces`, `FieldRuns` and `AllFields` state what this means: round
trip, merging, transparency of unknown fields, packed against unpacked, and what required, optional,
repeated, oneof and fixed-count fields take and hold after a whole run. `Acceptance` and `Initial`
say it of byte strings: exactly which inputs are accepted, what every field then holds, and what
fields without records hold. `Wire` and `Encodable` describe both sides in numbers: the bytes of
every type, what any bytes are read as, and which structs encode. `Varint`, `Integers` and `Bitset`
hold the arithmetic.

The **program** is imperative and refines the specification. `InputStream` and `Encoder.OStream`
are the streams as classes; `FieldIter` walks the delta-encoded descriptors; `Decoder` and `Encoder`
are the functions of `pb_decode.c` and `pb_encode.c` as methods with the loops of the source. Every
method says exactly when it succeeds and what it leaves. `Substreams` runs streams under arbitrary
nested use, and `EndToEnd` runs encoder and decoder one after the other.

`Heap`, `Layout`, `Releasing`, `Feeding`, `Ownership` and `Destination` model the decoder once more for
builds with `PB_ENABLE_MALLOC` and pointer fields: memory is seen as what it owns, allocations may
fail at any time, and message types may be recursive. Blocks have identities, `Ids` collects those
that `pb_release` would reach with multiplicity, and every method keeps books on how the live blocks
change, with what was lost (freed or reached without being owned) and leaked. The destination may be
any memory; `Feeding` gives the exact outcome on inputs that allocate nothing, from which
`Destination` derives which destinations are safe. `Depth` measures how deep the submessages of an
input nest.

The static decoder, too, is that of a build with `PB_ENABLE_MALLOC`: before a oneof field is
decoded, `pb_release_union_field` looks the old which_ value up and refuses one that is no field's
number (`Decoding.UnionTagOk`). Without `PB_ENABLE_MALLOC` that refusal does not exist.

`PB_SIZE_MAX` is a parameter (`Schema.SIZE_WIDTH`: 1, 2 or 4 bytes); `size_t` has 64 bits. The word
and byte arithmetic is written out: truncation modulo 2^32 and 2^64, two's complement, sign
extension.

What the methods and lemmas require of their caller is what the source requires: field numbers are
distinct and between 1 and 2^29 - 1, only members of a union share memory, gaps between members are
below `PB_SIZE_MAX`, and the encoder's struct is initialized and holds what its C types can hold (a
count above its array included: the encoder refuses it). No byte string reaches 2^63 bytes.

Places where the code differs from what one would expect, and that the model follows:

- A proto3 singular field with a non-zero default does not survive the round trip when it holds zero
  (`NormalForm.FieldComesBack`).
- `pb_decode_tag` takes a zero word as the end of the message anywhere, and accepts tag 0 with a
  non-zero wire type; in an empty message such a record is read as a bool (`Decoding.TakeRecord`).
- In a packed record that carries no items, a full or over-full array is not an error
  (`Decoding.Store`).
- An unterminated string is encoded, but its own decoder refuses it (`NormalForm.UnterminatedString`, and
  `RoundTrip.Fits` in the exact condition).
- `pb_decode` is documented to initialize all fields but callbacks, yet it counts an entry of an
  embedded array before it initializes it. When the length of the entry cannot be read,
  `pb_release` frees what the old memory points to. Exactly the destinations whose array entries
  hold no pointers, zeroed memory for one, are safe (`Destination.DestinationExact`).
- An embedded array of submessages with `PB_SIZE_MAX` entries loses track of them on overflow
  (`Destination.OverflowLeaksBlock`); shorter ones do not (`Ownership.DecodeStatic`).

`dafny verify dfyconfig.toml` checks the project.

## Model

| member | source | states |
|---|---|---|
| RoundTrip.RoundTripExact | project/Pods/nanopb/pb_decode.c:928-1090 | for every well-formed description and well-typed struct that encodes, decoding exactly those bytes gives the struct's normal form and leaves nothing if every string ends inside its member and every submessage and packed length is below 2^32, and fails otherwise |
| EndToEnd.EncodeThenDecode | project/Pods/nanopb/pb_encode.c:528-550 | the same for the imperative encoder and decoder run on one memory, through a plain or a 16-byte-chunked stream: encoding succeeds exactly when the message fits the buffer, decoding then exactly when lengths and strings fit, with the normal form as result |
| NormalForm.FieldComesBack | project/Pods/nanopb/pb_encode.c:341-426 | what each field decodes to: its value, with strings cut at the first NUL; for an absent optional has_ false and the value the struct was initialized to (Initial.IsInitialVal); nothing selected in an unselected union; in all cases except exactly one, a proto3 singular field holding zero whose descriptor default is not zero, which gets the initial value |
| NormalForm.ZeroBecomesDefault | project/Pods/nanopb/pb_decode.c:874-890 | the input for that exception: an int32 singular field with default 5 holding 0 is not written and decodes to 5 |
| NormalForm.UnterminatedString | project/Pods/nanopb/pb_decode.c:1481-1517 | a one-byte string without a NUL is encoded and its three bytes are refused |
| Typing.DecodeTyped | project/Pods/nanopb/pb_decode.c:928-1024 | a successful decode of any bytes into a struct whose values fit their members leaves it so, at every depth: every number in range, every string with room for its NUL, every byte array inside its member with its size, no count above array_size |
| Typing.DecodeMsgTyped | project/Pods/nanopb/pb_decode.c:1078-1090 | a successful decode from the defaults, when these fit their members, gives such a struct |
| Depth.NestingOfBound | project/Pods/nanopb/pb_decode.c:946-1024 | the submessages in any input nest at most half as deep as it is long |
| Depth.NestingBound | project/Pods/nanopb/pb_decode.c:1519-1541 | so it is for message types that contain themselves |
| Depth.SelfNesting | project/Pods/nanopb/pb_decode.c:372-385 | and the bound is reached: a tag and a length nest a message one level deeper |
| Runs.TakeRecordExtends | project/Pods/nanopb/pb_decode.c:946-1023 | reading one record is unaffected by the bytes after it |
| Runs.RunAppend | project/Pods/nanopb/pb_decode.c:946-1024 | a run over two pieces of input is the run over the first continued over the second, for every description |
| Runs.ConcatenationMerges | project/Pods/nanopb/pb_decode.c:928-1076 | last one wins: decoding a ++ b into a struct is decoding b into the result of decoding a, failures included, when a is whole records and the top level has no required or fixed-count fields |
| Runs.CompleteMessagesMerge | project/Pods/nanopb/pb_decode.c:928-1076 | with required fields at the top level too, the concatenation of two messages that each decode is decoded to the same as the second into the result of the first |
| Runs.SplitSubmessageMerges | project/Pods/nanopb/pb_decode.c:1519-1541 | a submessage split over two records is merged as if it had come in one |
| Runs.UnknownIsTransparent | project/Pods/nanopb/pb_decode.c:960-988 | any one unknown record, byte for byte as Runs.TakeUnknown says, put at any record boundary (inside a fixed-count group too), changes neither struct nor verdict nor the bytes left |
| Runs.TakeUnknown | project/Pods/nanopb/pb_decode.c:946-989 | the byte strings read as exactly one unknown record: a readable tag word that is not zero and whose number no field has (0 included), followed by bytes from 128 on and one below for wire type 0, 8 bytes for 1, a readable length and that many bytes for 2, 4 bytes for 5; in a message without fields, tag 0 and a 32-bit varint |
| Runs.SkipExact | project/Pods/nanopb/pb_decode.c:278-332 | a value of that form is skipped exactly up to its end, whatever follows it |
| Runs.SkippedIsValue | project/Pods/nanopb/pb_decode.c:278-332 | and whatever is skipped is such a value |
| Runs.ZeroWordEnds | project/Pods/nanopb/pb_decode.c:310-314 | a zero byte at a record boundary ends the message: what is before it is decoded, or fails, as if it were all, and what is behind it is left |
| Traces.RunIsFold | project/Pods/nanopb/pb_decode.c:946-1024 | the loop over bytes is a fold over the records they contain, independent of how they are spread |
| Traces.RecordsDoNotInterfere | project/Pods/nanopb/pb_decode.c:946-1024 | records of two field sets that share no memory and no tracker can be interleaved in any way: success and each set's result are those of its own records alone |
| FieldRuns.RepeatedOverRun | project/Pods/nanopb/pb_decode.c:424-464 | on any list of records, others in between, the fold succeeds exactly when that of the others does, every item decodes and all fit array_size; the field then holds the old items followed by all new ones in order |
| FieldRuns.ChunkingDoesNotMatter | project/Pods/nanopb/pb_decode.c:424-464 | however a list of numbers is cut into packed chunks and single records, decoding it into an array, with or without _count, has the effect of one record with the whole list |
| FieldRuns.UnionOverRun | project/Pods/nanopb/pb_decode.c:1131-1162 | on any list of records, others in between, the fold succeeds exactly when that of the others does, the which_ value at the start is 0 or the number of a field, and each record can be merged into what it starts from; which_ is then the tag of the last oneof record, and the union holds the merge of exactly the records of that member since the last switch, from the defaults if there was one |
| FieldRuns.TailIsMaximal | project/Pods/nanopb/pb_decode.c:466-478 | the records counted as since the last switch are all of one member and cannot be extended to the left |
| FieldRuns.MergeKeepsLast | project/Pods/nanopb/pb_decode.c:466-478 | for scalar, string and bytes members that merge is the last record's value |
| FieldRuns.MergeIsConcatenation | project/Pods/nanopb/pb_decode.c:1519-1541 | for submessage types without required or fixed-count fields, and bodies of whole records, that merge is decoding the concatenated bodies |
| FieldRuns.MergeOfCompleteMessages | project/Pods/nanopb/pb_decode.c:1519-1541 | for submessage types with required fields it is so when every body decodes |
| FieldRuns.PlainOverRun | project/Pods/nanopb/pb_decode.c:414-422 | required, optional and proto3 fields on any list of records, others in between: the fold succeeds exactly when that of the others does and the records of the field merge, first to last, into what it held; it then holds that merge with has_ set, and is untouched without records |
| FieldRuns.RequiredOverRun | project/Pods/nanopb/pb_decode.c:1033-1073 | on any list of records that folds, the final checks pass exactly when the last fixed-count array is complete and each of the first 64 required fields appeared at least once, in any order |
| FieldRuns.RankedField | project/Pods/nanopb/pb_common.c:65-70 | positions among the required fields number them without gaps |
| FieldRuns.FixedOverRun | project/Pods/nanopb/pb_decode.c:994-1031 | on any list of records, the fold succeeds with the tracker satisfied exactly when the other records fold, every item decodes, and every maximal group of records of one fixed-count field carries exactly array_size items; each array then holds its last group |
| AllFields.FoldByClass | project/Pods/nanopb/pb_decode.c:946-1024 | a list of records folds exactly when the records of each union, of the fixed-count arrays together, and of each other field fold by themselves |
| AllFields.AllFieldsOverRun | project/Pods/nanopb/pb_decode.c:946-1031 | on any list of records, the fold succeeds with the tracker satisfied exactly when every field takes its own records and fixed-count groups fill their arrays, and every field then is what its own records make of what it held |
| Acceptance.RecordsAreOfFields | project/Pods/nanopb/pb_decode.c:946-1023 | the records of any input that parses are of fields of the description, so what is said of lists of records holds of inputs |
| Acceptance.DecodeExact | project/Pods/nanopb/pb_decode.c:928-1076 | pb_decode_noinit accepts an input exactly when it parses into records, every field takes its own (all array items decode and fit, which_ is 0 or known and every oneof record can be merged, the records of any other field can be merged), fixed-count records come in groups that fill their arrays, and each of the first 64 required fields appears; every field then holds what its own records make of what it held, nothing else in the struct has changed, and the bytes behind the records are left |
| Acceptance.RepeatedDecoded | project/Pods/nanopb/pb_decode.c:424-464 | after decoding an input, a static repeated field holds the old items followed by all items of its records in order; with a bad item or more than array_size of them the decode fails |
| Acceptance.UnionDecoded | project/Pods/nanopb/pb_decode.c:466-479 | an input whose records the union does not take is refused; otherwise which_ is the tag of the last record of a member and the union holds the merge of that member's records since the last switch |
| Acceptance.PlainDecoded | project/Pods/nanopb/pb_decode.c:414-422 | an input whose records of a required, optional or proto3 field do not merge is refused; otherwise the field holds the merge of all of them into what it held |
| Acceptance.LastOneWins | project/Pods/nanopb/pb_decode.c:1519-1541 | after decoding an input, a scalar, string or byte array is the value of its last record; a submessage without required or fixed-count fields at its top level is the decoding of all its bodies, joined, into what was there, also when it is optional and has_ was set |
| Acceptance.FreshSubmessage | project/Pods/nanopb/pb_decode.c:1531-1536 | an array entry, and a union member after a switch, is decoded as a message of its own |
| Initial.DefaultsAreInitial | project/Pods/nanopb/pb_decode.c:839-922 | setting defaults gives every required, optional and proto3 member the descriptor's default, or zero of its type if there is none, and every submessage the same at every depth; has_ is false, arrays are empty, which_ is 0 |
| Initial.AbsentIsInitial | project/Pods/nanopb/pb_decode.c:1078-1090 | after pb_decode, a member with no record in the input has that value |
| Varint.DecodersAgree | project/Pods/nanopb/pb_decode.c:187-276 | where both varint decoders accept, they consume the same bytes and the 32-bit result is the 64-bit one modulo 2^32 |
| Varint.RoundTrip64 | project/Pods/nanopb/pb_encode.c:608-628 | every 64-bit value encodes to at most ten bytes, and decoding them in front of any suffix gives the value and leaves the suffix |
| Varint.Decode64Exact | project/Pods/nanopb/pb_decode.c:255-276 | any varint, shortest or not, is read up to ten bytes, as its number modulo 2^64, and refused beyond |
| Varint.Decode32OfPadded | project/Pods/nanopb/pb_decode.c:209-243 | any varint of a number below 2^32 is read as that number by the 32-bit decoder, however it is padded |
| Varint.EncodeIsShortest | project/Pods/nanopb/pb_encode.c:608-628 | the encoding is no longer than any varint of the same value, and the only one of its length |
| Varint.Decode32Exact | project/Pods/nanopb/pb_decode.c:187-247 | on the encoding of any 64-bit value the 32-bit decoder succeeds exactly when the value is below 2^32, or bits 31 and 63 are set and each seven-bit group in between is all zeros or all ones; it returns the value modulo 2^32 |
| Varint.Decode32OfEncode | project/Pods/nanopb/pb_decode.c:187-247 | so below 2^63 it succeeds exactly below 2^32: tags and lengths are read back |
| Varint.Decode32OfNegative | project/Pods/nanopb/pb_decode.c:216-232 | it accepts every sign-extended negative int32 and returns it modulo 2^32 |
| Integers.ZigZagBijection | project/Pods/nanopb/pb_decode.c:1279-1291 | zigzag is the bijection 0, -1, 1, -2, ... between int64 and uint64, with the decoder as its inverse on both sides |
| Integers.IntegerRoundTrip | project/Pods/nanopb/pb_encode.c:776-833 | for 1-, 2-, 4- and 8-byte fields, signed and unsigned integers are written as their 64-bit two's complement words and zigzag ones as 2n or -2n-1; reading the word at the same width gives the integer back |
| Integers.IntegerAccepts | project/Pods/nanopb/pb_decode.c:1339-1422 | which 64-bit words a field accepts and what it stores: exactly those whose number (the word; its zigzag counterpart; its two's complement reading, cut to 32 bits unless the field has 8 bytes) fits the field, and that number |
| Integers.LittleEndianRoundTrip | project/Pods/nanopb/pb_decode.c:1293-1326 | fixed-width words come back from their little-endian bytes |
| Wire.IntegerOnWire | project/Pods/nanopb/pb_encode.c:776-833 | the bytes of an integer field are the varint of its 64-bit word, so a negative signed one takes ten bytes, and a 64-bit reader gets that word |
| Wire.ItemOnWire | project/Pods/nanopb/pb_encode.c:769-912 | the bytes of the other types: a bool is one byte, fixed32 and fixed64 their bytes from the lowest on, byte arrays and strings a length and that many bytes |
| Wire.RecordOnWire | project/Pods/nanopb/pb_encode.c:669-707 | a record starts with the varint of 8 * number + wire type: 0 for bool and integers, 1 for fixed64, 5 for fixed32, 2 for the rest; the item follows |
| Wire.ArrayOnWire | project/Pods/nanopb/pb_encode.c:147-232 | arrays of bool, integers, fixed32 and fixed64 are written as one record of wire type 2 with the length of all items, others as one record an item |
| Wire.ItemsInOrder | project/Pods/nanopb/pb_encode.c:194-228 | array items are written in order with nothing in between |
| Wire.FieldsInOrder | project/Pods/nanopb/pb_encode.c:528-550 | fields are written in the order of the description |
| Wire.VarintFromWire | project/Pods/nanopb/pb_decode.c:1328-1422 | a bool is false for every varint of 0 and true for every other below 2^32; an integer field takes any varint of up to ten bytes whose word stands for a number it can hold, and no other |
| Wire.WordFromWire | project/Pods/nanopb/pb_decode.c:1293-1326 | four or eight bytes are read as a word with the lowest byte first |
| Wire.BytesFromWire | project/Pods/nanopb/pb_decode.c:1441-1564 | a length, written as any varint, and that many bytes: taken by a byte array if they fit behind its size, by a string if they leave room for a NUL, by a fixed-length member if they fill it or are none, which gives zeros |
| Wire.WireTypeIgnored | project/Pods/nanopb/pb_decode.c:406-464 | the wire type of a record of a known field changes nothing, unless the field is an array of numbers and one of the types is 2 |
| Wire.ItemsFromWire | project/Pods/nanopb/pb_decode.c:424-449 | a packed body made of items is read as these items |
| Wire.ItemsOfBody | project/Pods/nanopb/pb_decode.c:436-448 | and a body that is read as n items is made of n items, with nothing left over |
| Encodable.EncodesExact | project/Pods/nanopb/pb_encode.c:147-232 | encoding a struct succeeds exactly when, in all that is written, at every depth, no count is above array_size and no byte array larger than its member |
| Encodable.ZeroExact | project/Pods/nanopb/pb_encode.c:240-338 | the proto3 test: a number is zero when 0, bytes when empty, a string when it starts with its NUL, and a submessage exactly when it would be written as nothing and none of its unions has a member selected |
| Bitset.Mark | project/Pods/nanopb/pb_decode.c:1015-1020 | setting a bit in the fields_seen words adds exactly that position to the set they stand for |
| Bitset.FirstSeenExact | project/Pods/nanopb/pb_decode.c:1053-1071 | the comparison of whole words and of the remaining bits passes exactly when the first n positions are set, given that none at or above n is |
| FieldIter.OffsetsInvert | project/Pods/nanopb/pb.h:399-457 | the offsets of the descriptor macros, added up, give back the offset of every member, across arrays, pointers and unions |
| FieldIter.AdvanceExact | project/Pods/nanopb/pb_common.c:39-74 | one step of the iterator moves the data pointer from one member to the next exactly |
| FieldIter.FieldIter.constructor | project/Pods/nanopb/pb_common.c:8-18 | begin points at the first member |
| FieldIter.FieldIter.Begin | project/Pods/nanopb/pb_common.c:8-18 | begin: pData, pSize and the required-field index are true, and the result tells whether there are fields |
| FieldIter.FieldIter.Next | project/Pods/nanopb/pb_common.c:20-76 | next keeps them true at every position, including inside unions and when wrapping to the start |
| FieldIter.FieldIter.Find | project/Pods/nanopb/pb_common.c:78-95 | from any start position, find stops at a non-extension field with the tag if there is one, and otherwise returns to where it was after one cycle; on an empty message it succeeds for tag 0 only |
| InputStream.IStream.Read | project/Pods/nanopb/pb_decode.c:87-139 | pb_read returns exactly the next bytes, or fails without moving when too few are left |
| InputStream.IStream.SkipBytes | project/Pods/nanopb/pb_decode.c:106-119 | skipping n bytes, also in 16-byte chunks, succeeds exactly when n bytes are left and moves by n |
| InputStream.IStream.ReadByte | project/Pods/nanopb/pb_decode.c:141-157 | one byte |
| InputStream.IStream.DecodeVarint | project/Pods/nanopb/pb_decode.c:255-276 | the loop computes the base-128 sum modulo 2^64, accepts exactly varints of 1 to 10 bytes, and leaves what follows |
| InputStream.IStream.DecodeVarint32Eof | project/Pods/nanopb/pb_decode.c:187-247 | the 32-bit loop accepts and computes exactly what Varint.Decode32 says and reports an empty stream |
| InputStream.IStream.DecodeMultibyte | project/Pods/nanopb/pb_decode.c:209-243 | its multibyte case, with the sign-extension rules |
| InputStream.IStream.DecodeVarint32 | project/Pods/nanopb/pb_decode.c:249-253 | the same without the end-of-stream report |
| InputStream.IStream.SkipVarint | project/Pods/nanopb/pb_decode.c:278-287 | skips to behind the first byte below 128, or fails |
| InputStream.IStream.SkipString | project/Pods/nanopb/pb_decode.c:289-296 | skips a length and that many bytes |
| InputStream.IStream.SkipField | project/Pods/nanopb/pb_decode.c:321-332 | skips a value by wire type, succeeding exactly when some prefix of the rest is one: a varint for type 0, 8 bytes for 1, a length and that many bytes for 2, 4 bytes for 5; there are no others |
| InputStream.IStream.DecodeTag | project/Pods/nanopb/pb_decode.c:298-319 | tag and wire type are the parts of the word read; a zero word and an empty stream both count as end of message |
| InputStream.IStream.MakeSubstream | project/Pods/nanopb/pb_decode.c:372-385 | the substream covers exactly the declared bytes, the parent's length shrinks by the prefix and the size, and the end of parent and substream together stays where it was |
| InputStream.IStream.CloseSubstream | project/Pods/nanopb/pb_decode.c:387-400 | however little was read, the parent continues right behind the substream |
| Substreams.Perform | project/Pods/nanopb/pb_decode.c:372-400 | under any nesting of opens, reads and closes a stream reads what the plain byte string says, never beyond its end, and keeps where it ends |
| Substreams.WithinIsSkip | project/Pods/nanopb/pb_decode.c:387-400 | opening a substream, using it in any way and closing it moves the parent exactly as skipping the string does |
| Substreams.AfterExtends | project/Pods/nanopb/pb_decode.c:372-400 | no use of a stream depends on bytes beyond what it reads |
| Decoder.DecBool | project/Pods/nanopb/pb_decode.c:1328-1337 | reads one 32-bit varint and stores whether it is non-zero |
| Decoder.DecInteger | project/Pods/nanopb/pb_decode.c:1339-1422 | the three integer decoders accept and store what Integers.IntegerOf says |
| Decoder.DecFixed | project/Pods/nanopb/pb_decode.c:1293-1326 | little-endian words |
| Decoder.DecBytes | project/Pods/nanopb/pb_decode.c:1441-1479 | bytes, with the size limit of the member |
| Decoder.DecString | project/Pods/nanopb/pb_decode.c:1481-1517 | strings, with room for the NUL |
| Decoder.DecFixedLengthBytes | project/Pods/nanopb/pb_decode.c:1543-1564 | fixed-length bytes: empty, or exactly the size |
| Decoder.DecScalar | project/Pods/nanopb/pb_decode.c:68-81 | the decoder chosen by the type table computes Decoding.TakeScalar |
| Decoder.SetToDefaults | project/Pods/nanopb/pb_decode.c:839-922 | after setting defaults every member at every depth has the descriptor's default, or zero of its type if there is none; has_ is false, arrays are empty, which_ is 0 |
| Decoder.DecSubmessage | project/Pods/nanopb/pb_decode.c:1519-1541 | decodes the body in a substream, over the old contents or from the defaults for array entries, and continues behind it |
| Decoder.DecodePacked | project/Pods/nanopb/pb_decode.c:424-449 | the packed loop stores all items or fails, exactly when one is bad or they do not fit |
| Decoder.DecodeEntry | project/Pods/nanopb/pb_decode.c:454-464 | one more array entry, or failure when full |
| Decoder.DecodeStaticField | project/Pods/nanopb/pb_decode.c:406-483 | one field record has exactly the specified effect on its cell, count and stream, for every repetition rule; FieldRuns.PlainOverRun, RepeatedOverRun, UnionOverRun and FixedOverRun say what these effects add up to |
| Decoder.ReleaseUnionField | project/Pods/nanopb/pb_decode.c:1131-1162 | the old which_ value must be 0 or the number of some field, and the iterator comes back to the new one |
| Decoder.MarkRequired | project/Pods/nanopb/pb_decode.c:1015-1020 | the bit set is the field's position among the required ones and stays below their number |
| Decoder.HandleField | project/Pods/nanopb/pb_decode.c:994-1023 | tracker, fields_seen bit and field decoder together do one specified step |
| Decoder.CountRequired | project/Pods/nanopb/pb_decode.c:1038-1051 | from any iterator position, seeking to the end counts the required fields |
| Decoder.CheckRequired | project/Pods/nanopb/pb_decode.c:1033-1073 | the final check passes exactly when the first 64 required fields are among those seen |
| Decoder.DecodeRecord | project/Pods/nanopb/pb_decode.c:946-1023 | one turn of the loop: what the record at the front does, known, unknown or terminating |
| Decoder.DecodeNoinit | project/Pods/nanopb/pb_decode.c:928-1076 | the decoder succeeds exactly when the specification does, with the same struct and the same bytes left; it terminates |
| Decoder.DecodeMessage | project/Pods/nanopb/pb_decode.c:1078-1090 | the same from the defaults |
| Encoder.OStream.BufWrite | project/Pods/nanopb/pb_encode.c:74-84 | copies the bytes to the write position and changes nothing else in the buffer |
| Encoder.OStream.Write | project/Pods/nanopb/pb_encode.c:103-124 | a sizing stream takes everything and only counts; a buffer stream takes the bytes exactly when they fit below max_size |
| Encoder.EncodeVarint | project/Pods/nanopb/pb_encode.c:608-628 | writes the varint of the value, never past the ten-byte buffer |
| Encoder.EncScalar | project/Pods/nanopb/pb_encode.c:769-912 | each field encoder writes what Encoding.EncodeScalar says, which Wire.IntegerOnWire and Wire.ItemOnWire give in numbers |
| Encoder.StringLength | project/Pods/nanopb/pb_encode.c:875-899 | the length is up to the first NUL, or the whole member |
| Encoder.CheckDefaultValue | project/Pods/nanopb/pb_encode.c:240-338 | the proto3 test answers exactly whether the field is zero, through submessages |
| Encoder.EncodeSubmessage | project/Pods/nanopb/pb_encode.c:717-765 | both passes agree for every message at every depth: the stream gets length and body, and the branch for a changed size cannot be reached |
| Encoder.PackedWordsSize | project/Pods/nanopb/pb_encode.c:169-177 | 4*count and 8*count are the measured sizes of fixed-width arrays |
| Encoder.PackedSize | project/Pods/nanopb/pb_encode.c:169-189 | the length written in front of a packed array is the number of bytes that follow |
| Encoder.EncodeItems | project/Pods/nanopb/pb_encode.c:147-232 | arrays: packed or one record each, refused when over array_size |
| Encoder.EncodeBasicField | project/Pods/nanopb/pb_encode.c:341-426 | each field is written exactly when present, under every repetition rule |
| Encoder.EncodeMessage | project/Pods/nanopb/pb_encode.c:528-550 | a stream accepts a message exactly when it encodes and, for a buffer, fits, and then has the specified bytes behind those already written and nothing else changed |
| Encoder.GetEncodedSize | project/Pods/nanopb/pb_encode.c:567-576 | succeeds exactly when the message encodes, and gives the number of bytes |
| Encoder.SizeThenEncode | project/Pods/nanopb/pb_encode.c:567-576 | after sizing, encoding from an empty stream succeeds exactly when the size is at most max_size and writes exactly that many bytes |
| Heap.SizeGuardExact | project/Pods/nanopb/pb_decode.c:507-521 | the half-word test with the division lets through exactly the size pairs whose product fits in size_t |
| Heap.IdsUpdate | project/Pods/nanopb/pb_decode.c:1164-1253 | what a struct or array reaches changes with one cell by exactly what the cell reached before and after |
| Heap.Allocator.Realloc | project/Pods/nanopb/pb_decode.c:524-531 | a failed realloc changes nothing; a successful one replaces the old block by a new one |
| Heap.Allocator.Free | project/Pods/nanopb/pb_decode.c:1249-1251 | frees a live block; freeing any other breaks the heap |
| Heap.FreedOn | project/Pods/nanopb/pb_decode.c:1164-1253 | freeing one set of blocks and then another is freeing their sum: the heap breaks exactly when some block is freed more often than it is live |
| Layout.ResetOwnsNothing | project/Pods/nanopb/pb_decode.c:839-922 | setting the defaults in any memory gives an initialized struct that reaches no block, with the entries of its arrays left as they were; what lies there is harmless exactly when it was before |
| Layout.ZeroOwnsNothing | project/Pods/nanopb/pb_decode.c:536-550 | zeroed memory is an initialized struct that reaches nothing and whose array entries are harmless |
| Releasing.ReleaseField | project/Pods/nanopb/pb_decode.c:1164-1253 | releasing a member of any memory frees each block it reaches, as often as it reaches it, and leaves nothing to reach |
| Releasing.Release | project/Pods/nanopb/pb_decode.c:1255-1269 | releasing a struct does so for all its members, unions included; on a struct that owns what it reaches each block is freed once, and a second release frees nothing |
| Ownership.AllocateField | project/Pods/nanopb/pb_decode.c:490-533 | allocation fails without effect, or the product is positive and fits in size_t and the block replaces the old one |
| Ownership.GrowthIsSafe | project/Pods/nanopb/pb_decode.c:620-637 | after growing, the capacity is above the write index and at most PB_SIZE_MAX; the subtraction cannot underflow |
| Ownership.ReadIntoBlock | project/Pods/nanopb/pb_decode.c:640-650 | a number is only ever written to an entry below the capacity of its block |
| Ownership.ReadBytes | project/Pods/nanopb/pb_decode.c:1478-1516 | the bytes read, with what stands before and after them, are inside the block |
| Ownership.ReadText | project/Pods/nanopb/pb_decode.c:1453-1516 | a string or byte array goes to a block that holds exactly the text and its NUL or size |
| Ownership.DecodeNumbers | project/Pods/nanopb/pb_decode.c:601-648 | through the whole packed loop every write is inside the block that is live, the count stays at most the block's capacity and that at most PB_SIZE_MAX, whatever capacity earlier records left |
| Ownership.DecodePointerEntry | project/Pods/nanopb/pb_decode.c:655-672 | one more item of an allocated array: the entries move with the block, and the new one is the last of exactly count + 1 |
| Ownership.DecodePointerSub | project/Pods/nanopb/pb_decode.c:567-593 | a repeated pointer submessage releases the earlier one first |
| Ownership.PrepareUnion | project/Pods/nanopb/pb_decode.c:1131-1162 | switching a union frees what the old member owned, once, and the new one starts owning nothing |
| Ownership.DecodeStatic | project/Pods/nanopb/pb_decode.c:406-483 | static fields, with the exact outcome of an overflow: the raised count is a pb_size_t, so with PB_SIZE_MAX entries it becomes zero and everything they own is leaked, and otherwise nothing is |
| Ownership.DecodeStaticEntry | project/Pods/nanopb/pb_decode.c:454-464 | a new entry of an embedded array is counted before its length is read; if that fails, what the entry happened to reach is lost, and nothing otherwise |
| Ownership.DecodeSub | project/Pods/nanopb/pb_decode.c:1519-1541 | a submessage, over memory that may hold anything when it is a new array entry; keeps the books, and on success goes one level deeper than the nesting of the body and leaves what follows it |
| Ownership.DecodeField | project/Pods/nanopb/pb_decode.c:734-760 | any field record, static or pointer, in a union or not, changes the live blocks by exactly what its memory gave up and now reaches, but for what a failure lost or leaked |
| Ownership.DecodeNoinit | project/Pods/nanopb/pb_decode.c:928-1076 | through any run, failing reallocs included, live blocks change by exactly those the struct gave up and those it now reaches, each once; a failure on clean memory loses none, and leaks none if embedded arrays of owning entries are shorter than PB_SIZE_MAX; a run goes no deeper than the nesting of its input (Depth.Nesting), and exactly that deep when it succeeds; it terminates on every input, also for recursive types |
| Ownership.DecodeInit | project/Pods/nanopb/pb_decode.c:1078-1090 | pb_decode into any memory: success adds exactly the blocks the message reaches; failure, when no count wrapped around, restores the live blocks without breaking the heap exactly when nothing was lost on the way, and on blank memory nothing is, for all inputs and all failing allocations |
| Destination.DestinationExact | project/Pods/nanopb/pb_decode.c:1078-1090 | exactly the blank destinations are safe: of a destination that is blank or of which an entry that is not can be reached, no input that allocates nothing loses a block if and only if pb_release would reach nothing from any entry of any embedded array, at any depth; Ownership.DecodeInit carries this to all inputs in one direction and to every run on the losing input in the other |
| Destination.ExposedLoses | project/Pods/nanopb/pb_decode.c:454-464 | the input for a destination of which an entry that is not blank can be reached: it fills the entries before that one and ends after its tag |
| Destination.FirstEntryIsExposed | project/Pods/nanopb/pb_decode.c:454-464 | a first entry that reaches a block can always be reached, in any message type |
| Destination.NotBlankIsExposed | project/Pods/nanopb/pb_decode.c:454-464 | so can some entry of every destination that is not blank, when each embedded entry type has a valid message that allocates nothing and filling all arrays takes less than 2^32 bytes |
| Destination.EmptyFills | project/Pods/nanopb/pb_decode.c:1519-1541 | the entries before can be filled with empty messages if their type has no required fields |
| Destination.StaleEntry | project/Pods/nanopb/pb_decode.c:454-464 | the one-byte input 0A for a message with an embedded array: the first entry is counted and the block it happens to point to is lost |
| Destination.DecodeStaleEntry | project/Pods/nanopb/pb_decode.c:1078-1090 | as a run: pb_decode of that byte fails and has freed a block that was not its own, or broken the heap |
| Destination.OverflowLeaksBlock | project/Pods/nanopb/pb_decode.c:451-464 | an initialized, full array of PB_SIZE_MAX messages that own a block: one more entry, and the block is live and out of reach |

## Left out

- Ownership.DecodeNoinit: who owns which block is modelled, the values in the blocks are not; whether arrays of numbers without a _count member are complete at the end is left open (either outcome is covered).
- Ownership.ReadValue: whether a static array of numbers has room for one more is left open (either outcome is covered).
- Ownership.DecodeStatic: arrays of submessages without a _count member are not part of the heap model.
- Destination.DestinationExact: that a destination which is not blank is unsafe is shown when one of its entries that are not blank can be reached (`Destination.Exposed`): the entries before it in its array, if any, are filled by one message that uses no pointers and no unions, and what is sent for each submessage around it is shorter than 2^32 bytes. Entries behind ones that only an allocating message can fill are not decided.
- Layout.ShapedMsg: memory is a tree, so uninitialized pointers that form a cycle are not represented; of a union whose which_ is no field's number nothing is kept, nor a count beside a NULL array pointer unless the release reads through it.
- Decoder.DecodeNoinit: the struct after a failed decode is not described; a record with tag 0 in an empty message stores a bool just outside the empty struct, which is not represented.
- Decoder.SetToDefaults: array and union contents that the source leaves as they were are marked stale; for an array without a _count member, whose first bytes are overwritten, all of it is.
- InputStream.IStream.DecodeVarint32Eof: bitpos is an unbounded number; the wrap-around of its 8-bit type for varints longer than 36 bytes is not modelled.
- Encoder.OStream.Write: bytes_written is an unbounded number, so the test for its wrap-around, which takes 2^64 bytes, is not modelled.
- Encoder.EncodeBasicField: pointer fields are not encoded, only static ones.
- The destination struct is a map of cells rather than memory: aliasing and alignment behind `void*` casts are not modelled, and a submessage is decoded in a copy that is then stored back.
- Array entries past the _count member are not represented; a decoder does not read them.
- User callbacks, custom stream callbacks (but for a source that skips in 16-byte chunks) and extension chains: foreign code.
- `pb_decode_delimited`, `pb_decode_nullterminated` and `pb_encode_delimited`: thin wrappers around what is modelled.
- The PB_WITHOUT_64BIT, PB_BUFFER_ONLY, PB_OLD_CALLBACK_STYLE, PB_ENCODE_ARRAYS_UNPACKED and AVR variants, and error texts.
- Float and double conversions in generated code: fixed32 and fixed64 fields are words here.
- The Swift application, BoringSSL, Realm and GTMSessionFetcher: user interface, network plumbing, generated tables, and headers without bodies.
