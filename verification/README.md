# Verification of four vendored C components

The application ships four pieces of C code whose behaviour is worth a proof: the nanopb protobuf
codec, the STAT4 sampler of SQLite's `ANALYZE`, the editor behind `ALTER TABLE ... RENAME COLUMN`, and
the push-down machine that runs SQLite's generated parser. This project models each of them in Dafny and
proves the laws they exist for. Code that updates state in place is modelled by classes and methods over
arrays and fields; every such method is proved against a function on values, and the laws are lemmas
about those functions. `dafny verify dfyconfig.toml` checks everything.

## What is modelled

**nanopb** (`Pb*.dfy`). `PbWire` holds varints, zigzag and fixed-width integers of the Protocol Buffers
encoding. `PbCommon` holds field descriptors, messages and the circular field iterator. A message is a record of
slots keyed by the offset of their data, so that the arms of a union share a slot. `PbFormat` says what is
written and read, as functions; `PbEncode` and `PbDecode` are the encoder and the decoder as they run, over
output and input streams, each method proved to compute the function of `PbFormat`. `PbEvolution` proves the
round trip in a stronger form: what one schema wrote is read by another one that knows some of its fields, at
any depth. `PbStream` proves that concatenation is merge, that the last record of a field wins, framing, and
what the required-field check means, `PbMerge` that a submessage sent in pieces is merged. `PbExact` says for
arbitrary input what every reader accepts and gives, `PbFits` that a decoded message fits its struct,
`PbRepeated` that packed and unpacked arrays are the same and fixed-count arrays complete; `PbRecords` says what
an encoding looks like without the schema, what is left out and when there is one, and `PbVectors` has the
examples of the Protocol Buffers encoding guide. `PbTransfer` runs the encoder of a newer and the decoder of an
older program over one buffer. The configuration is the default one: 64-bit integers, static allocation.

**STAT4** (`Stat4*.dfy`). `Stat4Spec` gives the accumulator and its operations as functions on values.
`Stat4Groups` describes a sorted index by its changed columns alone, `Stat4Order` the preference among samples.
`Stat4Proof` proves the invariant of every run and that all retained counts are exact after the flush,
`Stat4Kept` says which samples are kept and which row of a group is its candidate, `Stat4Rows` says what the
counts are in terms of rows, equal prefixes and distinct prefixes, `Stat4Text` covers the printed list and its
parser, and `Stat4Accum` is the accumulator as an object updated in place. `Stat4Analyze` joins the scan of the
index, the accumulator, its output and the loader. A row is a sequence of numbers; the rows are distinct and in
lexicographic order, and the changed column is the first in which a row differs from its predecessor, 0 for the
first row.

**The parser driver** (`Lr*.dfy`). The tables are a parameter. `LrMachine` states a validity condition that can
be decided one table entry at a time, given an annotation of the states with what may lie below them on the
stack; `LrRuns` proves that every run of the loop keeps parse trees on the stack, never fails an assert, and
ends; `LrDerivation` turns an accepted tree into a derivation of the grammar. The semantic actions are
represented by the one that builds the tree. Rules that rename a single nonterminal and have no action are
elided by the generator (the actions of their left-hand and right-hand side coincide); the grammar lists them,
and derivations put them back. `LrEager` compares the delayed shift-reduce with the immediate one, `LrDepth` the
parser with one whose stack has no limit, and `LrDriver` is the driver over its stack array. `LrExample` gives
tables that meet all conditions, reduce to the start symbol in sight of the end of input only, and accept an
input by way of an empty and an elided rule.

**Rename** (`Rename*.dfy`). `RenameSpec` defines simultaneous substitution of a set of disjoint tokens and
proves where each character goes; `Rename` holds the token lists, the selection of the right-most token and
the editor that moves text inside a buffer of precomputed size.

`Arith` holds a few facts of nonlinear arithmetic.

## Results where code and documentation or expectation differ

- A string that fills its buffer without a NUL is encoded but cannot be decoded again.
  `PbEvolution.StringExact` gives the exact condition, `PbEvolution.FullBufferIsLost` an instance.
- `pb_decode_varint32` rejects values from 2^32 to 2^63 but accepts more than the sign-extended negative
  numbers and the values below 2^32: `PbWire.Varint32Accepts` states exactly which canonical varints it takes,
  `PbWire.Varint32TakesMore` gives one that is neither.
- A comment in `pb_decode_noinit` says that `pb_field_iter_find` handles empty message types correctly. It
  compares the terminator's tag 0 with the tag of the input, so in an empty message a record with tag 0 and a
  non-zero wire type is taken for a field, and a bool is read for it. `PbStream.EmptyTypeFails` gives bytes that
  an empty message rejects for this reason and a message with a field 1 skips; `PbStream.SkippedExactly` shows
  that records of unknown fields are skipped, whatever their payload, exactly when the type is not empty or the
  tag is not 0.
- The comment on `renameColumnTokenNext` says that repeated calls return the tokens in the order of the text.
  They return them from the right-most to the left-most one (`RenameSpec.DrainedFalling`), which is the order
  of the text exactly when there is at most one (`RenameSpec.TextOrderExactly`), and not for the two of
  `RenameSpec.TwoTokens`. The editor relies on the order from right to left.
- The tables of the parser do not reduce by the elided rules, so its stack holds, for example, a term where
  the grammar asks for an expression. Soundness is therefore stated up to elided rules.

## Model

| member | source | states |
|---|---|---|
| PbWire.VarintSize | PicData/Pods/nanopb/pb_encode.c:608-628 | a varint takes at most k bytes exactly when its value has at most 7k bits |
| PbWire.Varint64Length | PicData/Pods/nanopb/pb_encode.c:608-628 | 64-bit values take at most ten bytes, and ten exactly from 2^63 on |
| PbWire.Varint64RoundTrip | PicData/Pods/nanopb/pb_decode.c:255-275 | every 64-bit value is decoded from its varint and whatever follows is left untouched |
| PbWire.Varint32Refines64 | PicData/Pods/nanopb/pb_decode.c:187-252 | on a varint of at most ten bytes, success of the 32-bit reader implies success of the 64-bit reader, the same bytes consumed, and the value modulo 2^32 |
| PbWire.Varint32Accepts | PicData/Pods/nanopb/pb_decode.c:187-252 | the exact set of 64-bit values whose canonical varint the 32-bit reader accepts, and its result for them |
| PbWire.Varint32Signed | PicData/Pods/nanopb/pb_decode.c:225-243 | all sign-extended negative 32-bit values are in that set, none from 2^32 to 2^63 is |
| PbWire.Varint32TakesMore | PicData/Pods/nanopb/pb_decode.c:225-243 | a varint far from both the 32-bit and the sign-extended negative values is accepted, as 2^31 |
| PbWire.Varint32RoundTrip | PicData/Pods/nanopb/pb_decode.c:187-252 | every 32-bit value survives encoding and the 32-bit reader |
| PbWire.ReadVarint64Local | PicData/Pods/nanopb/pb_decode.c:255-275 | a varint that was read is read the same way when more bytes follow |
| PbWire.ReadVarint32Local | PicData/Pods/nanopb/pb_decode.c:187-252 | the same for the 32-bit reader |
| PbWire.UnZigZagOfZigZag | PicData/Pods/nanopb/pb_encode.c:630-639 | zigzag is undone by the decoder on all of int64, the minimum included |
| PbWire.ZigZagOfUnZigZag | PicData/Pods/nanopb/pb_decode.c:1285-1297 | and the other way round on all of uint64: a bijection |
| PbWire.FixedRoundTrip | PicData/Pods/nanopb/pb_decode.c:1299-1331 | little-endian integers of any width survive encoding and decoding |
| PbCommon.RequiredDistinct | PicData/Pods/nanopb/pb_common.c:67-72 | different required fields have different bitmap positions |
| PbCommon.Layout | PicData/Pods/nanopb/pb_common.c:43-77 | data offsets never decrease, and two fields share one exactly when they are arms of one union |
| PbCommon.LookInit | PicData/Pods/nanopb/pb_decode.c:845-929 | the defaults of a whole message are the defaults of each field, although union arms share storage |
| PbCommon.FieldIter.constructor | PicData/Pods/nanopb/pb_common.c:8-27 | the iterator starts at the first field with the offsets of that field |
| PbCommon.FieldIter.Begin | PicData/Pods/nanopb/pb_common.c:8-27 | restarting gives the state of a fresh iterator and tells an empty type |
| PbCommon.FieldIter.Next | PicData/Pods/nanopb/pb_common.c:29-81 | history independence: after any moves the offsets and the required-field index are those of the position alone; wraps around and says so |
| PbCommon.FieldIter.Find | PicData/Pods/nanopb/pb_common.c:83-101 | finds a tag within one lap exactly when it exists, at its first place from the start, and otherwise returns to the start |
| PbEncode.OStream.Sizing | PicData/Pods/nanopb/pb_encode.c:567-576 | a stream that only counts |
| PbEncode.OStream.Over | PicData/Pods/nanopb/pb_encode.c:86-101 | a stream over a caller's buffer |
| PbEncode.OStream.BufWrite | PicData/Pods/nanopb/pb_encode.c:74-84 | stores the bytes at the position and nothing else |
| PbEncode.OStream.Write | PicData/Pods/nanopb/pb_encode.c:103-124 | succeeds exactly when counting or when the bytes fit in max_size; the counter, the position and the buffer advance together |
| PbEncode.FullGuard | PicData/Pods/nanopb/pb_encode.c:107-111 | on machine sizes the test for a full stream, whose sum may wrap around, decides whether the true sum exceeds max_size |
| PbEncode.OStream.Count | PicData/Pods/nanopb/pb_encode.c:737-738 | the counting stream passes over a size |
| PbEncode.EmitsThen | PicData/Pods/nanopb/pb_encode.c:341-426 | two steps that emit x and y emit the concatenation, in both modes, with all bytes outside untouched |
| PbEncode.EncodeVarint | PicData/Pods/nanopb/pb_encode.c:608-628 | emits the varint of the value |
| PbEncode.VarintBuffer | PicData/Pods/nanopb/pb_encode.c:608-628 | the loop over the ten-byte buffer produces the varint |
| PbEncode.EncodeSVarint | PicData/Pods/nanopb/pb_encode.c:630-639 | emits the varint of the zigzag of the value |
| PbEncode.EncodeFixed32 | PicData/Pods/nanopb/pb_encode.c:641-650 | emits four little-endian bytes |
| PbEncode.EncodeFixed64 | PicData/Pods/nanopb/pb_encode.c:653-666 | emits eight little-endian bytes |
| PbEncode.EncodeTag | PicData/Pods/nanopb/pb_encode.c:669-673 | emits the key of field number and wire type |
| PbEncode.EncodeString | PicData/Pods/nanopb/pb_encode.c:709-715 | emits length and bytes |
| PbEncode.EncScalar | PicData/Pods/nanopb/pb_encode.c:769-850 | emits the scalar at its field size, in both modes, or fails for an unsupported size |
| PbEncode.StringLength | PicData/Pods/nanopb/pb_encode.c:873-897 | the length up to the first NUL or the end of the buffer |
| PbEncode.EncValue | PicData/Pods/nanopb/pb_encode.c:852-910 | emits any value behind its tag |
| PbEncode.EncodeSubmessage | PicData/Pods/nanopb/pb_encode.c:717-765 | two-pass agreement at every depth: emits the length-prefixed encoding, and its assertion shows that the second pass writes exactly the size of the first, so the size-changed branch is dead |
| PbEncode.SubEmits | PicData/Pods/nanopb/pb_encode.c:741-765 | what the substream wrote is what the parent stream emits |
| PbEncode.EncodeMessage | PicData/Pods/nanopb/pb_encode.c:528-550 | the loop over the fields emits the encoding of the message in both modes: sizing and writing agree on size and on success, up to the room there is |
| PbEncode.EncodeBasicField | PicData/Pods/nanopb/pb_encode.c:341-426 | a field is written exactly when it is required, present, selected in its union, or not a proto3 default |
| PbRecords.EncodingRecords | PicData/Pods/nanopb/pb_encode.c:528-550 | an encoding split by wire types alone holds, in the order of the schema, one record for every field that is written, one per item of an array that cannot be packed, and nothing else |
| PbRecords.WrittenExactly | PicData/Pods/nanopb/pb_encode.c:269-426 | a key is in the encoding if and only if its field is required, has its flag set, is the selected arm, has items, or is singular and not zero |
| PbRecords.NotZeroIs | PicData/Pods/nanopb/pb_encode.c:269-336 | a singular value is left out exactly when it is zero, empty, or a message with no field filled in |
| PbRecords.InitIsEmpty | PicData/Pods/nanopb/pb_encode.c:341-426 | a new message is encoded to nothing if and only if its type has no required, fixed-count or fixed-length singular field, also not in singular submessages |
| PbRecords.EncodesExactly | PicData/Pods/nanopb/pb_encode.c:147-236 | there is an encoding if and only if every array that is written has at most the items there is room for and all bytes fit their buffers, at every depth |
| PbRecords.DecodedEncodes | PicData/Pods/nanopb/pb_encode.c:528-550 | whatever was decoded can be encoded again |
| PbRecords.FixedCountRecords | PicData/Pods/nanopb/pb_encode.c:399-409 | a fixed-count array is written with all of its items, zero where none was received |
| PbRecords.ScalarPayload | PicData/Pods/nanopb/pb_encode.c:769-850 | the bytes of a number by its type: ten for a negative one, zigzag, little-endian, 0 and 1 |
| PbRecords.DelimitedPayload | PicData/Pods/nanopb/pb_encode.c:852-910 | the bytes of a length-delimited value: a string up to its first NUL, a message as its own encoding |
| PbVectors.Integer | PicData/Pods/nanopb/pb_encode.c:528-550 | the first example of the encoding guide, 08 96 01 |
| PbVectors.Text | PicData/Pods/nanopb/pb_encode.c:528-550 | its string example |
| PbVectors.Nested | PicData/Pods/nanopb/pb_encode.c:717-765 | its submessage example |
| PbVectors.Packed | PicData/Pods/nanopb/pb_encode.c:147-236 | its packed array example |
| PbEncode.EncodeTagged | PicData/Pods/nanopb/pb_encode.c:381-384 | emits tag and value |
| PbEncode.EncPacked | PicData/Pods/nanopb/pb_encode.c:197-204 | emits the packed items one behind the other |
| PbEncode.EncUnpacked | PicData/Pods/nanopb/pb_encode.c:208-233 | emits a tag for every item |
| PbEncode.EncArray | PicData/Pods/nanopb/pb_encode.c:147-236 | the length of a packed array, computed or counted beforehand, is the length of what is written; empty arrays are elided and overfull ones rejected |
| PbEncode.CheckProto3Default | PicData/Pods/nanopb/pb_encode.c:269-336 | tells whether the data of a singular field are its default |
| PbEncode.CheckAllDefault | PicData/Pods/nanopb/pb_encode.c:296-307 | the walk over a submessage tells whether all its fields are default |
| PbEncode.CheckSlotDefault | PicData/Pods/nanopb/pb_encode.c:245-267 | the same for one field by its rule |
| PbEncode.EncodeNullTerminated | PicData/Pods/nanopb/pb_encode.c:557-565 | emits the message and a zero byte |
| PbEncode.GetEncodedSize | PicData/Pods/nanopb/pb_encode.c:567-576 | succeeds exactly when the message has an encoding and returns its length |
| PbEncode.EncodeToBuffer | PicData/Pods/nanopb/pb_encode.c:86-124 | writing succeeds exactly when the encoding fits, fills that much of the buffer, never goes beyond its end, and leaves what is behind the bytes written as it was |
| PbDecode.IStream.constructor | PicData/Pods/nanopb/pb_decode.c:159-181 | a stream over a buffer |
| PbDecode.IStream.ReadByte | PicData/Pods/nanopb/pb_decode.c:141-157 | takes the next byte; position plus bytes left stays the same |
| PbDecode.IStream.Read | PicData/Pods/nanopb/pb_decode.c:87-137 | takes count bytes exactly when there are that many |
| PbDecode.DecodeVarint | PicData/Pods/nanopb/pb_decode.c:255-275 | the loop computes the 64-bit reader and leaves the stream behind it |
| PbDecode.DecodeVarint32 | PicData/Pods/nanopb/pb_decode.c:187-252 | with the quick case and the overflow checks, computes the 32-bit reader |
| PbDecode.DecodeMultibyte | PicData/Pods/nanopb/pb_decode.c:210-243 | the loop over the bytes behind the first one accepts and computes what the reader does |
| PbDecode.TakeByte | PicData/Pods/nanopb/pb_decode.c:221-235 | one byte either proves the varint too long for 32 bits or extends the value scanned so far |
| PbDecode.SkipVarint | PicData/Pods/nanopb/pb_decode.c:278-287 | skips a varint of any length |
| PbDecode.SkipField | PicData/Pods/nanopb/pb_decode.c:289-331 | consumes exactly the payload of the wire type |
| PbDecode.MakeSubstream | PicData/Pods/nanopb/pb_decode.c:372-385 | the substream and what is left to the parent partition the parent's bytes |
| PbDecode.CloseSubstream | PicData/Pods/nanopb/pb_decode.c:387-400 | the parent continues behind the substream, however much of it was read |
| PbDecode.DecodeFixed | PicData/Pods/nanopb/pb_decode.c:1299-1331 | computes the fixed-width reader |
| PbDecode.FromBytes | PicData/Pods/nanopb/pb_decode.c:1306-1327 | the shifted bytes make up the little-endian value |
| PbExact.Varint64Exactly | PicData/Pods/nanopb/pb_decode.c:255-275 | the 64-bit reader takes every varint of at most ten bytes, canonical or not, and no longer one |
| PbExact.EndlessFails | PicData/Pods/nanopb/pb_decode.c:255-275 | input in which no byte ends a varint is rejected by both readers and by skipping |
| PbExact.PaddedVarint64 | PicData/Pods/nanopb/pb_decode.c:255-275 | a varint padded to at most ten bytes denotes the same number |
| PbExact.PaddedVarint32 | PicData/Pods/nanopb/pb_decode.c:223-226 | a 32-bit varint with any number of trailing 0x80 bytes is read as the same number |
| PbExact.VarintFieldExactly | PicData/Pods/nanopb/pb_decode.c:1345-1380 | a signed field takes, of every varint, exactly the number in its range that agrees with it modulo 2^32, or 2^64 for eight bytes, and fails without one |
| PbExact.NegativeForms | PicData/Pods/nanopb/pb_decode.c:1353-1362 | the five-byte and the ten-byte form of a negative number are both read as it |
| PbExact.UVarintFieldExactly | PicData/Pods/nanopb/pb_decode.c:1382-1404 | an unsigned field takes exactly the numbers below its modulus |
| PbExact.SVarintFieldExactly | PicData/Pods/nanopb/pb_decode.c:1406-1428 | a zigzag field takes i from 2i or -2i-1, exactly when i is in its range |
| PbExact.BoolFieldExactly | PicData/Pods/nanopb/pb_decode.c:1334-1343 | every number but zero is true |
| PbExact.ScalarNeedsVarint | PicData/Pods/nanopb/pb_decode.c:1334-1428 | a scalar whose varint is rejected is rejected |
| PbExact.FixedFieldExactly | PicData/Pods/nanopb/pb_decode.c:1430-1445 | any four or eight bytes are read as the number they encode, fewer are rejected |
| PbExact.LittleEndian | PicData/Pods/nanopb/pb_encode.c:641-666 | byte k of a fixed-width number holds its k-th eight bits |
| PbExact.BlobFieldExactly | PicData/Pods/nanopb/pb_decode.c:1447-1571 | bytes, strings and fixed-length bytes are taken exactly when there is room for them, an empty value clearing fixed-length bytes |
| PbExact.TooShort | PicData/Pods/nanopb/pb_decode.c:372-385 | a length that the input does not have is rejected by every reader and by skipping |
| PbExact.SkipsExactly | PicData/Pods/nanopb/pb_decode.c:278-331 | what each wire type skips, varints of any length included; all other wire types are rejected |
| PbDecode.DecScalar | PicData/Pods/nanopb/pb_decode.c:1334-1445 | computes the scalar reader with its clamp checks |
| PbDecode.DecBlob | PicData/Pods/nanopb/pb_decode.c:1447-1523 | computes the reader of bytes, strings and fixed-length bytes with their limits |
| PbDecode.DecValue | PicData/Pods/nanopb/pb_decode.c:64-78 | computes the reader of the field's type; on success position plus bytes left is conserved |
| PbDecode.DecSubmessage | PicData/Pods/nanopb/pb_decode.c:1525-1547 | a submessage is merged into the prior value, or into defaults in an array; termination by the bytes left |
| PbDecode.DecPacked | PicData/Pods/nanopb/pb_decode.c:428-448 | computes the packed reader, with its capacity check |
| PbDecode.DecArray | PicData/Pods/nanopb/pb_decode.c:425-465 | a record of a repeated field adds its items, counted where pSize points, or fails when there is no room |
| PbDecode.DecStaticField | PicData/Pods/nanopb/pb_decode.c:406-483 | stores the field by its rule: presence flag, array entry or union arm |
| PbDecode.SetToDefaults | PicData/Pods/nanopb/pb_decode.c:845-929 | the walk over the fields produces the defaults of every field |
| PbDecode.BitOf | PicData/Pods/nanopb/pb_decode.c:1021-1026 | a bit of the bitmap word is set exactly when its field was seen |
| PbDecode.SetBitAdds | PicData/Pods/nanopb/pb_decode.c:1021-1026 | the shift and or sets that bit and no other |
| PbDecode.MaskIs | PicData/Pods/nanopb/pb_decode.c:1069-1076 | the shifted mask is the word with exactly the low bits set |
| PbDecode.CheckRequired | PicData/Pods/nanopb/pb_decode.c:1057-1078 | the word and remainder comparison passes exactly when each of the required fields was seen |
| PbDecode.DecodeTag | PicData/Pods/nanopb/pb_decode.c:298-319 | computes the tag reader, the zero tag and the end of input included |
| PbDecode.SizeApart | PicData/Pods/nanopb/pb_decode.c:1000-1001 | comparing pSize with pData tells exactly the fields without a member of their own for presence or count |
| PbDecode.DecodeKnown | PicData/Pods/nanopb/pb_decode.c:997-1030 | the bookkeeping of fixed-count and required fields before the field's decoder, pSize redirected to the local counter included |
| PbDecode.DecodeUnknown | PicData/Pods/nanopb/pb_decode.c:991-994 | a tag that is not in the schema is skipped, and the terminator of an empty type is read as a bool |
| PbDecode.DecodeTagged | PicData/Pods/nanopb/pb_decode.c:966-1030 | everything behind the tag computes the effect of one record, and keeps iterator, bitmap and counter in step with it |
| PbDecode.CountRequired | PicData/Pods/nanopb/pb_decode.c:1040-1055 | running to the wrap-around from any position counts the required fields |
| PbDecode.DecodeNoinit | PicData/Pods/nanopb/pb_decode.c:934-1082 | the whole loop with its iterator, bitmap and final checks computes the decoder of the format; on success position plus bytes left is conserved |
| PbDecode.DecodeMessage | PicData/Pods/nanopb/pb_decode.c:1084-1096 | the same from the defaults |
| PbFits.DecodeFits | PicData/Pods/nanopb/pb_decode.c:934-1082 | whatever the input, decoding into a message that fits its struct gives one that fits: array lengths, buffer sizes and number ranges at every depth |
| PbFits.DecodedFits | PicData/Pods/nanopb/pb_decode.c:1084-1096 | the same from the defaults |
| PbFits.PackedFits | PicData/Pods/nanopb/pb_decode.c:437-448 | a packed array never gets more items than it has room for |
| PbRecords.InitExactly | PicData/Pods/nanopb/pb_decode.c:864-898 | a message set to its defaults has the declared default of every field or else zero, and nothing present, at every depth |
| PbDecode.DecodeDelimitedMessage | PicData/Pods/nanopb/pb_decode.c:1113-1126 | decodes one frame and stands at the next |
| PbEvolution.MessageEvolves | PicData/Pods/nanopb/pb_decode.c:934-1096 | bytes written under a larger schema decode under a smaller one, are all consumed, and show the values of the fields it knows, at any depth |
| PbEvolution.SchemaEvolution | PicData/Pods/nanopb/pb_decode.c:966-995 | every well-formed message has an encoding, and an older reader decodes it to the part it knows |
| PbEvolution.RoundTrip | PicData/Pods/nanopb/pb_encode.c:528-550 | decoding an encoded message succeeds, consumes all bytes and gives the same presence and values, elided fields included |
| PbEvolution.ScalarRoundTrip | PicData/Pods/nanopb/pb_decode.c:1345-1428 | signed and unsigned fields of 1, 2, 4 and 8 bytes survive the clamp check |
| PbEvolution.ElidedIsInit | PicData/Pods/nanopb/pb_encode.c:240-338 | a value elided as a proto3 default is what the reader starts from |
| PbEvolution.SkipsValue | PicData/Pods/nanopb/pb_decode.c:321-331 | skipping consumes exactly what each encoder wrote behind its tag |
| PbEvolution.StringExact | PicData/Pods/nanopb/pb_encode.c:873-897 | a string comes back exactly when it is shorter than its buffer; otherwise the decoder rejects what the encoder wrote |
| PbEvolution.FullBufferIsLost | PicData/Pods/nanopb/pb_decode.c:1487-1523 | three characters in a buffer of three are encoded and not decoded |
| PbStream.LoopConcat | PicData/Pods/nanopb/pb_decode.c:952-1030 | the loop on x and then y is the loop on the concatenation, unless a zero tag ended x |
| PbStream.ConcatenationIsMerge | PicData/Pods/nanopb/pb_decode.c:934-1082 | without fixed-count fields, decoding x and then y into one struct is decoding the concatenation |
| PbStream.LastWins | PicData/Pods/nanopb/pb_decode.c:414-423 | a scalar record leaves the same value whatever came before |
| PbStream.LastRecordWins | PicData/Pods/nanopb/pb_decode.c:406-483 | after a whole input a field that is not repeated and no submessage holds the value of its last record, in a union that of the last record of any arm, and without a record its former value |
| PbMerge.SubmessagesMerge | PicData/Pods/nanopb/pb_decode.c:1525-1547 | after a whole input a field whose last record is one of a submessage without fixed-count fields holds the decoding of the payloads of its records put together, in a union of those since another arm was received, if no zero tag ended one of them |
| PbMerge.MergedBase | PicData/Pods/nanopb/pb_decode.c:414-423 | outside a union the decoding of the pieces starts from the value before the input |
| PbMerge.PiecesAreOne | PicData/Pods/nanopb/pb_decode.c:1525-1547 | a submessage sent in any number of pieces is what decoding all of them at once gives, from its former value; without a piece it stays |
| PbMerge.ZeroTagCuts | PicData/Pods/nanopb/pb_decode.c:952-964 | nothing behind a zero tag is read, so a piece with one would cut off the others |
| PbStream.PackedAppends | PicData/Pods/nanopb/pb_decode.c:428-448 | packed items are appended and do not depend on earlier ones |
| PbStream.RepeatedAppends | PicData/Pods/nanopb/pb_decode.c:425-465 | a record of a repeated field, packed or not, adds its items behind those received before |
| PbRepeated.PackedIsApart | PicData/Pods/nanopb/pb_decode.c:425-465 | a packed record and separate records of the same scalars are accepted alike and leave the same state |
| PbRepeated.RoomExactly | PicData/Pods/nanopb/pb_decode.c:437-448 | a packed array is taken exactly when there is room for all its items |
| PbRepeated.PutAllIs | PicData/Pods/nanopb/pb_decode.c:437-446 | the items go behind the counted ones and over those of an earlier reception |
| PbRepeated.FixedReplaced | PicData/Pods/nanopb/pb_decode.c:1000-1018 | a fixed-count array received again is replaced |
| PbRepeated.FixedComplete | PicData/Pods/nanopb/pb_decode.c:997-1038 | in accepted input every fixed-count array has no items or all, whatever order they come in |
| PbRepeated.WireTypeIgnored | PicData/Pods/nanopb/pb_decode.c:406-483 | the wire type of a known field matters only to tell a packed array |
| PbStream.FramesRoundTrip | PicData/Pods/nanopb/pb_encode.c:552-555 | any sequence of delimited messages is recovered in order and the stream is left behind the last frame |
| PbStream.NullTerminated | PicData/Pods/nanopb/pb_encode.c:557-565 | a null-terminated message followed by anything decodes to the message and leaves the rest |
| PbStream.SeenExactly | PicData/Pods/nanopb/pb_decode.c:1021-1026 | a required field is marked exactly when its tag occurred in the consumed input |
| PbStream.RequiredCheck | PicData/Pods/nanopb/pb_decode.c:1032-1078 | decodable input is accepted exactly when the last fixed-count field is complete and each of the first 64 required fields occurred |
| PbStream.SkippedExactly | PicData/Pods/nanopb/pb_common.c:83-101 | records of unknown fields are skipped for every payload if and only if the message type is not empty or the tag is not 0 |
| PbStream.EmptyTypeFails | PicData/Pods/nanopb/pb_decode.c:945-947 | bytes that a type with one field skips are rejected by an empty type |
| PbTransfer.Transfer | PicData/Pods/nanopb/pb_encode.c:528-550 | encoding into a buffer and decoding the bytes written, under a schema that knows some of the fields, fails only for want of room and gives a message that agrees on them |
| Stat4Proof.FirstPush | PicData/Pods/WCDBOptimizedSQLCipher/src/analyze.c:443-475 | from the initial accumulator the first row establishes the invariant of all runs |
| Stat4Proof.InsertCandidate | PicData/Pods/WCDBOptimizedSQLCipher/src/analyze.c:556-644 | inserting the candidate of a column leaves samples that are exact or open, in row order, every group with a sample still led by one, and iMin a least preferred one |
| Stat4Proof.InsertPeriodic | PicData/Pods/WCDBOptimizedSQLCipher/src/analyze.c:556-644 | the same for a periodic sample, which is always retained and evicts no other periodic one |
| Stat4Order.BetterWeak | PicData/Pods/WCDBOptimizedSQLCipher/src/analyze.c:505-550 | the preference is asymmetric and transitive, and so is being equally good |
| Stat4Order.MinIsLeast | PicData/Pods/WCDBOptimizedSQLCipher/src/analyze.c:633-643 | the search finds a non-periodic sample preferred over no other one, or all are periodic |
| Stat4Order.BetterPatched | PicData/Pods/WCDBOptimizedSQLCipher/src/analyze.c:675-683 | filling in unknown counts does not change the preference |
| Stat4Kept.BetterExactly | PicData/Pods/WCDBOptimizedSQLCipher/src/analyze.c:505-550 | the preference spelled out: larger count, then shorter prefix, then the first larger count behind it, then the larger hash |
| Stat4Proof.UnknownIsOpen | PicData/Pods/WCDBOptimizedSQLCipher/src/analyze.c:581-582 | a zero count marks exactly the samples of the group that is still open |
| Stat4Proof.CandidateBetter | PicData/Pods/WCDBOptimizedSQLCipher/src/analyze.c:583-584 | the two asserts in the search of sampleInsert hold: the sample was chosen for a longer prefix and the candidate is preferred |
| Stat4Proof.StoredOk | PicData/Pods/WCDBOptimizedSQLCipher/src/analyze.c:622-628 | what is stored of a candidate is exact, because it is the last row of its subgroups |
| Stat4Proof.UpgradedOk | PicData/Pods/WCDBOptimizedSQLCipher/src/analyze.c:590-594 | an upgraded sample gets the exact count and all its later counts are known |
| Stat4Proof.CloseColumnOk | PicData/Pods/WCDBOptimizedSQLCipher/src/analyze.c:659-665 | closing a column keeps the invariant |
| Stat4Kept.ClosedExactly | PicData/Pods/WCDBOptimizedSQLCipher/src/analyze.c:556-665 | when a group ends: with a periodic sample nothing changes, with others the best of them is upgraded, with none the candidate is stored if there is room or it is preferred over the least preferred sample |
| Stat4Kept.NothingBetterLost | PicData/Pods/WCDBOptimizedSQLCipher/src/analyze.c:596-612 | in a full array a candidate passed over is preferred over no sample that is not periodic, and an evicted sample over none that stays |
| Stat4Kept.PeriodicExactly | PicData/Pods/WCDBOptimizedSQLCipher/src/analyze.c:778-786 | exactly the rows whose number is a multiple of the period are stored as periodic samples |
| Stat4Proof.PatchedOk | PicData/Pods/WCDBOptimizedSQLCipher/src/analyze.c:675-683 | back-patching gives exact counts to the groups that end |
| Stat4Proof.PushPreviousOk | PicData/Pods/WCDBOptimizedSQLCipher/src/analyze.c:653-684 | samplePushPrevious leaves exact counts for ended groups, unknown ones for open groups, and the order of the samples |
| Stat4Proof.AdvancedOk | PicData/Pods/WCDBOptimizedSQLCipher/src/analyze.c:752-763 | the counters of the current row are exact after each row |
| Stat4Proof.NotAllPeriodic | PicData/Pods/WCDBOptimizedSQLCipher/src/analyze.c:641-641 | the assert that there is a sample to evict holds: a full array is never all periodic |
| Stat4Proof.Joins | PicData/Pods/WCDBOptimizedSQLCipher/src/analyze.c:789-794 | a row that joins the subgroup of a candidate replaces it, so a candidate is the last row of its subgroup |
| Stat4Kept.CandidateBest | PicData/Pods/WCDBOptimizedSQLCipher/src/analyze.c:788-794 | a new row becomes the candidate exactly so that it stays a best row of its open group |
| Stat4Kept.RunBest | PicData/Pods/WCDBOptimizedSQLCipher/src/analyze.c:788-794 | in every reachable state the candidate of a column is a row of the open group over which no other row of it was preferred when it arrived |
| Stat4Kept.LargestSubgroup | PicData/Pods/WCDBOptimizedSQLCipher/src/analyze.c:788-794 | so it is in a largest group of the next longer prefix |
| Stat4Proof.PushOk | PicData/Pods/WCDBOptimizedSQLCipher/src/analyze.c:729-797 | stat_push keeps the invariant |
| Stat4Proof.RunStable | PicData/Pods/WCDBOptimizedSQLCipher/src/analyze.c:729-797 | every reachable state meets the invariant |
| Stat4Proof.SampleSet | PicData/Pods/WCDBOptimizedSQLCipher/src/analyze.c:556-644 | in every reachable state: samples in row order, at most mxSample; no zero count from nMaxEqZero on; all rows at the period retained, at most a third of mxSample; when full, iMin is a least preferred non-periodic sample |
| Stat4Proof.FlushExact | PicData/Pods/WCDBOptimizedSQLCipher/src/analyze.c:899-902 | after all rows and the flush every retained sample has exact counts for every prefix |
| Stat4Kept.FlushCovers | PicData/Pods/WCDBOptimizedSQLCipher/src/analyze.c:653-684 | while the array was never full, every group of every column but the last has a sample after the flush |
| Stat4Rows.SamePrefix | PicData/Pods/WCDBOptimizedSQLCipher/src/analyze.c:717-719 | rows agree on a prefix exactly when no column of it changed in between |
| Stat4Rows.CountEqual | PicData/Pods/WCDBOptimizedSQLCipher/src/analyze.c:754-763 | group sizes and starts are the numbers of rows with an equal and with a smaller prefix |
| Stat4Rows.CountPrefixes | PicData/Pods/WCDBOptimizedSQLCipher/src/analyze.c:757-758 | group numbers are numbers of distinct prefixes |
| Stat4Rows.RunIdentified | PicData/Pods/WCDBOptimizedSQLCipher/src/analyze.c:347-359 | every sample and candidate carries the rowid or primary key of the row its counts belong to |
| Stat4Rows.SamplesDescribe | PicData/Pods/WCDBOptimizedSQLCipher/src/analyze.c:898-944 | every sample read after the flush has, for every prefix, the exact numbers of matching rows, smaller rows and distinct smaller prefixes of its row |
| Stat4Rows.PrefixStatistics | PicData/Pods/WCDBOptimizedSQLCipher/src/analyze.c:745-764 | after each row smaller and equal rows are all rows, and anDLt plus one is the number of distinct prefixes |
| Stat4Rows.EstimateRoundsUp | PicData/Pods/WCDBOptimizedSQLCipher/src/analyze.c:887-888 | the estimate is the quotient rounded up, between 1 and the number of rows |
| Stat4Rows.Stat1Estimates | PicData/Pods/WCDBOptimizedSQLCipher/src/analyze.c:870-892 | the stat1 estimates are rows per distinct prefix rounded up, not larger for longer prefixes, and 1 for a unique one |
| Stat4Text.NumberFits | PicData/Pods/WCDBOptimizedSQLCipher/src/analyze.c:884-889 | no 64-bit number is cut off by the 24 bytes allowed for it |
| Stat4Text.PrintCounts | PicData/Pods/WCDBOptimizedSQLCipher/src/analyze.c:934-941 | the loop that prints a space behind each number and removes the last one gives the joined list |
| Stat4Text.JoinedForm | PicData/Pods/WCDBOptimizedSQLCipher/src/analyze.c:870-892 | the form of a list: numbers in decimal, one space between two |
| Stat4Text.CountsRoundTrip | PicData/Pods/WCDBOptimizedSQLCipher/src/analyze.c:1472-1488 | reading back a printed list gives the list |
| Stat4Text.ReadOne | PicData/Pods/WCDBOptimizedSQLCipher/src/analyze.c:1473-1477 | the inner loop reads the digits |
| Stat4Text.DecodeIntArray | PicData/Pods/WCDBOptimizedSQLCipher/src/analyze.c:1472-1488 | fills the first slots with the numbers and leaves the others |
| Stat4Machine.Stat4Accum.constructor | PicData/Pods/WCDBOptimizedSQLCipher/src/analyze.c:399-485 | stat_init gives the initial accumulator, with the seed made of the number of columns and of rows |
| Stat4Machine.Stat4Accum.SampleIsBetterPost | PicData/Pods/WCDBOptimizedSQLCipher/src/analyze.c:505-520 | the loop decides the preference behind the column |
| Stat4Machine.Stat4Accum.SampleIsBetter | PicData/Pods/WCDBOptimizedSQLCipher/src/analyze.c:529-550 | decides the preference |
| Stat4Machine.Stat4Accum.FindShared | PicData/Pods/WCDBOptimizedSQLCipher/src/analyze.c:579-589 | the search for samples that share the prefix |
| Stat4Machine.Stat4Accum.FindNewMin | PicData/Pods/WCDBOptimizedSQLCipher/src/analyze.c:633-643 | the search for the least preferred sample |
| Stat4Machine.Stat4Accum.SampleInsert | PicData/Pods/WCDBOptimizedSQLCipher/src/analyze.c:556-644 | in place, the insertion of the specification |
| Stat4Machine.Stat4Accum.UpgradeSample | PicData/Pods/WCDBOptimizedSQLCipher/src/analyze.c:590-594 | in place, the upgrade of one sample |
| Stat4Machine.Stat4Accum.AppendSample | PicData/Pods/WCDBOptimizedSQLCipher/src/analyze.c:598-628 | in place, eviction and append |
| Stat4Machine.Stat4Accum.Evict | PicData/Pods/WCDBOptimizedSQLCipher/src/analyze.c:599-612 | the samples behind iMin move down by one |
| Stat4Machine.Stat4Accum.PushBest | PicData/Pods/WCDBOptimizedSQLCipher/src/analyze.c:659-665 | in place, one column closed |
| Stat4Machine.Stat4Accum.SamplePushPrevious | PicData/Pods/WCDBOptimizedSQLCipher/src/analyze.c:653-684 | in place, samplePushPrevious of the specification |
| Stat4Machine.Stat4Accum.PatchSamples | PicData/Pods/WCDBOptimizedSQLCipher/src/analyze.c:675-683 | in place, the back-patching |
| Stat4Machine.Stat4Accum.StatPush | PicData/Pods/WCDBOptimizedSQLCipher/src/analyze.c:729-797 | in place, stat_push of the specification |
| Stat4Machine.Stat4Accum.Advances | PicData/Pods/WCDBOptimizedSQLCipher/src/analyze.c:745-764 | in place, closing and counting for the new row |
| Stat4Machine.Stat4Accum.FirstCounters | PicData/Pods/WCDBOptimizedSQLCipher/src/analyze.c:745-747 | the counters of the first row |
| Stat4Machine.Stat4Accum.NextCounters | PicData/Pods/WCDBOptimizedSQLCipher/src/analyze.c:752-763 | the counters of a later row |
| Stat4Machine.Stat4Accum.ConsiderPeriodic | PicData/Pods/WCDBOptimizedSQLCipher/src/analyze.c:778-786 | in place, the periodic sample |
| Stat4Machine.Stat4Accum.ConsiderCandidates | PicData/Pods/WCDBOptimizedSQLCipher/src/analyze.c:788-794 | in place, the candidates of all columns |
| Stat4Machine.Stat4Accum.GetStat1 | PicData/Pods/WCDBOptimizedSQLCipher/src/analyze.c:853-896 | the text is the joined list of the row count and the estimates |
| Stat4Machine.Stat4Accum.GetRowid | PicData/Pods/WCDBOptimizedSQLCipher/src/analyze.c:898-911 | the first call flushes; then the rowid of the current sample, if there is one |
| Stat4Machine.Stat4Accum.GetCounts | PicData/Pods/WCDBOptimizedSQLCipher/src/analyze.c:912-944 | the joined counts of the current sample; the last kind moves on |
| Stat4Analyze.FirstChange | PicData/Pods/WCDBOptimizedSQLCipher/src/analyze.c:1183-1207 | the chain of tests finds the first tested column that differs from the previous row, and the registers then hold the new row |
| Stat4Analyze.ChangeFound | PicData/Pods/WCDBOptimizedSQLCipher/src/analyze.c:1068-1076 | when the rows differ in the tested columns and the next one, testing these is enough to find the first changed column of all |
| Stat4Analyze.ShortcutFound | PicData/Pods/WCDBOptimizedSQLCipher/src/analyze.c:1176-1182 | in a unique index on one column the changed column behind a value that is not null is 0, and no null follows |
| Stat4Analyze.Scan | PicData/Pods/WCDBOptimizedSQLCipher/src/analyze.c:1153-1241 | the scan of an index, with the shortcut for a unique index on one column, leaves the accumulator in the state of the run over the changed columns of its rows |
| Stat4Analyze.ReadCounts | PicData/Pods/WCDBOptimizedSQLCipher/src/analyze.c:1795-1797 | the three texts of a sample, read back by the loader, are its counts |
| Stat4Analyze.ReadSamples | PicData/Pods/WCDBOptimizedSQLCipher/src/analyze.c:1269-1290 | the loop reads every retained sample once, after the flush, with the columns of its row, and passes over those whose row is not found |
| Stat4Analyze.LoadedSamples | PicData/Pods/WCDBOptimizedSQLCipher/src/analyze.c:898-944 | what is loaded describes its rows exactly, in row order, all rows at the period among them, and as long as there is room a row for every value of every proper prefix; no count exceeds the number of rows |
| Stat4Analyze.Analyze | PicData/Pods/WCDBOptimizedSQLCipher/src/analyze.c:1130-1290 | from the rows of an index to the loaded statistics: stat1 is the number of rows and the rounded-up rows per distinct prefix, every loaded sample is a row with the exact numbers of equal, smaller and distinct smaller prefixes |
| LrTables.FindShiftAction | PicData/Pods/WCDBOptimizedSQLCipher/parse.c:2127-2190 | the loop with fallback, wildcard and default computes the lookup and ends |
| LrTables.LookupOrder | PicData/Pods/WCDBOptimizedSQLCipher/parse.c:2137-2189 | the compressed lookup is the one in the uncompressed table: the token's own action first, then its fallback's, then the wildcard's unless at the end of input, then the default |
| LrTables.FoundStandsFor | PicData/Pods/WCDBOptimizedSQLCipher/parse.c:2144-2184 | an action found in the table was found under the token, its fallback, or the wildcard for a token that is not the end of input |
| LrMachine.Known | PicData/Pods/WCDBOptimizedSQLCipher/parse.c:2270-2307 | what the annotation claims of the entries below a state is true of every reachable stack |
| LrMachine.ShiftOk | PicData/Pods/WCDBOptimizedSQLCipher/parse.c:2270-2307 | a shift keeps the stack well-formed and adds its token to the yield; an overflow leaves the bottom |
| LrMachine.ReduceReady | PicData/Pods/WCDBOptimizedSQLCipher/parse.c:2201-2219 | when a rule is reduced its right-hand side is on the stack and the asserts of the reduce lookup hold |
| LrMachine.ReduceKeeps | PicData/Pods/WCDBOptimizedSQLCipher/parse.c:5021-5039 | a reduction keeps parse trees on the stack and the tokens under them |
| LrMachine.NodeDerives | PicData/Pods/WCDBOptimizedSQLCipher/parse.c:5021-5039 | the entries of the right-hand side make a parse tree for the left-hand side |
| LrMachine.AcceptAtBottom | PicData/Pods/WCDBOptimizedSQLCipher/parse.c:5107-5107 | acceptance follows a reduction to the start symbol right above the bottom, as yy_accept asserts |
| LrRuns.StepKeeps | PicData/Pods/WCDBOptimizedSQLCipher/parse.c:5171-5197 | one pass of the loop fails no assert, reduces by no elided rule, and keeps the trees whose yield is the tokens so far; acceptance yields a tree for the start symbol |
| LrRuns.SizeBound | PicData/Pods/WCDBOptimizedSQLCipher/parse.c:5021-5039 | a parse tree has at most linearly many nodes in its tokens |
| LrRuns.StepUses | PicData/Pods/WCDBOptimizedSQLCipher/parse.c:5171-5289 | a pass that goes on uses up a bound given by the tokens shifted |
| LrRuns.Parse | PicData/Pods/WCDBOptimizedSQLCipher/parse.c:5135-5302 | for any token and reachable stack the loop ends, and its outcome has the trees and tokens it should |
| LrRuns.Run | PicData/Pods/WCDBOptimizedSQLCipher/parse.c:5135-5302 | any sequence of tokens leaves a well-formed stack of at most YYSTACKDEPTH entries |
| LrDepth.StepExactly | PicData/Pods/WCDBOptimizedSQLCipher/parse.c:5171-5197 | per pass the parser and one without a limit agree while the next stack fits; otherwise the stack is full and the parser overflows |
| LrDepth.OverflowExactly | PicData/Pods/WCDBOptimizedSQLCipher/parse.c:5135-5302 | a run overflows if and only if the parser without a limit comes to a stack that does not fit, and in all other cases both end alike |
| LrRuns.StepCalm | PicData/Pods/WCDBOptimizedSQLCipher/parse.c:5183-5186 | acceptance only in sight of the end of input, when the tables reduce to the start symbol only there |
| LrRuns.RunSound | PicData/Pods/WCDBOptimizedSQLCipher/parse.c:5135-5302 | acceptance in the middle of any run yields a tree over the earlier tokens and those consumed |
| LrRuns.AcceptedInputDerives | PicData/Pods/WCDBOptimizedSQLCipher/parse.c:5135-5302 | an accepted input has a parse tree for the start symbol over exactly the tokens before the end of input |
| LrDerivation.TreeDerives | PicData/Pods/WCDBOptimizedSQLCipher/parse.c:5021-5039 | a parse tree is a derivation of the grammar, elided rules put back, of a reading of its tokens |
| LrDerivation.AcceptedInputIsInLanguage | PicData/Pods/WCDBOptimizedSQLCipher/parse.c:5135-5302 | the start symbol derives every accepted input, up to fallback and wildcard |
| LrEager.PendingGoesOn | PicData/Pods/WCDBOptimizedSQLCipher/parse.c:2133-2133 | a pending reduction is carried out by the next pass whatever the token, and cannot overflow |
| LrEager.SettledFirst | PicData/Pods/WCDBOptimizedSQLCipher/parse.c:2299-2301 | carrying out pending reductions first makes no difference |
| LrEager.SameToken | PicData/Pods/WCDBOptimizedSQLCipher/parse.c:5171-5182 | per token the delayed and the immediate machine have the same outcome and, pending reductions carried out, the same stack |
| LrEager.DelayedIsEager | PicData/Pods/WCDBOptimizedSQLCipher/parse.c:5171-5182 | the same for every run |
| LrExample.RuleIsElided | PicData/Pods/WCDBOptimizedSQLCipher/parse.c:4994-4994 | an accepted tree that is a parse tree because a rule like expr ::= term is put back, and only because of that |
| LrExample.EmptyStep | PicData/Pods/WCDBOptimizedSQLCipher/parse.c:3101-3112 | an empty rule is reduced with one entry on the stack and nothing overflows |
| LrDriver.Parser.constructor | PicData/Pods/WCDBOptimizedSQLCipher/parse.c:1826-1850 | the stack holds state 0 |
| LrDriver.Parser.PopParserStack | PicData/Pods/WCDBOptimizedSQLCipher/parse.c:2029-2042 | the top entry is destroyed |
| LrDriver.Parser.Finalize | PicData/Pods/WCDBOptimizedSQLCipher/parse.c:2047-2053 | every entry above the bottom is destroyed exactly once, the last one first |
| LrDriver.Parser.StackOverflow | PicData/Pods/WCDBOptimizedSQLCipher/parse.c:2225-2245 | the same on overflow |
| LrDriver.Parser.YyShift | PicData/Pods/WCDBOptimizedSQLCipher/parse.c:2270-2307 | in place, the shift of the machine, or the overflow with its destructions |
| LrDriver.Parser.YyReduce | PicData/Pods/WCDBOptimizedSQLCipher/parse.c:5021-5039 | in place, the reduction of the machine, or the overflow |
| LrDriver.FindReduceAction | PicData/Pods/WCDBOptimizedSQLCipher/parse.c:2196-2220 | the lookup |
| LrDriver.Parser.Parse | PicData/Pods/WCDBOptimizedSQLCipher/parse.c:5135-5302 | the loop over the stack array ends with the stack and outcome of the machine; consumed and accepted tokens destroy nothing, a rejected token is destroyed, an overflow destroys trees for exactly the tokens shifted so far |
| RenameSpec.OrderIrrelevant | PicData/Pods/WCDBOptimizedSQLCipher/src/alter.c:1028-1031 | the substituted text does not depend on the order of the token list |
| RenameSpec.Copied | PicData/Pods/WCDBOptimizedSQLCipher/src/alter.c:1052-1059 | text without tokens is copied |
| RenameSpec.PlacedAt | PicData/Pods/WCDBOptimizedSQLCipher/src/alter.c:1037-1061 | every position outside the tokens keeps its character, moved by the growth before it, and at every token stands its replacement |
| RenameSpec.QuotedName | PicData/Pods/WCDBOptimizedSQLCipher/src/alter.c:1017-1017 | the quoted name read back is the name |
| RenameSpec.QuotedShape | PicData/Pods/WCDBOptimizedSQLCipher/src/alter.c:1017-1017 | the quoted name stands in double quotes and what is between them for the name |
| RenameSpec.ReplacementExactly | PicData/Pods/WCDBOptimizedSQLCipher/src/alter.c:1042-1049 | the bare name is put in if and only if no quotes were asked for and the token starts like an identifier |
| RenameSpec.DrainedFalling | PicData/Pods/WCDBOptimizedSQLCipher/src/alter.c:843-864 | repeated calls return every token exactly once, in strictly falling order of offset |
| RenameSpec.TextOrderExactly | PicData/Pods/WCDBOptimizedSQLCipher/src/alter.c:847-849 | repeated calls return the tokens in the order of the text if and only if there is at most one |
| RenameSpec.TwoTokens | PicData/Pods/WCDBOptimizedSQLCipher/src/alter.c:847-849 | two tokens listed in text order are returned the other way round |
| Rename.RenameCtx.constructor | PicData/Pods/WCDBOptimizedSQLCipher/src/alter.c:628-634 | an empty list |
| Rename.RenameCtx.RenameColumnTokenNext | PicData/Pods/WCDBOptimizedSQLCipher/src/alter.c:852-864 | removes and returns a right-most token |
| Rename.RenameCtx.TakeAll | PicData/Pods/WCDBOptimizedSQLCipher/src/alter.c:1037-1040 | calls until the list is empty take a right-most token every time |
| Rename.RemapLookup | PicData/Pods/WCDBOptimizedSQLCipher/src/alter.c:708-717 | after a remap the new element has the token of the old one and all others have theirs |
| Rename.RemapDistinct | PicData/Pods/WCDBOptimizedSQLCipher/src/alter.c:660-671 | no element is listed twice |
| Rename.RenameList.constructor | PicData/Pods/WCDBOptimizedSQLCipher/src/alter.c:617-621 | an empty list |
| Rename.RenameList.TokenMap | PicData/Pods/WCDBOptimizedSQLCipher/src/alter.c:688-701 | the new element has its token, all others keep theirs |
| Rename.RenameList.TokenRemap | PicData/Pods/WCDBOptimizedSQLCipher/src/alter.c:708-717 | in place, the remap |
| Rename.RenameList.TokenFind | PicData/Pods/WCDBOptimizedSQLCipher/src/alter.c:775-788 | the element's token moves to the front of the other list; no token is lost or duplicated |
| Rename.SpliceDone | PicData/Pods/WCDBOptimizedSQLCipher/src/alter.c:1037-1061 | replacing the right-most remaining token extends the part that is in its final form down to it |
| Rename.ReplaceNext | PicData/Pods/WCDBOptimizedSQLCipher/src/alter.c:1037-1061 | one pass of the loop, within the room set aside for it |
| Rename.Splice | PicData/Pods/WCDBOptimizedSQLCipher/src/alter.c:1051-1059 | memmove and memcpy in the buffer replace the token and nothing else, and the NUL stays behind the text |
| Rename.MoveTail | PicData/Pods/WCDBOptimizedSQLCipher/src/alter.c:1052-1058 | the text behind the token is moved to its place |
| Rename.TextOf | PicData/Pods/WCDBOptimizedSQLCipher/src/alter.c:1063-1063 | a result of length -1 is the buffer up to its first NUL |
| Rename.RenameEditSql | PicData/Pods/WCDBOptimizedSQLCipher/src/alter.c:997-1071 | the C string returned is the simultaneous substitution, for any order of disjoint tokens, inside the buffer of nSql + nList * nQuot + 1 bytes and ended by its NUL |

## Left out

- nanopb pointer and callback fields, extensions, custom stream callbacks, error texts, `PB_WITHOUT_64BIT` and
  malloc: other builds or foreign code.
- nanopb memory: a decoder returns the value it would store through its pointer instead of writing the struct,
  so aliasing and what a failed decode leaves behind are not captured. The reset of a fixed-count array, which
  clears a counter that shares the address of its first item, is modelled as the empty array.
- nanopb sizes are unbounded numbers: no wrap-around of `size_t` or `pb_size_t`.
- PbEncode.OStream.Write: the sum of sizes does not wrap around; PbEncode.FullGuard says what the test for it does.
- PbDecode.DecodeVarint32: the shift counter does not wrap around. With an 8-bit `uint_fast8_t` that of the C code
  does after 37 bytes, and later bits are or-ed in at wrong places. The same holds of PbWire.ReadVarint32 and of
  everything built on it (tags, lengths, bools, skipping), on varints of more than 37 bytes.
- PbWire.Varint32Refines64: for at most ten bytes, because the shift counter of a longer varint depends on
  the width of `uint_fast8_t`.
- PbDecode.SetToDefaults: a fixed-count array becomes the empty array; that the reset of its counter clears
  bytes of the first item is not modelled.
- PbDecode.DecodeUnknown: the search for an extension before the skip, and the place where the bool of a
  terminator is stored.
- PbFits.DecodeFits: for schemas whose declared default values fit their members, which the generator and the
  C compiler see to.
- PbEvolution.RoundTrip: for encodings shorter than 2^32 bytes, which is what the 32-bit length of a substream can hold.
- Reading raw values for callbacks (`read_raw_value`), `pb_decode_delimited_noinit` and
  `pb_decode_nullterminated`: they add no behaviour to the modelled ones.
- STAT4: cursors of the VDBE program, memory management, the STAT3 and STAT1-only builds, and wrap-around of
  counters.
- Stat4Machine.Stat4Accum.Evict: samples are values in the array; the pointers to count arrays that the C code
  hands from an evicted sample to the new one are not modelled.
- Stat4Text.DecodeIntArray: the logarithmic estimates and the flags behind the numbers.
- The parser: contents of the tables, semantic actions and destructors, tracing, dynamic stacks and the builds
  with error recovery.
- LrRuns.Parse: that the loop ends rests on weights that fit every rule; a grammar with a cyclic derivation has none.
- LrRuns.AcceptedInputDerives: soundness only; that every input of the language is accepted is not a local
  property of the tables.
- Rename: walkers, name resolution, nested SQL and memory errors; the collected token list is the input. The
  linked lists are sequences that the methods reassign, so their pointers are not modelled.
- Rename.RenameEditSql: tokens are not empty. The parser is given empty ones only for the end of the input and for the
  semicolon supplied before it (tokenize.c:625-650), and neither is a name.
