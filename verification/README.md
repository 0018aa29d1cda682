# Verified models of the firmware's algorithmic libraries

Five self-contained libraries of the repository are modelled in Dafny, each in its own group of files, together with proofs of what they are for.

**nanopb** (`Pb*.dfy`). The protobuf codec driven by field descriptors. `PbWire` holds the wire format on byte strings, `PbDescriptor` the descriptor trees, message structs and defaults, `PbEncoding` and `PbDecoding` what the codec computes as functions of descriptor, struct and bytes. `PbIter`, `PbOStream`, `PbEncoder`, `PbIStream` and `PbDecoder` are the code itself, streams and iterator updated in place, each method proved against those functions. `PbFold`, `PbRoundTrip`, `PbMessages` and `PbTheorems` prove the codec's promises: decoding undoes encoding over all descriptor trees and messages, sizing is exact at every depth, decoding is a fold over records, required fields decide acceptance. `PbFormat` takes the encoded bytes apart by the Protocol Buffers wire format alone, `PbBounds` shows that whatever the decoder accepts fits its fields, and `PbMeaning` says what records, defaults, offsets and cut-off inputs mean. A struct is a map from the byte offset of a field's data to its slot, so the members of a union share one slot; offsets are computed as the iterator computes them.

**SEGGER RTT** (`Rtt*.dfy`). `RttRing` is the FIFO a ring stands for, `RttBuffer` the ring in memory with every way of writing and reading it, `RttOverwrite` what the overwriting write leaves and when that is the newest bytes. `RttInterleaving` is `_WriteBlocking` against a host that reads meanwhile, as a state machine of single memory accesses with its invariant, safety over all runs, progress and the possibility to finish from every reachable state. `RttTerminal` is the multiplexing of terminals and the reader that takes the stream apart.

**cifra** (`Cf*.dfy`). `CfBits` has words, masks and branch-free selection, `CfBlockwise` the block accumulator and the spending of key material, `CfGf128` the field GF(2^128), `CfCmac`, `CfCtr` and `CfEax` the modes over an arbitrary block cipher, `CfAes` and `CfAesBlocks` the cipher and its key schedule on words, `CfFips` the cipher of FIPS 197 on octets and its agreement with them, `CfStandard` the CMAC of NIST SP 800-38B block by block. Callbacks with a context are functions and the value they update.

**fnmatch** (`Fnmatch*.dfy`). `FnmatchGlob` parses a pattern and says which strings it matches, `FnmatchBudget` what is answered with a budget of nested calls and when it runs out; `Fnmatch` is the matcher with its loops and recursion. `FnmatchText` is how patterns are written, and what paths they match.

**cJSON** (`Json*.dfy`). `JsonText` is the printed text of an item, `JsonParse` what parsing makes of a text, with an outcome of its own for runs that leave what C defines, `JsonStrings` and `JsonDefined` when those happen, `JsonRoundTrip` how text and parsing fit, `JsonMinify` the minifier on values and in place, `JsonSize`, `JsonBuffer` and `JsonBuffered` the growable print buffer and the printers into it, `JsonPrinter` the allocating printers, `JsonParser` the parsers as they run. `JsonGrammar` holds the texts of RFC 8259, all of which are parsed as what they mean, `JsonSound` the texts that are accepted at all, `JsonUnicode` the `\u` escapes by UTF-16 and UTF-8, `JsonLayout` the form of printed text, `JsonChunks` the minifier on any text with comments and on the texts of the grammar.

`Common`, `Bytes` and `Octets` hold what several of them share.

Points where the code does something a reader may not expect, each stated as a lemma:

- The required-field check of `pb_decode_noinit` shifts a 32-bit word by 32 when 32 fields are required (`PbDecoder.SeenCheckExact`) and reads past `fields_seen` when 64 or more are and all of the first 64 were seen (`PbDecoder.CheckRequired`); there C defines no behaviour, so well-formed descriptors have a required count of 0, or below 64 and not 32.
- A record with tag 0 in a message without fields matches the terminator row (`PbFold.UnknownRecord`), and a string that fills its buffer without a NUL is encoded but rejected by the decoder (`PbTheorems.StringRoundTripExact`).
- The decoder merges a record for an optional submessage into what the struct holds, present or not, so over a struct that was not set to defaults a stale value can become present (`PbBounds.StaleOptional`).
- A zero key ends a submessage early, and the parent message then reads on inside it (`PbMeaning.ZeroInside`); a message cut off inside a key counts as ended (`PbMeaning.CutRecord`).
- The field iterator takes two unions in a row for one, and is wrong about where the second is (`PbMeaning.UnionBehindUnion`).
- cJSON takes all control characters for white space, a zero in front of other digits, a sign without digits and a string that no quote ends (`JsonSound.ParseSound`, `JsonSound.NumberSound`, `JsonSound.OpenString`).
- cJSON parses integers into `valueint` only and prints by `valuedouble`, so a parsed text prints with zeros for its numbers (`JsonRoundTrip.ReprintExact`).
- `SEGGER_RTT_WriteWithOverwriteNoLock` refills `Avail` one byte short of the buffer, so it keeps the newest bytes exactly for writes of at most two rounds, WrOff + n <= 2 * size - 2 in a ring of two bytes or more (`RttOverwrite.OverwriteExact`). One byte more and everything is lost, as with 15 bytes written to an empty ring of 8 at offset 0 (`RttOverwrite.NextLengthLosesAll`). In a ring of one byte a longer write never ends.
- `parse_string` of cJSON passes over four characters after a `\u` whatever they are. An escape that is too short jumps over the closing quote, and what follows may not fit the output (`JsonStrings.StringStaysExact`, `JsonStrings.ShortEscapeOverruns`).
- `fnmatch` answers FNM_NORES for a string that matches when a pattern has 64 runs of stars that recurse (`FnmatchBudget.TooManyStars`).
- `mask_u8` compares only the low 8 bits (`CfBits.MaskU8Exact`).
- `fnmatch` treats a bracket that is not closed as matching nothing and one with a slash inside as a literal bracket, with or without `FNM_PATHNAME`; the glob parse follows the code.

`dafny verify dfyconfig.toml` checks the whole project.

## Model

| member | source | states |
|---|---|---|
| `PbTheorems.EncodeDecode` | software/my_ble/external/nano-pb/pb_decode.c:840-960 | a message within its bounds encodes, and decoding the bytes succeeds, consumes all of them and gives the message in normal form, for every well-formed descriptor tree with submessages, unions, optionals and arrays |
| `PbTheorems.EncodeThenDecode` | software/my_ble/external/nano-pb/pb_encode.c:371-409 | sizing, encoding into a buffer of that size and decoding from it, run one after the other, all succeed and give the message back in normal form |
| `PbTheorems.Reencode` | software/my_ble/external/nano-pb/pb_encode.c:371-393 | encoding the decoded message gives the very bytes it was decoded from |
| `PbTheorems.NormEncodes` | software/my_ble/external/nano-pb/pb_encode.c:112-269 | the normal form hides nothing the encoder looks at |
| `PbTheorems.StringRoundTripExact` | software/my_ble/external/nano-pb/pb_decode.c:1284-1317 | a string field comes back exactly when its buffer holds a NUL within its size; a full buffer is sent and then rejected |
| `PbTheorems.AcceptsIffRequiredPresent` | software/my_ble/external/nano-pb/pb_decode.c:896-943 | an input is accepted exactly when its records can be read and a record of every required field is among them |
| `PbTheorems.SeenIsDecoded` | software/my_ble/external/nano-pb/pb_decode.c:896-908 | a required field is marked seen exactly when some record of it was decoded |
| `PbDecoder.SeenCheckExact` | software/my_ble/external/nano-pb/pb_decode.c:925-943 | the word-wise bit check says exactly whether all required fields were seen; with 32 of them it also needs the undefined shift by 32 to give zero |
| `PbDecoder.CheckRequired` | software/my_ble/external/nano-pb/pb_decode.c:909-943 | for any number of required fields, counting from wherever the iterator stands and testing the words decides whether all were seen; with 32 the answer also depends on the undefined shift, and with 64 or more there is one exactly when one of the first 64 is missing |
| `PbDecoder.CountRequired` | software/my_ble/external/nano-pb/pb_decode.c:911-922 | walking to the end of the ring from any position counts the required fields of the whole descriptor |
| `PbTheorems.WellFormedTerminated` | software/my_ble/external/nano-pb/pb_common.c:20-76 | a well-formed descriptor tree is one the iterator can walk |
| `PbTheorems.StoredFits` | software/my_ble/external/nano-pb/pb_encode.c:112-269 | a message within its bounds whose encoding fits a size_t meets what the encoder asks at every depth |
| `PbMessages.MessageRoundTrip` | software/my_ble/external/nano-pb/pb_decode.c:840-946 | decoding an encoding over defaults runs through whole records and ends in the normal form |
| `PbMessages.RowsRun` | software/my_ble/external/nano-pb/pb_decode.c:851-910 | the encodings of the rows, in order, are records that take the decoder from one row to the next |
| `PbMessages.RowRuns` | software/my_ble/external/nano-pb/pb_decode.c:349-420 | one encoded row decodes to exactly that row being stored |
| `PbMessages.UnpackedRow` | software/my_ble/external/nano-pb/pb_decode.c:366-404 | an array of unpacked entries is read back entry by entry |
| `PbMessages.PackedRow` | software/my_ble/external/nano-pb/pb_decode.c:366-398 | a packed array is read back from its one record |
| `PbMessages.FillingIsNorm` | software/my_ble/external/nano-pb/pb_decode.c:751-838 | defaults overwritten row by row are the normal form, unions included |
| `PbRoundTrip.EncMsgSucceeds` | software/my_ble/external/nano-pb/pb_encode.c:371-393 | every message within its bounds has an encoding |
| `PbRoundTrip.ValRoundTrip` | software/my_ble/external/nano-pb/pb_decode.c:1150-1340 | a value decodes from its encoding whatever follows, for each of the field types |
| `PbRoundTrip.VarintNumberRoundTrip` | software/my_ble/external/nano-pb/pb_decode.c:1150-1233 | signed, unsigned and zigzag numbers of each width survive the width check of the decoder |
| `PbRoundTrip.BlobRoundTrip` | software/my_ble/external/nano-pb/pb_decode.c:1247-1317 | bytes and NUL-terminated strings survive their size checks |
| `PbFold.LoopAppend` | software/my_ble/external/nano-pb/pb_decode.c:851-910 | decoding is a left fold: whole records followed by more input take the loop to the state after them |
| `PbFold.RunsConcat` | software/my_ble/external/nano-pb/pb_decode.c:851-910 | two runs of whole records make one |
| `PbFold.UnknownRecord` | software/my_ble/external/nano-pb/pb_decode.c:863-888 | a record whose tag the descriptor lacks changes nothing, exactly unless the message is empty and the tag is 0, when it fails |
| `PbFold.SpliceUnknown` | software/my_ble/external/nano-pb/pb_decode.c:863-888 | an unknown record spliced between whole records leaves the decoded message as it was |
| `PbFold.PackedSameAsSeparate` | software/my_ble/external/nano-pb/pb_decode.c:366-404 | a repeated number field decodes to the same state packed in one record or with a record for each value, and fails alike in both forms |
| `PbFold.PackedRecord` | software/my_ble/external/nano-pb/pb_decode.c:366-398 | a packed record takes its array as far as its bytes and storage reach, or is bad |
| `PbWire.VarintRoundTrip64` | software/my_ble/external/nano-pb/pb_encode.c:414-434 | a 64-bit varint is read back whatever follows it |
| `PbWire.VarintRoundTrip32` | software/my_ble/external/nano-pb/pb_decode.c:172-206 | a 32-bit varint is read back whatever follows it |
| `PbWire.VarintLengths` | software/my_ble/external/nano-pb/pb_encode.c:414-434 | a value below 2^(7n) takes at most n bytes |
| `PbWire.ZigZagRoundTrip` | software/my_ble/external/nano-pb/pb_encode.c:436-445 | the zigzag image of every 64-bit signed number is undone |
| `PbWire.FixedRoundTrip` | software/my_ble/external/nano-pb/pb_decode.c:1117-1146 | little-endian fixed width integers are read back |
| `PbWire.KeyRoundTrip` | software/my_ble/external/nano-pb/pb_decode.c:250-274 | a key is read back as its tag and wire type |
| `PbWire.SkipAppend` | software/my_ble/external/nano-pb/pb_decode.c:230-286 | skipping a delimited value does not depend on what follows |
| `PbIter.FieldIter.Begin` | software/my_ble/external/nano-pb/pb_common.c:8-18 | the iterator starts at the first row, or says there is none |
| `PbIter.FieldIter.Next` | software/my_ble/external/nano-pb/pb_common.c:20-76 | a step goes to the next row or wraps; data pointer and required index stay functions of the position |
| `PbIter.FieldIter.Find` | software/my_ble/external/nano-pb/pb_common.c:78-95 | from any position each row is visited at most once, the first row with the tag is found, and none is found exactly when there is none |
| `PbOStream.OStream.Write` | software/my_ble/external/nano-pb/pb_encode.c:87-105 | a write succeeds exactly when the bytes fit and then appends exactly them; a counting stream counts them |
| `PbOStream.OStream.EncodeVarint` | software/my_ble/external/nano-pb/pb_encode.c:414-434 | appends exactly the varint of its argument, or fails for want of room |
| `PbOStream.OStream.EncodeSVarint` | software/my_ble/external/nano-pb/pb_encode.c:436-445 | appends exactly the varint of the zigzag image |
| `PbOStream.OStream.EncodeFixed32` | software/my_ble/external/nano-pb/pb_encode.c:447-456 | appends the four little-endian bytes |
| `PbOStream.OStream.EncodeFixed64` | software/my_ble/external/nano-pb/pb_encode.c:458-471 | appends the eight little-endian bytes |
| `PbOStream.OStream.EncodeTag` | software/my_ble/external/nano-pb/pb_encode.c:473-477 | appends the key of a tag and a wire type |
| `PbOStream.OStream.EncodeString` | software/my_ble/external/nano-pb/pb_encode.c:511-517 | appends the length and the bytes |
| `PbOStream.EncodedThen` | software/my_ble/external/nano-pb/pb_encode.c:371-393 | two encoders in a row encode the concatenation, and the failure of either is the failure of both |
| `PbEncoder.EncodeNumber` | software/my_ble/external/nano-pb/pb_encode.c:571-635 | each number encoder appends exactly its encoding or fails |
| `PbEncoder.EncodeBlob` | software/my_ble/external/nano-pb/pb_encode.c:637-680 | bytes and strings likewise, with the size checks of the source |
| `PbEncoder.EncodeVal` | software/my_ble/external/nano-pb/pb_encode.c:571-690 | the encoder of each field type appends exactly the encoding of the value or fails |
| `PbEncoder.EncodeSubmessage` | software/my_ble/external/nano-pb/pb_encode.c:519-569 | the sizing pass and the writing pass agree at every depth, so the message is sent with its exact length and no size can change between the passes |
| `PbEncoder.EncodeSecondPass` | software/my_ble/external/nano-pb/pb_encode.c:543-568 | a substream limited to the computed size is filled exactly, and the stream takes over its position |
| `PbEncoder.EncodeArray` | software/my_ble/external/nano-pb/pb_encode.c:112-207 | packed and unpacked arrays are encoded with their keys, sized by multiplication or by a counting pass |
| `PbEncoder.EncodeBasicField` | software/my_ble/external/nano-pb/pb_encode.c:209-269 | required, optional, repeated and union fields encode what their flags say |
| `PbEncoder.EncodeMsg` | software/my_ble/external/nano-pb/pb_encode.c:371-393 | appends the encoding of the message, rows in order, whose format `PbFormat.MessageFormat` gives; succeeds exactly when the encoding exists and fits |
| `PbEncoder.GetEncodedSize` | software/my_ble/external/nano-pb/pb_encode.c:400-409 | the counting stream reports exactly the length of the encoding |
| `PbEncoder.EncodeToBuffer` | software/my_ble/external/nano-pb/pb_encode.c:70-105 | writing into capacity m succeeds exactly when that length is at most m, and then those are the bytes |
| `PbIStream.IStream.Read` | software/my_ble/external/nano-pb/pb_decode.c:89-122 | takes exactly the bytes asked for from the window, or fails when there are too few |
| `PbIStream.IStream.DecodeVarint32` | software/my_ble/external/nano-pb/pb_decode.c:172-206 | reads a varint of at most 32 bits and rejects an overflow |
| `PbIStream.IStream.DecodeVarint` | software/my_ble/external/nano-pb/pb_decode.c:208-228 | reads a varint of at most 64 bits |
| `PbIStream.IStream.DecodeTag` | software/my_ble/external/nano-pb/pb_decode.c:250-274 | reads a key; end of input and tag 0 end the message without an error |
| `PbIStream.IStream.Skip` | software/my_ble/external/nano-pb/pb_decode.c:230-286 | skips a value by its wire type |
| `PbIStream.IStream.MakeStringSubstream` | software/my_ble/external/nano-pb/pb_decode.c:321-334 | the substream is a window of the announced length and the parent goes past it |
| `PbIStream.IStream.CloseStringSubstream` | software/my_ble/external/nano-pb/pb_decode.c:336-343 | the parent reads on where the substream stopped, so bytes are conserved unless a zero tag ended a submessage early |
| `PbDecoder.MessageDefaults` | software/my_ble/external/nano-pb/pb_decode.c:823-838 | every field gets its default |
| `PbDecoder.DecodeNumber` | software/my_ble/external/nano-pb/pb_decode.c:1150-1245 | numbers are read and checked against their field width |
| `PbDecoder.DecodeBlob` | software/my_ble/external/nano-pb/pb_decode.c:1247-1317 | bytes and strings are checked against their buffer before they are read, and accepted as `PbBounds.BlobAccepted` says |
| `PbDecoder.DecodeSubmessage` | software/my_ble/external/nano-pb/pb_decode.c:1319-1340 | a submessage is decoded from its own window, over defaults for arrays and unions |
| `PbDecoder.DecodePacked` | software/my_ble/external/nano-pb/pb_decode.c:366-398 | a packed array is read to the end of its bytes or of its storage |
| `PbDecoder.DecodeStaticField` | software/my_ble/external/nano-pb/pb_decode.c:349-420 | a field is decoded by its kind and the wire type |
| `PbDecoder.DecodeTurn` | software/my_ble/external/nano-pb/pb_decode.c:856-910 | one turn reads one record: skips it, stores it or stops |
| `PbDecoder.DecodeNoinit` | software/my_ble/external/nano-pb/pb_decode.c:840-946 | decodes exactly what the fold over the records gives, then checks the required fields |
| `PbDecoder.DecodeMessage` | software/my_ble/external/nano-pb/pb_decode.c:948-960 | the same over defaults |
| `RttRing.PutAppends` | software/my_l151_motor/RTT/SEGGER_RTT.c:399-448 | storing what fits appends it to the FIFO of capacity size - 1 |
| `RttRing.TakeDrops` | software/my_l151_motor/RTT/SEGGER_RTT.c:526-598 | reading removes the oldest bytes |
| `RttRing.PutIgnoresRead` | software/my_l151_motor/RTT/SEGGER_RTT.c:335-379 | where the host reads does not affect where the target writes |
| `RttRing.PostMore` | software/my_l151_motor/RTT/SEGGER_RTT.c:335-379 | posting more keeps drained bytes, ring content and data posted in step |
| `RttBuffer.Buffer.GetAvailWriteSpace` | software/my_l151_motor/RTT/SEGGER_RTT.c:485-501 | size - 1 less the bytes in the ring |
| `RttBuffer.Buffer.WriteNoCheck` | software/my_l151_motor/RTT/SEGGER_RTT.c:399-448 | one or two copies leave the ring of the bytes stored one at a time |
| `RttBuffer.Buffer.WriteSkipNoLock` | software/my_l151_motor/RTT/SEGGER_RTT.c:755-808 | all of the data or nothing, with the same ring as skip mode of WriteNoLock |
| `RttBuffer.Buffer.WriteNoLock` | software/my_l151_motor/RTT/SEGGER_RTT.c:834-884 | skip is all or nothing, trim takes exactly the prefix that fits, blocking takes all, other flags nothing |
| `RttBuffer.Buffer.PutCharSkipNoLock` | software/my_l151_motor/RTT/SEGGER_RTT.c:972-999 | one byte is stored exactly when there is room |
| `RttBuffer.Buffer.ReadNoLock` | software/my_l151_motor/RTT/SEGGER_RTT.c:526-598 | returns and removes exactly the first min(BufferSize, used) bytes, with the unsigned difference of line 574 wrapping |
| `RttBuffer.Buffer.WriteWithOverwriteNoLock` | software/my_l151_motor/RTT/SEGGER_RTT.c:655-735 | the ring that the rounds leave, for data of any length; it holds exactly the newest size - 1 bytes of content and data for every write of at most two rounds |
| `RttOverwrite.OverwriteExact` | software/my_l151_motor/RTT/SEGGER_RTT.c:671-724 | a write of n bytes keeps the newest bytes, whatever they are, if and only if WrOff + n is at most size or 2 * size - 2 |
| `RttOverwrite.NextLengthLosesAll` | software/my_l151_motor/RTT/SEGGER_RTT.c:722-722 | with one byte more the ring is empty afterwards, such as after 15 bytes at offset 0 of a ring of 8 |
| `RttBuffer.Buffer.WriteBlocking` | software/my_l151_motor/RTT/SEGGER_RTT.c:335-379 | whatever the host reads between rounds, drained bytes and content are the old content and the data posted so far; it waits only on a full ring and never when the data fits at once |
| `RttInterleaving.AllRuns` | software/my_l151_motor/RTT/SEGGER_RTT.c:335-379 | in every interleaving of single memory accesses: offsets stay in range, host bytes, unread bytes and unwritten bytes are the old content and the data in order, and between rounds the ring is that of an undisturbed write |
| `RttInterleaving.NoUnreadOverwritten` | software/my_l151_motor/RTT/SEGGER_RTT.c:360-373 | in every run no stored byte touches what the host has not released, and the host reads the oldest published byte |
| `RttInterleaving.RoundFits` | software/my_l151_motor/RTT/SEGGER_RTT.c:347-354 | the size of a round stays clear of unreleased bytes and of the end of the buffer, and is positive exactly when free space was seen |
| `RttInterleaving.RoundProgress` | software/my_l151_motor/RTT/SEGGER_RTT.c:346-378 | every round that samples free space shortens the unwritten data by the size of the round, in every interleaving |
| `RttInterleaving.CanFinish` | software/my_l151_motor/RTT/SEGGER_RTT.c:346-378 | from every reachable state some interleaving delivers the whole stream, for rings that can hold a byte |
| `RttInterleaving.SizeOneNeverWrites` | software/my_l151_motor/RTT/SEGGER_RTT.c:346-378 | a ring of size 1 never takes a byte |
| `RttInterleaving.StepKeeps` | software/my_l151_motor/RTT/SEGGER_RTT.c:335-379 | every single step of target and host keeps the invariant |
| `RttTerminal.RunAttributed` | software/my_l151_motor/RTT/SEGGER_RTT.c:1578-1701 | over every run of calls on plain text, a reader of the stream ends on the active terminal and shows every byte on the terminal its caller named |
| `RttTerminal.Channel.MakeAll` | software/my_l151_motor/RTT/SEGGER_RTT.c:1578-1701 | calls made one after the other on a ring, with a host that reads meanwhile: a reader of all that was put into the ring shows every byte on the terminal its caller named and ends on the active one; each call found the space that was left |
| `RttTerminal.CallAttributed` | software/my_l151_motor/RTT/SEGGER_RTT.c:1578-1701 | the same for one call, in every mode and with any free space |
| `RttTerminal.ReadBracketed` | software/my_l151_motor/RTT/SEGGER_RTT.c:463-469 | text between two switches is shown on the first terminal and leaves the reader on the second |
| `RttTerminal.Channel.SetTerminal` | software/my_l151_motor/RTT/SEGGER_RTT.c:1578-1609 | changes the active terminal exactly when the switch is posted, and waits in blocking mode only |
| `RttTerminal.Channel.WriteBracketed` | software/my_l151_motor/RTT/SEGGER_RTT.c:463-469 | switch, text and switch back are posted in that order, without waiting when they fit |
| `RttTerminal.Channel.TerminalOut` | software/my_l151_motor/RTT/SEGGER_RTT.c:1628-1701 | posts the bracketed text as the mode allows and shows it as `RttTerminal.TerminalOutShows` says; in skip and trim mode the blocking writes inside never wait |
| `CfBlockwise.AbsorbSplit` | software/my_ble/external/cifra_AES128-EAX/blockwise.c:34-100 | any split of the input gives the same blocks; the second part may end in a special last block |
| `CfBlockwise.AccumulateFinal` | software/my_ble/external/cifra_AES128-EAX/blockwise.c:34-100 | feeds held octets and input block by block, the block that ends the input to the final callback, and holds the rest |
| `CfBlockwise.AccumulateByte` | software/my_ble/external/cifra_AES128-EAX/blockwise.c:132-162 | the same as feeding the octet that many times, although a filled buffer is not filled again |
| `CfBlockwise.AccumulatePad` | software/my_ble/external/cifra_AES128-EAX/blockwise.c:164-197 | the same as feeding first, middle and last octets one after the other |
| `CfBlockwise.XorStream` | software/my_ble/external/cifra_AES128-EAX/blockwise.c:102-130 | the output is the input under the next octets of key material, and the rest of a block is kept for the next call |
| `CfBlockwise.KeySplit` | software/my_ble/external/cifra_AES128-EAX/blockwise.c:102-130 | using key material in two goes skips no octet and uses none twice |
| `CfCmac.ChunksGiveCmac` | software/my_ble/external/cifra_AES128-EAX/cifra_cmac.c:108-143 | however a message is split into chunks, the last not empty unless the message is, the last chunk alone processes a last block, it processes one, and the result is the CMAC (section 6.2 of NIST SP 800-38B) |
| `CfCmac.CmacStream.SignChunks` | software/my_ble/external/cifra_AES128-EAX/cifra_cmac.c:65-148 | a list of chunks streamed after a reset: the output is the CMAC of the message and the stream is finalised once |
| `CfCmac.FinishedChain` | software/my_ble/external/cifra_AES128-EAX/cifra_cmac.c:85-143 | the last chunk ends the chain of the specification, whole or padded, and processes one last block |
| `CfCmac.WholeBlocksChain` | software/my_ble/external/cifra_AES128-EAX/cifra_cmac.c:94-99 | a message of whole blocks ends under the first subkey |
| `CfCmac.RestChain` | software/my_ble/external/cifra_AES128-EAX/cifra_cmac.c:101-106 | any other message ends padded under the second subkey |
| `CfCmac.PadBlock` | software/my_ble/external/cifra_AES128-EAX/cifra_cmac.c:135-142 | the padding call completes exactly one block |
| `CfCmac.NothingProcessed` | software/my_ble/external/cifra_AES128-EAX/cifra_cmac.c:119-120 | a stream with no octets counted or held was given an empty message |
| `CfCmac.ProcessKeepsOpen` | software/my_ble/external/cifra_AES128-EAX/cifra_cmac.c:75-81 | chunks before the last do not finalise the stream |
| `CfCmac.CmacInit` | software/my_ble/external/cifra_AES128-EAX/cifra_cmac.c:25-48 | the subkeys are 2L and 4L for L the cipher of the zero block (section 6.1 of NIST SP 800-38B) |
| `CfCmac.CmacStream.Reset` | software/my_ble/external/cifra_AES128-EAX/cifra_cmac.c:65-73 | nothing of an earlier message is left |
| `CfCmac.CmacStream.Update` | software/my_ble/external/cifra_AES128-EAX/cifra_cmac.c:108-143 | a chunk that is not the last is absorbed |
| `CfCmac.CmacStream.UpdateFinal` | software/my_ble/external/cifra_AES128-EAX/cifra_cmac.c:108-143 | the last chunk finalises the stream with the value the specification gives for what is left |
| `CfCmac.CmacSign` | software/my_ble/external/cifra_AES128-EAX/cifra_cmac.c:50-57 | a message in one piece gets its CMAC |
| `CfCtr.Ctr.Cipher` | software/my_ble/external/cifra_AES128-EAX/modes.c:87-94 | the output is the input under the key stream, resumed where the last call stopped |
| `CfCtr.KeyStreamBlock` | software/my_ble/external/cifra_AES128-EAX/modes.c:80-85 | block i of the key stream is the cipher at counter block i |
| `CfCtr.CounterValue` | software/my_ble/external/cifra_AES128-EAX/bitops.h:258-271 | counter block i is the nonce plus i modulo 2^128 |
| `CfCtr.IncrAddsOne` | software/my_ble/external/cifra_AES128-EAX/bitops.h:258-271 | the increment adds one, and the largest value becomes zero |
| `CfCtr.IncrBe` | software/my_ble/external/cifra_AES128-EAX/bitops.h:260-271 | the carry loop performs that increment in place |
| `CfCtr.AnySplit` | software/my_ble/external/cifra_AES128-EAX/modes.c:87-94 | every split of the input into calls gives the same output |
| `CfCtr.TwiceIsIdentity` | software/my_ble/external/cifra_AES128-EAX/modes.c:87-94 | running twice from one state is the identity, even split differently |
| `CfEax.CmacComputeN` | software/my_ble/external/cifra_AES128-EAX/eax.c:21-43 | the MAC of the input behind the block whose big-endian value is the tweak, whatever the stream was used for before |
| `CfEax.EaxEncrypt` | software/my_ble/external/cifra_AES128-EAX/eax.c:45-78 | ciphertext and tag are those of EAX |
| `CfEax.EaxDecrypt` | software/my_ble/external/cifra_AES128-EAX/eax.c:80-115 | returns 0 exactly when the tag is that of nonce, header and ciphertext; only then is the plaintext written |
| `CfEax.EncryptThenDecrypt` | software/my_ble/external/cifra_AES128-EAX/eax.c:45-115 | what was encrypted is accepted and restored, for every cipher, message, header, nonce and tag length 1 to 16 |
| `CfEax.CryptTwice` | software/my_ble/external/cifra_AES128-EAX/eax.c:65-68 | decrypting undoes encrypting |
| `CfEax.MemEq` | software/my_ble/external/cifra_AES128-EAX/handy.h:72-86 | equality of octet strings, decided after all octets |
| `CfGf128.MulWords` | software/my_ble/external/cifra_AES128-EAX/gf128.c:85-113 | the masked loop computes the product of section 6.3 of NIST SP 800-38D |
| `CfGf128.DoubleWords` | software/my_ble/external/cifra_AES128-EAX/gf128.c:38-54 | the borrowing shift computes the doubling of section 6.1 of NIST SP 800-38B, in place too |
| `CfGf128.DoubleLeWords` | software/my_ble/external/cifra_AES128-EAX/gf128.c:57-73 | the same in the bit order of NIST SP 800-38D |
| `CfGf128.AddWords` | software/my_ble/external/cifra_AES128-EAX/gf128.c:76-82 | adds two blocks |
| `CfGf128.ShiftRightBits` | software/my_ble/external/cifra_AES128-EAX/gf128.c:63-66 | the word-wise shift moves every bit by one index |
| `CfGf128.ShiftLeftBits` | software/my_ble/external/cifra_AES128-EAX/gf128.c:44-47 | the word-wise shift moves every bit by one index |
| `CfGf128.MulDistributes` | software/my_ble/external/cifra_AES128-EAX/gf128.c:85-113 | multiplication distributes over addition in both arguments |
| `CfGf128.MulOne` | software/my_ble/external/cifra_AES128-EAX/gf128.c:85-113 | bit 0 alone is the identity |
| `CfGf128.MulCommutes` | software/my_ble/external/cifra_AES128-EAX/gf128.c:85-113 | multiplication is commutative |
| `CfGf128.MulAssociates` | software/my_ble/external/cifra_AES128-EAX/gf128.c:85-113 | multiplication is associative |
| `CfGf128.MulDouble` | software/my_ble/external/cifra_AES128-EAX/gf128.c:108-109 | doubling an argument doubles the product |
| `CfGf128.SelectXor128` | software/my_ble/external/cifra_AES128-EAX/bitops.h:229-241 | adds the block exactly when the bit is set |
| `CfGf128.FromToBytes` | software/my_ble/external/cifra_AES128-EAX/gf128.c:21-35 | reading undoes writing |
| `CfGf128.ToFromBytes` | software/my_ble/external/cifra_AES128-EAX/gf128.c:21-35 | writing undoes reading |
| `CfBits.MaskU32Exact` | software/my_ble/external/cifra_AES128-EAX/bitops.h:156-161 | all ones exactly for equal words |
| `CfBits.MaskU8Exact` | software/my_ble/external/cifra_AES128-EAX/bitops.h:164-169 | all ones exactly for words equal in their low 8 bits |
| `CfBits.SelectU8` | software/my_ble/external/cifra_AES128-EAX/bitops.h:188-199 | the entry at the index, read in a full pass |
| `CfBits.SelectU8x4` | software/my_ble/external/cifra_AES128-EAX/bitops.h:203-226 | four entries in one pass |
| `CfBits.WriteRead32` | software/my_ble/external/cifra_AES128-EAX/bitops.h:52-58 | writing a big-endian word undoes reading it |
| `CfAes.DecryptEncrypt` | software/my_ble/external/cifra_AES128-EAX/cifra_eax_aes.c:240-396 | the inverse cipher undoes the cipher, for every expanded key and block |
| `CfAes.InvRoundsMeetRounds` | software/my_ble/external/cifra_AES128-EAX/cifra_eax_aes.c:360-396 | with r rounds to go the inverse cipher has the state of the cipher after r rounds, up to rows and S-box |
| `CfAes.SBoxInverse` | software/my_ble/external/cifra_AES128-EAX/cifra_eax_aes.c:278-301 | the second table undoes the first |
| `CfAes.SBoxIsAffineInverse` | software/my_ble/external/cifra_AES128-EAX/cifra_eax_aes.c:23-45 | each entry is the affine transformation of the multiplicative inverse in GF(2^8), and of 0 for 0 (section 5.1.1 of FIPS 197) |
| `CfAes.ShiftRowsCells` | software/my_ble/external/cifra_AES128-EAX/cifra_eax_aes.c:189-217 | row r moves left by r places (section 5.1.2 of FIPS 197) |
| `CfAes.ShiftRowsInverse` | software/my_ble/external/cifra_AES128-EAX/cifra_eax_aes.c:311-339 | the inverse undoes it |
| `CfAes.MixColumnBytes` | software/my_ble/external/cifra_AES128-EAX/cifra_eax_aes.c:226-230 | the word-wise column step is the matrix product of section 5.1.3 of FIPS 197 |
| `CfAes.MixColumnInverse` | software/my_ble/external/cifra_AES128-EAX/cifra_eax_aes.c:341-350 | the inverse column step undoes it on every word |
| `CfAes.MulTwoBytes` | software/my_ble/external/cifra_AES128-EAX/cifra_eax_aes.c:219-224 | four octets are doubled in GF(2^8) at once |
| `CfAesBlocks.Schedule` | software/my_ble/external/cifra_AES128-EAX/cifra_eax_aes.c:105-139 | the expanded key of section 5.2 of FIPS 197, with running counters for i / nk and i mod nk |
| `CfAesBlocks.RconInRange` | software/my_ble/external/cifra_AES128-EAX/cifra_eax_aes.c:85-85 | the round constant is always in the table |
| `CfAesBlocks.AesContext.Encrypt` | software/my_ble/external/cifra_AES128-EAX/cifra_eax_aes.c:240-276 | the rounds in place compute the cipher |
| `CfAesBlocks.AesContext.Decrypt` | software/my_ble/external/cifra_AES128-EAX/cifra_eax_aes.c:360-396 | the rounds in place compute the inverse cipher |
| `CfAesBlocks.BlockRoundTrip` | software/my_ble/external/cifra_AES128-EAX/cifra_eax_aes.c:240-396 | decryption undoes encryption on blocks of octets |
| `CfAesBlocks.EncryptAndDecrypt` | software/my_ble/external/cifra_AES128-EAX/cifra_eax_aes.c:141-396 | for every key of 16, 24 or 32 octets: a context set up for it encrypts a block as FIPS 197 does and decrypts the result to the block |
| `CfAesBlocks.AesInit` | software/my_ble/external/cifra_AES128-EAX/cifra_eax_aes.c:141-171 | keys of 16, 24 and 32 octets are expanded, no others |
| `CfAesBlocks.SubWordTable` | software/my_ble/external/cifra_AES128-EAX/cifra_eax_aes.c:88-103 | substitutes the four octets of a word |
| `Fnmatch.FnmatchString` | software/my_ble/external/fnmatch/fnmatch.c:204-207 | 0 only for strings of the pattern and 1 only for others, with or without FNM_PATHNAME and FNM_NOESCAPE; 3 only for patterns with more than 63 runs of stars that recurse, so all others are decided |
| `Fnmatch.BudgetOfPattern` | software/my_ble/external/fnmatch/fnmatch.c:102-207 | some string gets 3 if and only if the pattern has more than 63 runs of stars that recurse, behind nothing that cannot be matched; stars before the end, and before a slash with FNM_PATHNAME, do not count |
| `FnmatchBudget.BudgetExact` | software/my_ble/external/fnmatch/fnmatch.c:114-180 | the same for every budget |
| `FnmatchBudget.TooManyStars` | software/my_ble/external/fnmatch/fnmatch.c:114-115 | as many times a star and an a as the budget has calls: a string that matches is answered with 3 |
| `FnmatchBudget.BudgetedRight` | software/my_ble/external/fnmatch/fnmatch.c:102-202 | 0 and 1 are right for every glob, string and budget, backtracking included |
| `Fnmatch.Fnmatchx` | software/my_ble/external/fnmatch/fnmatch.c:102-202 | the recursion with its budget gives the answer of the glob, and 0 and 1 are right |
| `Fnmatch.TryStar` | software/my_ble/external/fnmatch/fnmatch.c:165-180 | the loop tries the rest of the pattern at every place the star can stretch to, and stops at the first answer |
| `Fnmatch.StarAt` | software/my_ble/external/fnmatch/fnmatch.c:143-180 | a star is answered, or moved to the next slash |
| `Fnmatch.StepChar` | software/my_ble/external/fnmatch/fnmatch.c:127-199 | one pattern character matches one string character, or nothing does |
| `Fnmatch.StepBracket` | software/my_ble/external/fnmatch/fnmatch.c:181-198 | a bracket matches a character of its set, or stands for itself when it holds a slash |
| `Fnmatch.Rangematch` | software/my_ble/external/fnmatch/fnmatch.c:56-99 | the answer for a bracket is that of its parsed ranges, negation included |
| `FnmatchGlob.StarUnfold` | software/my_ble/external/fnmatch/fnmatch.c:165-180 | a star takes nothing, or one character it may take and goes on |
| `FnmatchGlob.StarStar` | software/my_ble/external/fnmatch/fnmatch.c:144-147 | stars in a row are one star |
| `FnmatchGlob.StarEnd` | software/my_ble/external/fnmatch/fnmatch.c:154-161 | a star at the end takes everything but a slash it must not take |
| `FnmatchGlob.StarSlash` | software/my_ble/external/fnmatch/fnmatch.c:161-165 | a star before a slash goes to the first slash |
| `JsonRoundTrip.ValueBack` | software/my_ble/external/cJSON/cJSON.c:387-398 | every printable value, printed either way at any depth and followed by anything but a digit, is parsed back, and the parser stops at what follows |
| `JsonRoundTrip.PrintThenParse` | software/my_ble/external/cJSON/cJSON.c:354-374 | the same for the public functions, with and without the check for the end of the text |
| `JsonRoundTrip.ReprintExact` | software/my_ble/external/cJSON/cJSON.c:168-177 | printing a parsed text gives the text back exactly when it holds no number but zero, as parsing leaves the double at zero and printing looks at it |
| `JsonRoundTrip.NumberBack` | software/my_ble/external/cJSON/cJSON.c:122-135 | a printed number is parsed back as its integer exactly when its digits stay in the range of int, and is undefined otherwise |
| `JsonRoundTrip.EscapedBack` | software/my_ble/external/cJSON/cJSON.c:213-270 | every string without a NUL survives escaping and unescaping |
| `JsonRoundTrip.TextThen` | software/my_ble/external/cJSON/cJSON.c:402-433 | what follows a text does not change it |
| `JsonParser.ParseWithOpts` | software/my_ble/external/cJSON/cJSON.c:354-368 | for every text the pointer parsers give the parse of the whole text, reject it, or come to the point where C leaves the behaviour undefined |
| `JsonParser.ParseValueAt` | software/my_ble/external/cJSON/cJSON.c:387-398 | parses the value at an offset, and reports where it ends |
| `JsonParser.ParseNumberAt` | software/my_ble/external/cJSON/cJSON.c:122-135 | sign, one zero and digits, up to the point where an int overflows |
| `JsonParser.ParseStringAt` | software/my_ble/external/cJSON/cJSON.c:213-270 | for every text: the string that the second loop writes into an output as long as the first counts, cut off exactly where it would write past it or either loop would leave the text |
| `JsonStrings.StringStaysExact` | software/my_ble/external/cJSON/cJSON.c:213-270 | the string parser stays within its text and output, whatever follows the closing quote, if and only if no escape reaches over that quote; and likewise at the end of the text |
| `JsonStrings.StaysCounted` | software/my_ble/external/cJSON/cJSON.c:218-260 | as long as no escape does, the second loop writes no more than the first counted, even when the two are out of step |
| `JsonStrings.ProperStays` | software/my_ble/external/cJSON/cJSON.c:237-248 | escapes with four hexadecimal digits after every u never do |
| `JsonStrings.ShortEscapeOverruns` | software/my_ble/external/cJSON/cJSON.c:238-240 | two digits and a quote, then plain characters: the quote is jumped over, and more than three characters behind it leave the output |
| `JsonStrings.NoDigitsDropped` | software/my_ble/external/cJSON/cJSON.c:198-240 | four characters that are no digits are dropped with their escape |
| `JsonDefined.TameDefined` | software/my_ble/external/cJSON/cJSON.c:354-398 | a text in which every backslash has a character, every u escape four digits and every number at most nine digits never leaves what C defines, whatever else is in it |
| `JsonParser.ParseListAt` | software/my_ble/external/cJSON/cJSON.c:436-462 | the loop chains the elements of an array in order |
| `JsonParser.ParseMembersAt` | software/my_ble/external/cJSON/cJSON.c:545-580 | the loop chains the members of an object in order |
| `JsonMinify.MinifyPrint` | software/my_ble/external/cJSON/cJSON.c:767-782 | minifying printed text gives the text printed without formatting |
| `JsonMinify.LiteralEscaped` | software/my_ble/external/cJSON/cJSON.c:778-778 | the inside of a printed string is kept octet for octet |
| `JsonMinify.Minify` | software/my_ble/external/cJSON/cJSON.c:767-782 | in place, the write cursor stays behind the read cursor and the buffer ends up with the minified text |
| `JsonSize.Pow2gtExact` | software/my_ble/external/cJSON/cJSON.c:138-138 | the bit trick gives the least power of two that is not below its argument |
| `JsonSize.Pow2gtIs` | software/my_ble/external/cJSON/cJSON.c:138-138 | the bit trick gives the power of two that doubling from 1 reaches |
| `JsonBuffer.PrintBuffer.Ensure` | software/my_ble/external/cJSON/cJSON.c:142-157 | makes room and keeps everything printed so far; a buffer that is too short grows to the least power of two that will do |
| `JsonBuffer.PrintBuffer.Update` | software/my_ble/external/cJSON/cJSON.c:159-165 | finds the end of the string at the offset |
| `JsonBuffered.PrintStringPtr` | software/my_ble/external/cJSON/cJSON.c:273-338 | writes the escaped string within the length computed for it |
| `JsonBuffered.PrintArray` | software/my_ble/external/cJSON/cJSON.c:484-499 | writes the text of an array behind what is there |
| `JsonBuffered.PrintObject` | software/my_ble/external/cJSON/cJSON.c:602-639 | writes the text of an object behind what is there |
| `JsonBuffered.PrintValue` | software/my_ble/external/cJSON/cJSON.c:402-433 | writes the text of a value at any depth; every write stays within the ensured length |
| `JsonBuffered.PrintBuffered` | software/my_ble/external/cJSON/cJSON.c:376-383 | for every first size the buffer ends up with the whole text |
| `JsonPrinter.PrintArray` | software/my_ble/external/cJSON/cJSON.c:500-542 | composes the entries in an output of the length added up for them |
| `JsonPrinter.PrintObject` | software/my_ble/external/cJSON/cJSON.c:640-690 | composes the members in an output of the length added up for them |
| `JsonPrinter.PrintersAgree` | software/my_ble/external/cJSON/cJSON.c:373-383 | the buffered and the allocating printer agree on every value |
| `PbFormat.MessageFormat` | software/my_ble/external/nano-pb/pb_encode.c:112-207 | taken apart by the wire format alone, an encoding is one record for each value in row order, its key 8 * tag + w with w = 0 for varints, 1 and 5 for fixed widths and 2 for everything delimited, and its payload carries the value; packed arrays are one record |
| `PbFormat.WireIs` | software/my_ble/external/nano-pb/pb.h:305-310 | the numbers of the wire types |
| `PbFormat.VarintReads` | software/my_ble/external/nano-pb/pb_decode.c:172-228 | a varint is its groups of seven bits up to the first clear top bit, least significant first |
| `PbFormat.WidthsRead` | software/my_ble/external/nano-pb/pb_decode.c:172-228 | at most five bytes are read for 32 bits and ten for 64, and bits above are lost |
| `PbFormat.UnknownSkipped` | software/my_ble/external/nano-pb/pb_decode.c:863-888 | a record of an unknown field is skipped to the end that the wire format gives it |
| `PbFormat.PayloadSkipped` | software/my_ble/external/nano-pb/pb_decode.c:276-286 | each wire type is skipped over exactly its payload |
| `PbWire.VarintShortest` | software/my_ble/external/nano-pb/pb_encode.c:414-434 | no varint is longer than it must be |
| `PbBounds.DecodedFits` | software/my_ble/external/nano-pb/pb_decode.c:840-946 | for every well-formed descriptor tree whose defaults fit, whatever bytes `pb_decode` accepts, every value it stores fits its field |
| `PbBounds.DecodedOverFits` | software/my_ble/external/nano-pb/pb_decode.c:840-946 | the same when a struct is decoded over another in which everything stored fits |
| `PbBounds.StaleOptional` | software/my_ble/external/nano-pb/pb_decode.c:1331-1336 | it does not hold over a struct that is within its bounds only in what is present: a record merges into an absent submessage and makes a stale value present |
| `PbBounds.VarintAccepted` | software/my_ble/external/nano-pb/pb_decode.c:1150-1221 | a varint is accepted exactly as the number of the field's range that it denotes |
| `PbBounds.BlobAccepted` | software/my_ble/external/nano-pb/pb_decode.c:1247-1317 | bytes are accepted exactly if their count, below 2^16, leaves room for itself, and a string exactly if it leaves room for its NUL |
| `PbMeaning.VarintDecodes` | software/my_ble/external/nano-pb/pb_decode.c:1150-1221 | a varint payload decodes to n exactly if n is in the range of the field and the payload denotes it, and is rejected otherwise |
| `PbMeaning.FixedDecodes` | software/my_ble/external/nano-pb/pb_decode.c:1223-1245 | a fixed width payload is little-endian |
| `PbMeaning.OffsetsAreStruct` | software/my_ble/external/nano-pb/pb_common.c:20-76 | with offsets filled in by the descriptor macros the iterator finds every member where the struct has it, unions included |
| `PbMeaning.UnionBehindUnion` | software/my_ble/external/nano-pb/pb_common.c:46-54 | where one union starts right behind another the iterator takes the two for one and is off by the descriptor offset and the size of the row before |
| `PbMeaning.DefaultsUnset` | software/my_ble/external/nano-pb/pb_decode.c:751-834 | setting to defaults leaves every field unset at every depth: absent, empty or without a member, with the default of the descriptor or zero |
| `PbMeaning.WireTypeIgnored` | software/my_ble/external/nano-pb/pb_decode.c:349-420 | the wire type of a record only tells a packed array from an entry |
| `PbMeaning.LastValueStays` | software/my_ble/external/nano-pb/pb_decode.c:349-364 | of two records for one field, the last stays |
| `PbMeaning.UnionReplaced` | software/my_ble/external/nano-pb/pb_decode.c:406-415 | a later member of a union replaces an earlier one |
| `PbMeaning.SubmessagesMerge` | software/my_ble/external/nano-pb/pb_decode.c:1319-1340 | two records for a submessage mean what one record with both bodies means |
| `PbMeaning.FreshStart` | software/my_ble/external/nano-pb/pb_decode.c:1331-1336 | union members and array entries are decoded over defaults, whatever was there |
| `PbMeaning.ZeroEnds` | software/my_ble/external/nano-pb/pb_decode.c:265-269 | a zero key ends a message |
| `PbMeaning.ZeroInside` | software/my_ble/external/nano-pb/pb_decode.c:336-343 | after a submessage that a zero key ends the parent reads on behind the zero, for as many bytes as followed the submessage |
| `PbMeaning.CutRecord` | software/my_ble/external/nano-pb/pb_decode.c:856-910 | a record cut off after its key is rejected, and cut off inside its key it ends the message |
| `PbMeaning.Encodes` | software/my_ble/external/nano-pb/pb_encode.c:371-393 | a struct has an encoding if and only if all that is present is of its field's kind, bytes leave room for their count and arrays are within their storage |
| `RttTerminal.TerminalOutShows` | software/my_l151_motor/RTT/SEGGER_RTT.c:1628-1701 | for a terminal below 16 and plain text: skip mode shows all of it exactly if it and 4 bytes fit, else nothing; trim mode shows the first min(n, free - 4) bytes, or gives -1 with fewer than 4 free; blocking mode shows all; the result is what is shown, and the active terminal stays |
| `RttTerminal.SetTerminalShows` | software/my_l151_motor/RTT/SEGGER_RTT.c:1578-1609 | the switch takes effect exactly for a terminal below 16 in blocking mode or with 2 bytes free |
| `RttTerminal.WriteShows` | software/my_l151_motor/RTT/SEGGER_RTT.c:834-884 | a plain write shows all or nothing, what fits, or all, by the number of its mode |
| `RttTerminal.SwitchIs` | software/my_l151_motor/RTT/SEGGER_RTT.c:463-469 | a switch is FF and the digit of the terminal in upper-case hexadecimal |
| `RttBuffer.AcceptedIs` | software/my_l151_motor/RTT/SEGGER_RTT.c:834-884 | how much a write of each mode takes, by the numbers of the modes |
| `RttBuffer.SkipIs` | software/my_l151_motor/RTT/SEGGER_RTT.c:755-808 | in skip mode the data goes in whole behind what is there exactly when it leaves one place free, and otherwise nothing changes |
| `RttInterleaving.RoundMost` | software/my_l151_motor/RTT/SEGGER_RTT.c:347-354 | a round is as long as data, buffer end and free space allow |
| `CfStandard.CmacIs` | software/my_ble/external/cifra_AES128-EAX/cifra_cmac.c:25-148 | the code of every message is the one of section 6.2 of NIST SP 800-38B, written with numbered blocks and octets |
| `CfCmac.SubkeyBits` | software/my_ble/external/cifra_AES128-EAX/cifra_cmac.c:25-48 | bit by bit, the first subkey is the cipher of the zero block doubled and the second is the first doubled |
| `CfEax.TweakIs` | software/my_ble/external/cifra_AES128-EAX/eax.c:29-31 | the tweak block of t is t as a big-endian number, so different tweaks differ |
| `CfEax.TagIs` | software/my_ble/external/cifra_AES128-EAX/eax.c:45-78 | the tag is the sum of the MACs of 0 and the nonce, 1 and the header and 2 and the ciphertext, each number as a block |
| `CfEax.CryptIs` | software/my_ble/external/cifra_AES128-EAX/eax.c:45-78 | the text is under the key stream whose first counter block is the MAC of 0 and the nonce |
| `CfCtr.StreamOctet` | software/my_ble/external/cifra_AES128-EAX/modes.c:80-94 | octet i of the stream is octet i mod 16 of the cipher at counter i / 16 |
| `CfGf128.DoubleBits` | software/my_ble/external/cifra_AES128-EAX/gf128.c:38-54 | doubling bit by bit, in the order of NIST SP 800-38B |
| `CfGf128.DoubleLeBits` | software/my_ble/external/cifra_AES128-EAX/gf128.c:57-73 | doubling bit by bit, in the order of NIST SP 800-38D |
| `CfGf128.BlockBits` | software/my_ble/external/cifra_AES128-EAX/gf128.c:21-35 | bit i of a block is bit i mod 8 of octet i / 8, the most significant first |
| `CfFips.AesIsCipher` | software/my_ble/external/cifra_AES128-EAX/cifra_eax_aes.c:240-276 | on words, with its key schedule, the code computes the cipher that FIPS 197 defines on octets, for every key of 16, 24 or 32 octets and every block |
| `CfFips.AesInverseIs` | software/my_ble/external/cifra_AES128-EAX/cifra_eax_aes.c:360-396 | decryption undoes the cipher of the standard |
| `CfFips.KeyWordHolds` | software/my_ble/external/cifra_AES128-EAX/cifra_eax_aes.c:105-139 | every word of the schedule is the four octets of section 5.2 of FIPS 197 |
| `CfFips.RoundsAgree` | software/my_ble/external/cifra_AES128-EAX/cifra_eax_aes.c:255-266 | after every round the words hold the state of section 5.1 of FIPS 197 |
| `CfAes.RoundCells` | software/my_ble/external/cifra_AES128-EAX/cifra_eax_aes.c:259-266 | a round cell by cell |
| `CfAes.LastRoundCells` | software/my_ble/external/cifra_AES128-EAX/cifra_eax_aes.c:268-270 | the last round has no column step |
| `CfAesBlocks.KeyWordIs` | software/my_ble/external/cifra_AES128-EAX/cifra_eax_aes.c:105-139 | the schedule word by word, for each key size |
| `CfAesBlocks.RotWordIs` | software/my_ble/external/cifra_AES128-EAX/cifra_eax_aes.c:71-86 | the first octet becomes the last |
| `CfAesBlocks.RoundConstantIs` | software/my_ble/external/cifra_AES128-EAX/cifra_eax_aes.c:66-85 | round constant i is x^(i - 1) in the first octet |
| `CfAesBlocks.StateOctets` | software/my_ble/external/cifra_AES128-EAX/cifra_eax_aes.c:248-253 | a block fills the state column by column |
| `FnmatchText.PatternRead` | software/my_ble/external/fnmatch/fnmatch.c:102-202 | every pattern is read as what is written: characters, quoted ones, ?, * and sets with ranges, quoting and either of the signs ! and ^ |
| `FnmatchText.SetRead` | software/my_ble/external/fnmatch/fnmatch.c:66-99 | a set is negated by ! or ^ alone, may start with its closing bracket, and holds exactly the characters and ranges written |
| `FnmatchText.NoSetRead` | software/my_ble/external/fnmatch/fnmatch.c:76-99 | a bracket with a slash before it closes is a character, and one that never closes matches nothing |
| `FnmatchText.PathByNames` | software/my_ble/external/fnmatch/fnmatch.c:102-202 | with FNM_PATHNAME the name before the first slash matches the pattern before its first slash by the rules without it, and the rest the rest |
| `FnmatchText.PathLastName` | software/my_ble/external/fnmatch/fnmatch.c:102-202 | a pattern without a slash matches only names, by the rules without FNM_PATHNAME |
| `FnmatchText.PathNeedsSlash` | software/my_ble/external/fnmatch/fnmatch.c:102-202 | a pattern with a slash matches no string without one |
| `JsonUnicode.Utf8Back` | software/my_ble/external/cJSON/cJSON.c:250-258 | reading the octets by RFC 3629 gives every code point back, in its shortest form, with nothing left |
| `JsonUnicode.Hex4Back` | software/my_ble/external/cJSON/cJSON.c:198-209 | every 16-bit number is read from its four digits, in either case |
| `JsonUnicode.EscapeIs` | software/my_ble/external/cJSON/cJSON.c:237-259 | an escape stands for the UTF-8 octets of its code point |
| `JsonUnicode.PairIs` | software/my_ble/external/cJSON/cJSON.c:242-248 | two escapes stand for the code point whose UTF-16 pair they are |
| `JsonUnicode.NothingIs` | software/my_ble/external/cJSON/cJSON.c:240-244 | a zero and a half without its other half stand for nothing |
| `JsonUnicode.BrokenPairIs` | software/my_ble/external/cJSON/cJSON.c:245-246 | a first half before an escape that is no second half stands for nothing together with it |
| `JsonGrammar.TreeRead` | software/my_ble/external/cJSON/cJSON.c:387-398 | every text of RFC 8259, with white space wherever it may stand, every kind of escape and integers in the range of int, is parsed as what it means |
| `JsonGrammar.TextRead` | software/my_ble/external/cJSON/cJSON.c:354-368 | the same for the public functions, with white space around the text |
| `JsonGrammar.StringRead` | software/my_ble/external/cJSON/cJSON.c:213-270 | a string is read as the octets of its characters and escapes |
| `JsonSound.ParseSound` | software/my_ble/external/cJSON/cJSON.c:354-368 | nothing else is accepted: what is parsed is a value between gaps, with brackets, braces, commas and colons in their places; gaps may hold any control characters |
| `JsonSound.NumberSound` | software/my_ble/external/cJSON/cJSON.c:122-135 | a number is a sign and digits, either of which may be missing |
| `JsonSound.LaxCharacters` | software/my_ble/external/cJSON/cJSON.c:226-260 | any character but a quote and a backslash stands for itself, and so does any behind a backslash that is none of six letters |
| `JsonSound.OpenString` | software/my_ble/external/cJSON/cJSON.c:224-266 | a string that no quote ends goes to the end of the text |
| `JsonLayout.ArrayLayout` | software/my_ble/external/cJSON/cJSON.c:500-542 | a printed array is its elements between brackets, with commas, and blanks when formatting |
| `JsonLayout.ObjectLayout` | software/my_ble/external/cJSON/cJSON.c:640-690 | a printed object has a line for each member when formatting, indented by its depth; an empty one closes a tab short |
| `JsonLayout.EscapeForms` | software/my_ble/external/cJSON/cJSON.c:314-333 | which characters are escaped, and how |
| `JsonLayout.NumberLayout` | software/my_ble/external/cJSON/cJSON.c:168-177 | a printed number is its decimal places without a zero in front, and 0 for a zero double |
| `JsonChunks.ChunksMinified` | software/my_ble/external/cJSON/cJSON.c:767-782 | of any text made of white space, both kinds of comment, closed string literals and other characters, the white space and comments go and everything else stays |
| `JsonChunks.MinifyKeepsMeaning` | software/my_ble/external/cJSON/cJSON.c:767-782 | minifying any text of RFC 8259 takes exactly its white space away, and the parser reads the same value from both |

## Left out

- nanopb callback, extension and pointer fields, custom stream callbacks, `pb_decode_delimited` and `pb_release`: the stream is a memory buffer and every field is static.
- nanopb destination structs are values that the decoder returns, not memory written in place: what a failed decode leaves behind is not modelled. The words of `fields_seen` are sets of bit positions, and disjoint groups of seven bits are added instead of OR-ed.
- PbDecoder.DecodeNoinit: descriptors with 32 required fields, or with 64 or more, at any depth are outside the model, as C defines no result for them once the fields are there; `PbDecoder.CheckRequired` covers the check itself for every count.
- nanopb sizes are unbounded numbers with the explicit requirement that the lengths an encoder computes stay below 2^32, as a 32-bit size_t has it.
- RttBuffer.Buffer.WriteWithOverwriteNoLock: the ring and the data together fit a 32-bit address space, so the sum of line 679 does not wrap; the endless rounds in a ring of one byte are cut off and reported.
- RTT locks, the assembly variant, J-Link memory ordering, buffer allocation and naming: memory accesses take effect in program order. `char` is unsigned, as on the target.
- RttTerminal.Channel.TerminalOut: the string is modelled by its characters, of a length that leaves room for 4 in 32 bits.
- RttBuffer.Buffer.WriteBlocking: the endless loop on a full ring that no host empties is cut off and reported as waiting.
- cifra contexts other than CBC encryption, CTR, CMAC and EAX: CBC decryption, custom counters, GCM, CCM and OCB. Overlapping input and output buffers of CTR and EAX are not modelled; the field doublings do allow one array for both.
- CfCmac.CmacStream.UpdateFinal: the chaining block is a field holding a value, not an array, and block size is fixed at 16.
- cifra lengths are unbounded numbers; memory cleaning and timing are not modelled.
- fnmatch flags `FNM_PERIOD`, `FNM_LEADING_DIR`, `FNM_CASEFOLD`, characters outside ASCII, null pointers, and patterns that end in a backslash that quotes nothing, where the source reads past the end of the string.
- cJSON numbers that are not integers, printing `INT_MIN`, allocation failure, reference items, the error pointer, and the functions that edit item lists. Items are values, so `prev` and `next` pointers and freeing are not modelled.
- JsonParser.ParseStringAt: where the source would read past its text, write past its output or overflow an int, the run is cut off and reported; what a compiled program then does is not modelled.
- JsonMinify.Minify: string literals and comments that are not closed are outside the model, as the source then reads past the text.
- JsonBuffer.PrintBuffer.Ensure: sizes above 2^30 are outside the model, where the power of two no longer fits an int.
- JsonPrinter.PrintArray: entries are strings instead of separately allocated memory; the output is an array of the computed length.
- RTT printf, checksums, drivers, pin maps, fonts and test mocks of the repository.
