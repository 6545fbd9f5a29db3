# Sigul wire formats: the field codec and the double-TLS chunk buffers

This project models, in Dafny, the two byte-level framing layers of the Sigul
signing server and proves properties of them.

* **The field codec** of `src/utils.py`.
  * `u8_pack`/`u8_unpack` and `u32_pack`/`u32_unpack` are the big-endian `!B`/`!I` struct wrappers.
  * `format_fields` writes a count byte, then for each field: key length, key, value length, value.
    An int value becomes its `u32` encoding, a bool becomes `u32(1)`/`u32(0)`, a str is kept as it is, and anything else raises.
    A bool is an int in Python, so the int branch takes it first, but it yields the same bytes.
  * `read_fields` parses that layout back through an exact-read callback.
    It raises `InvalidFieldsError` on a zero key length or an unprintable key.
  * `string_is_safe` is the printable check applied to keys.
  * `yyyy_mm_dd_is_valid` is the date validator.
* **The chunk multiplexing** of `src/double_tls.py`.
  * Two byte streams share one connection, cut into chunks.
  * Each chunk has a 4-byte big-endian header: bit 31 marks an inner-stream chunk, the other bits give the payload length, and length 0 is that stream's EOF.
  * `_CombiningBuffer` writes the chunks.
  * `_SplittingBuffer` sorts them back into two buffers, byte by byte.
  * `OuterBuffer` reads outer data and sets aside the inner chunks it meets.
  * `_InnerBridgingBuffer` forwards inner chunks unchanged and keeps outer payload aside.

How the code is modelled:

* The pure conversions and predicates are Dafny functions.
  * Modules: `Wire`, the value conversion in `FieldCodec`, `Dates`.
* The loops of `format_fields`, `read_fields` and `string_is_safe` are methods with loops.
  * Each is proved equal to a reference function: `Format`, `ParseFields` with `ToMap`, `IsSafe`.
  * The laws are proved about those functions, in `FieldLaws`.
* Each buffer class is a Dafny `class` with the Python fields.
  * Byte strings are `seq` fields; counters and flags are fields too.
  * Ghost fields record what was received, what left the buffer and what was sent.
* Each buffer method updates the class fields in place and keeps a `Valid()` invariant.
  * The invariant ties the fields to a reference reading of everything received: `SplitBytes`, `BridgeBytes`, or the chunk sequence `emitted` with `EncodeAll`.
  * The laws of the reference readings are lemmas.
  * Examples: receiving in pieces equals receiving at once; the chunks of `EncodeAll(cs)` are read back as `cs`.
* The sockets are replaced by inputs.
  * A poll result is a `Flags` value (read, write, error-or-hang-up).
  * A `recv` result is a `Recv` value: bytes, reset, would-block or failure.
  * A `send` result is the number of bytes sent.
  * `OuterBuffer` uses a blocking `Socket` object holding the incoming and outgoing bytes.
* One pass of the forwarding loop is modelled as the `Round` method of each forwarding buffer. The methods run in the source's order: `_handle_errors`, `_send`, `_receive`, `_check_shutdown`.

Where the code and its written description disagree, the model follows the code:

* `string_is_safe` admits 0x20 through 0x7F inclusive, so DEL (0x7F) is accepted (`src/utils.py:350`). The description says printable ASCII ends at 0x7E.
* `format_fields` does not reject empty or unprintable keys; only `read_fields` does.
* The date pattern's `$` also matches before one final newline. The day is read with `int()`, which ignores that newline. So `"2021-01-31\n"` is accepted, and the model says so (`Dates.AcceptedWithNewlineExample`).

## Model

| member | source | states |
|---|---|---|
| `Wire.Be32` | src/utils.py:142-143 | the 4-byte big-endian encoding of a value below 2^32 denotes that value |
| `Wire.U8Pack` | src/utils.py:133-134 | succeeds exactly for 0..255, with one byte equal to the value; otherwise `struct.error` (out of range) |
| `Wire.U8Unpack` | src/utils.py:136-137 | succeeds exactly on a 1-byte string, giving that byte; otherwise `struct.error` (wrong length) |
| `Wire.U32Pack` | src/utils.py:142-143 | succeeds exactly for 0..2^32-1, with 4 bytes whose big-endian value is the value; otherwise `struct.error` |
| `Wire.U32Unpack` | src/utils.py:145-146 | succeeds exactly on a 4-byte string, giving its big-endian value; otherwise `struct.error` |
| `Wire.U8PackUnpack` | src/utils.py:133-137 | `u8_unpack(u8_pack(v)) == v` for every `v` in 0..255 |
| `Wire.U8UnpackPack` | src/utils.py:133-137 | `u8_pack(u8_unpack(b)) == b` for every 1-byte `b` |
| `Wire.U32PackUnpack` | src/utils.py:142-146 | `u32_unpack(u32_pack(v)) == v` for every `v` below 2^32 |
| `Wire.U32UnpackPack` | src/utils.py:142-146 | `u32_pack(u32_unpack(b)) == b` for every 4-byte `b`: the 4-byte encoding is a bijection |
| `Wire.Be32Injective` | src/utils.py:145-146 | two 4-byte strings with the same big-endian value are equal |
| `Wire.Be32TopBit` | src/double_tls.py:523 | bit 31 of a header value (`v & _chunk_inner_mask`) is the top bit of its first byte |
| `FieldCodec.StringIsSafe` | src/utils.py:346-352 | the loop with early return yields true iff every byte lies in 0x20..0x7F |
| `FieldCodec.ConvertValue` | src/utils.py:331-339 | an int converts iff it is in 0..2^32-1, to bytes that unpack to it; a bool converts to `u32(1)`/`u32(0)`; a str passes unchanged; any other value raises |
| `FieldCodec.ConvertField` | src/utils.py:327-343 | one field converts iff its key has at most 255 bytes and its value is convertible, and then the value has at most 255 bytes |
| `FieldCodec.ConvertFields` | src/utils.py:326-343 | the fields convert iff each does; the result has one converted field per field, in order |
| `FieldCodec.EncodeEntry` | src/utils.py:329-343 | an entry is `2 + |key| + |value|` bytes long |
| `FieldCodec.ConvertFieldsExtend` | src/utils.py:326-343 | converting a prefix and one more field is converting the longer prefix |
| `FieldCodec.ConvertFieldsErrorPersists` | src/utils.py:326-343 | once a prefix fails, the whole call raises that same error |
| `FieldCodec.EncodeEntriesSnoc` | src/utils.py:329-343 | appending a field appends its entry to the data |
| `FieldCodec.FormatStep` | src/utils.py:326-343 | one loop iteration either raises what the whole call raises or extends the data and the converted prefix by that field |
| `FieldCodec.AppendField` | src/utils.py:327-343 | the loop body appends key length, key, value length and converted value to `data`, or raises the field's conversion error |
| `FieldCodec.FormatFields` | src/utils.py:317-344 | the method (count check, packing loop) returns or raises exactly what the reference `Format` gives |
| `FieldCodec.ReadExact` | src/utils.py:289-296 | `read_fn(n)` yields exactly the next `n` bytes, or fails with a short read when fewer remain |
| `FieldCodec.ParseEntry` | src/utils.py:302-314 | a field read at `pos` ends strictly after `pos` and within the input |
| `FieldCodec.ParseEntries` | src/utils.py:301-314 | reading `k` fields yields exactly `k` fields and a position within the input |
| `FieldCodec.ParseEntriesErrorPersists` | src/utils.py:301-315 | once reading the first `k` fields fails, reading more fails with the same error |
| `FieldCodec.ParseStep` | src/utils.py:301-315 | one loop iteration either fails as the whole call does or extends the fields read by one |
| `FieldCodec.ReadEntry` | src/utils.py:302-313 | the loop body (key length, zero check, key, printable check, value length, value) equals the reference `ParseEntry` |
| `FieldCodec.ReadFields` | src/utils.py:289-315 | `read_fields` returns the dictionary of the fields `ParseFields` reads, assigned in order, and the bytes consumed, or fails as `ParseFields` does |
| `FieldLaws.AllValidIff` | src/utils.py:302-313 | the recursive check of accepted fields agrees with checking every field |
| `FieldLaws.FormatSucceedsIff` | src/utils.py:323-341 | `format_fields` succeeds iff there are at most 255 fields, every key has at most 255 bytes and every value converts to at most 255 bytes |
| `FieldLaws.FormatFirstError` | src/utils.py:326-341 | with at most 255 fields, the error raised is that of the first field that cannot be encoded |
| `FieldLaws.FormatTooManyFields` | src/utils.py:323-324 | more than 255 fields raise "Too many fields" whatever they contain |
| `FieldLaws.EncodeEntriesSize` | src/utils.py:329-343 | the entries occupy the sum of `2 + |key| + |value|` bytes |
| `FieldLaws.FormatLayout` | src/utils.py:317-344 | the output is the count byte and then each field's key length, key, value length and converted value, in order; its length is `1 + Σ(2 + |key| + |value|)` |
| `FieldLaws.ValueEncodings` | src/utils.py:331-337 | an int is sent as its 4-byte big-endian form; `True`/`False` as the ints 1/0, i.e. `00 00 00 01` and `00 00 00 00` |
| `FieldLaws.SliceAt` | src/utils.py:296-313 | where an entry sits in the input, each of its pieces sits at its offset |
| `FieldLaws.EntryPieces` | src/utils.py:329-343 | an entry is its key length, key, value length and value, at fixed offsets |
| `FieldLaws.ParseEntryOf` | src/utils.py:302-314 | `read_fields` reads back one accepted entry from wherever it sits, consuming exactly it |
| `FieldLaws.SplitAt` | src/utils.py:301-314 | where the entries before a field and the field sit together, each sits in turn |
| `FieldLaws.ParseEntriesAddOne` | src/utils.py:301-314 | a field read after the first `k` fields is the `k + 1`-th field read |
| `FieldLaws.ParseEntriesExtend` | src/utils.py:301-314 | after `k` fields that end where an accepted entry sits, reading `k + 1` fields adds that entry |
| `FieldLaws.ParseEntriesOf` | src/utils.py:301-314 | `read_fields` reads a run of accepted entries back, in order, consuming exactly them |
| `FieldLaws.ParseEntriesOfSnoc` | src/utils.py:301-314 | the same for a run given as its entries before the last one and the last one |
| `FieldLaws.LastSplit` | src/utils.py:301-314 | a non-empty list is its front followed by its last element |
| `FieldLaws.WireRoundTrip` | src/utils.py:289-344 | `read_fields` over the layout of well-formed fields followed by anything returns those fields in order and consumes exactly the layout |
| `FieldLaws.FormatThenRead` | src/utils.py:289-344 | when `format_fields(m)` succeeds and every key is non-empty and printable, `read_fields` over its bytes (plus anything after) consumes exactly those bytes and rebuilds `m`, with int/bool values in `u32` form |
| `FieldLaws.KeyedListToMap` | src/utils.py:300-314 | over distinct keys, the dictionary has exactly those keys, each with its own value |
| `FieldLaws.ParseEntrySound` | src/utils.py:302-314 | what `read_fields` accepts as one field has a non-empty printable key and is consumed exactly as its entry |
| `FieldLaws.JoinAt` | src/utils.py:301-314 | two adjacent pieces of the input make one |
| `FieldLaws.ParseEntriesSound` | src/utils.py:301-314 | what is accepted from a position on is a run of accepted entries, consumed exactly |
| `FieldLaws.ParseFieldsSound` | src/utils.py:289-315 | whatever `read_fields` accepts is a well-formed layout: as many fields as the count byte, non-empty printable keys, exactly their bytes consumed |
| `FieldLaws.ReadSucceedsIff` | src/utils.py:289-315 | `read_fields` succeeds iff the input begins with the layout of some well-formed field list |
| `FieldLaws.ParsePrefix` | src/utils.py:296-314 | after the count byte, any run of accepted fields is read back whatever follows |
| `FieldLaws.ZeroKeyLengthRejected` | src/utils.py:302-305 | a zero key length after any number of good fields, within the announced count, raises `InvalidFieldsError` (key length) |
| `FieldLaws.UnprintableKeyRejected` | src/utils.py:306-308 | a key with a byte outside 0x20..0x7F after any number of good fields raises `InvalidFieldsError` (unprintable key) |
| `FieldLaws.ParseFieldsFailsAt` | src/utils.py:301-315 | a failure among the announced fields is the failure of the whole read: nothing is returned |
| `FieldLaws.KeyAfterFields` | src/utils.py:301-307 | where the key after the good fields sits in the message |
| `FieldLaws.UnprintableEntry` | src/utils.py:306-308 | an unprintable key right after `k` good fields makes field `k + 1` fail |
| `FieldLaws.ParseEntriesFailNext` | src/utils.py:301-314 | when the field after the first `k` fails, reading `k + 1` fields fails with its error |
| `FieldLaws.ParseEntryZeroKey` | src/utils.py:302-305 | a field announcing a zero-length key is rejected |
| `FieldLaws.ParseEntryUnprintable` | src/utils.py:306-308 | a field whose key is present but unprintable is rejected |
| `FieldLaws.ToMapKeys` | src/utils.py:300-314 | the dictionary's keys are exactly the keys read |
| `FieldLaws.ToMapLastWins` | src/utils.py:314 | for a field no later field overwrites, the dictionary holds that field's value |
| `FieldLaws.DuplicateKeyLastWins` | src/utils.py:314 | two fields with the same key are accepted and the dictionary keeps the second value |
| `FieldLaws.SafeBoundaries` | src/utils.py:346-352 | a one-byte string is safe iff its byte is in 0x20..0x7F; the empty string, `" "` and DEL are safe |
| `Dates.DigitsValue` | src/utils.py:360 | the number an `n`-digit string denotes is below 10^n |
| `Dates.DaysInMonth` | src/utils.py:360 | every month has 28 to 31 days, and February has 29 exactly in leap years |
| `Dates.Digits` | src/utils.py:354 | a number written in `w` digits is `w` ASCII digits |
| `Dates.FormatDate` | src/utils.py:354 | a written date is 10 characters long |
| `Dates.DigitsRoundTrip` | src/utils.py:354-360 | writing a number in enough digits and reading it back gives the number |
| `Dates.DigitsOfValue` | src/utils.py:354-360 | reading a digit string and writing the number back in as many digits gives the string |
| `Dates.FormatDateParts` | src/utils.py:354-360 | the fields of a written date sit where the validator reads them |
| `Dates.FormattedDateIsValid` | src/utils.py:354-363 | every calendar date written as yyyy-mm-dd is accepted, also with one trailing newline |
| `Dates.ValidIsFormatted` | src/utils.py:354-363 | every accepted string is the written form of a calendar date, possibly followed by one newline |
| `Dates.ValidIff` | src/utils.py:354-363 | `yyyy_mm_dd_is_valid(s)` iff `s` is the written form of a calendar date (year 1..9999, month 1..12, day within the month), optionally with one trailing newline |
| `Dates.FormatDateValidIff` | src/utils.py:355-363 | a written date is accepted iff its numbers form a calendar date |
| `Dates.LeapDay` | src/utils.py:360 | February 29 is accepted exactly in leap years |
| `Dates.OutOfCalendarRefused` | src/utils.py:359-362 | a string of the right shape whose month is outside 1..12, or whose day is outside its month, is refused |
| `Dates.AcceptedExample` | src/utils.py:355-363 | `2021-01-31` is accepted |
| `Dates.AcceptedWithNewlineExample` | src/utils.py:354-363 | `2021-01-31\n` is accepted, by the `$` quirk |
| `Dates.AcceptedLeapDayExample` | src/utils.py:355-363 | `2020-02-29` is accepted |
| `Dates.RefusedDayExample` | src/utils.py:359-362 | `2021-02-30` is refused |
| `Dates.RefusedMonthExample` | src/utils.py:359-362 | `2021-13-01` is refused |
| `Dates.RefusedYearExample` | src/utils.py:359-362 | `0000-01-01` is refused (year 0) |
| `Dates.RefusedShapeExamples` | src/utils.py:354-358 | `2021-1-31` and `2021-01-31 ` fail the shape test |
| `Chunks.HeaderValue` | src/double_tls.py:313 | an inner header is `2^31 | len`, an outer one `len`; bit 31 is set iff the chunk is inner and the rest is the length |
| `Chunks.Encode` | src/double_tls.py:313-314 | a chunk is its 4-byte header followed by its data |
| `Chunks.InnerChunks` | src/double_tls.py:1066-1068 | the inner chunks of a chunk sequence are all inner and no more than the sequence |
| `Chunks.EofOfAppend` | src/double_tls.py:315-317 | a stream's EOF is among `cs + [c]` iff it is among `cs` or is `c` |
| `Chunks.EndsOnceAppend` | src/double_tls.py:247-265 | a chunk of a stream that has not ended may follow without breaking "no chunk after EOF" |
| `Chunks.InnerEof` | src/double_tls.py:253 | the inner EOF marker `u32(2^31)` is the encoding of an empty inner chunk |
| `Chunks.OuterEof` | src/double_tls.py:265 | the outer EOF marker `u32(0)` is the encoding of an empty outer chunk |
| `Chunks.AllFitAppend` | src/double_tls.py:311-314 | two sequences of encodable chunks join into one |
| `Chunks.EncodeAllAppend` | src/double_tls.py:311-318 | the encoding of two chunk sequences is the concatenation of their encodings |
| `Chunks.AppendChunk` | src/double_tls.py:311-318 | appending a chunk extends the encoding, the payload of its stream and its stream's EOF by that chunk |
| `Chunks.InnerChunksAllFit` | src/double_tls.py:1066-1068 | the inner chunks of encodable chunks are encodable |
| `Chunks.HeaderOfEncode` | src/double_tls.py:520-529 | reading a chunk's header gives back its stream (bit 31) and its length (the other bits) |
| `Chunks.HeaderDone` | src/double_tls.py:519-532 | a complete header leaves the reader idle and starts exactly one chunk, inner or outer; an inner header is kept with its bytes, to be forwarded |
| `Chunks.FrameByte` | src/double_tls.py:498-532 | one byte read keeps at most one chunk in progress and the header below 4 bytes |
| `Chunks.HeaderDoneOfChunk` | src/double_tls.py:519-532 | the header of an encoded chunk is read as that chunk's stream and length |
| `Poll.Received` | src/double_tls.py:298-303 | a reset connection reads as EOF (no bytes) |
| `Splitting.SplitByte` | src/double_tls.py:498-532 | one byte handled keeps the reader's state valid |
| `Splitting.SplitBytes` | src/double_tls.py:498-532 | the reference reading of a byte string keeps the reader's state valid: header below 4 bytes, at most one chunk in progress |
| `Splitting.SplitEventFramer` | src/double_tls.py:498-532 | what a byte does to the buffers does not depend on the header bytes collected before it |
| `Splitting.SplitBytesAppend` | src/double_tls.py:473-532 | receiving the stream in two pieces has the same effect as receiving it at once |
| `Splitting.SplitPrefix` | src/double_tls.py:473-532 | the reading of a byte string is the reading of any prefix followed by the rest |
| `Splitting.SplitInnerRun` | src/double_tls.py:499-504 | payload bytes of an inner chunk in progress go, in order, to the inner buffer |
| `Splitting.SplitOuterRun` | src/double_tls.py:505-510 | payload bytes of an outer chunk in progress go, in order, to the outer buffer |
| `Splitting.SplitHeaderRun` | src/double_tls.py:511-532 | header bytes are collected, and the fourth one starts the next chunk |
| `Splitting.SplitChunk` | src/double_tls.py:498-532 | a whole chunk read from an idle reader puts its payload in its stream's buffer, and an empty one sets that stream's got-EOF flag |
| `Splitting.SplitChunks` | src/double_tls.py:498-532 | reading the encoding of a chunk sequence sorts each chunk's payload to its stream, in order |
| `Splitting.SplitChunksSnoc` | src/double_tls.py:498-532 | the inductive step of the same, for a sequence given as its front and last chunk |
| `Splitting.SplitBytesGrowth` | src/double_tls.py:498-510 | the buffers only grow, each by at most one byte per byte read |
| `Splitting.SplitBytesShift` | src/double_tls.py:498-532 | the bytes sorted earlier do not influence what later bytes do |
| `Splitting.LengthAfterSend` | src/double_tls.py:440-471 | errors and sending never grow a buffer |
| `Splitting.SplittingBuffer.constructor` | src/double_tls.py:389-405 | a new buffer is idle, empty, with the source open and nothing shut down |
| `Splitting.SplittingBuffer.PreparePoll` | src/double_tls.py:416-433 | whenever `_active`, something is watched; the source is watched only while open and both buffers are below 4096 bytes |
| `Splitting.SplittingBuffer.InactiveDrained` | src/double_tls.py:407-414 | once inactive, every byte sorted to either stream has left its buffer |
| `Splitting.SplittingBuffer.HandleErrors` | src/double_tls.py:435-455 | a problem without read closes the source; a destination with a problem loses its buffer, marked dropped when there was data; nothing else changes |
| `Splitting.SplittingBuffer.DropInner` | src/double_tls.py:440-447 | an inner destination with a problem loses the inner buffer |
| `Splitting.SplittingBuffer.DropOuter` | src/double_tls.py:448-455 | an outer destination with a problem loses the outer buffer |
| `Splitting.SplittingBuffer.Send` | src/double_tls.py:457-471 | each writable destination takes exactly the first bytes it sent from its buffer; nothing else changes |
| `Splitting.SplittingBuffer.SendInner` | src/double_tls.py:458-464 | the inner destination takes exactly the first `sent` bytes |
| `Splitting.SplittingBuffer.SendOuter` | src/double_tls.py:465-471 | the outer destination takes exactly the first `sent` bytes |
| `Splitting.SplittingBuffer.Receive` | src/double_tls.py:473-532 | nothing without PR_POLL_READ; "No data left" when a buffer is full; a failing `recv` raises; otherwise the bytes read, at most the room left, are sorted exactly as `SplitBytes` sorts them, and an empty read closes the source |
| `Splitting.SplittingBuffer.ReceivePolled` | src/double_tls.py:473-493 | when the source is reported readable only while both buffers have room, as `_prepare_poll` asks, `_receive` raises only for a failing `recv` and keeps the invariant |
| `Splitting.SplittingBuffer.Absorb` | src/double_tls.py:495-532 | the bytes read are sorted as the reference reading does and recorded as received; an empty read closes the source |
| `Splitting.SplittingBuffer.Split` | src/double_tls.py:498-532 | the `while len(data) > 0` loop leaves the buffer in the state `SplitBytes` gives |
| `Splitting.SplittingBuffer.TakeInner` | src/double_tls.py:499-504 | a run of inner payload is stored, and the rest of the data is read as the reference reading continues |
| `Splitting.SplittingBuffer.TakeOuter` | src/double_tls.py:505-510 | a run of outer payload is stored, likewise |
| `Splitting.SplittingBuffer.TakeHeader` | src/double_tls.py:511-532 | header bytes are collected up to 4, then the next chunk starts, likewise |
| `Splitting.SplittingBuffer.StartChunk` | src/double_tls.py:519-532 | a complete header sets the inner or outer byte count, and a zero length sets that stream's got-EOF flag |
| `Splitting.SplittingBuffer.ReceivedKeepsValid` | src/double_tls.py:494-532 | the buffers keep matching the reference reading of everything received |
| `Splitting.SplittingBuffer.CheckShutdown` | src/double_tls.py:534-563 | each destination is shut down exactly when it was not yet, its buffer is empty and the source closed or its EOF arrived; by then all its payload has left the buffer |
| `Splitting.SplittingBuffer.Transmit` | src/double_tls.py:186-194 | `_handle_errors` then `_send` leave each buffer at the length `LengthAfterSend` gives |
| `Splitting.SplittingBuffer.Round` | src/double_tls.py:173-200 | one pass keeps the invariant, and when poll reports what `_prepare_poll` asked for, only a failing `recv` raises |
| `Combining.ReceiveInnerTake` | src/double_tls.py:286-318 | takes a chunk iff the source is readable, a header fits and `recv` returned bytes or a reset; the chunk is inner and holds the bytes read; it raises on a full buffer or a failing `recv` |
| `Combining.ReceiveOuterTake` | src/double_tls.py:320-352 | the same for the outer source, with an outer chunk |
| `Combining.Grown` | src/double_tls.py:313-314 | a receive never shrinks the buffer |
| `Combining.ReceiveAsWritten` | src/double_tls.py:354-368 | the first source is read whatever the length; the second only when the first raised nothing and a header still fits |
| `Combining.ReceiveGuarded` | src/double_tls.py:354-368 | the corrected `_receive`: as written when a header fits, nothing at all otherwise |
| `Combining.TakenChunks` | src/double_tls.py:311-318 | one receive appends at most one chunk |
| `Combining.AsWrittenRaisesAfterEof` | src/double_tls.py:244-265 | as written, when an EOF appended by `_handle_errors` leaves no room for a header, reading the first source raises |
| `Combining.HangUpOverflowExample` | src/double_tls.py:226-265 | 4088 bytes buffered at poll time, then an outer hang-up: `_receive` raises "Inner buffer length exceeded" |
| `Combining.GuardedRaisesOnlyOnFailure` | src/double_tls.py:354-368 | with the guard, `_receive` raises only when a `recv` fails |
| `Combining.ReceiptChunksShape` | src/double_tls.py:354-368 | one `_receive` appends at most one chunk per stream, only from a readable source |
| `Combining.ClosedCount` | src/double_tls.py:251-253 | counts the closed sources, at most two: each may put one EOF marker beyond the length limit |
| `Combining.ConsistentAppendInner` | src/double_tls.py:311-318 | appending an inner chunk of what was read keeps the buffer consistent with the chunks and the inner payload; an empty one closes the inner source |
| `Combining.ConsistentAppendOuter` | src/double_tls.py:345-352 | the same for the outer source |
| `Combining.ConsistentDrain` | src/double_tls.py:269-284 | removing the first bytes of the buffer keeps it consistent |
| `Combining.CombiningBuffer.constructor` | src/double_tls.py:206-216 | a new buffer is empty, both sources open, inner first, nothing dropped or shut down |
| `Combining.CombiningBuffer.PreparePoll` | src/double_tls.py:226-242 | whenever `_active`, something is watched; a source is watched only while open and a header fits |
| `Combining.CombiningBuffer.InactiveDrained` | src/double_tls.py:218-224 | once inactive, both EOFs were appended and every byte written has left the buffer |
| `Combining.CombiningBuffer.Delivered` | src/double_tls.py:218-224 | once inactive with nothing dropped, a splitting buffer reading what was sent recovers both streams exactly, with both EOFs |
| `Combining.CombiningBuffer.BufferWithEofs` | src/double_tls.py:244-265 | `_handle_errors` appends at most two EOF markers and keeps what was buffered |
| `Combining.CombiningBuffer.LengthBeforeReceive` | src/double_tls.py:244-284 | errors and sending leave at most the buffer with the EOFs |
| `Combining.CombiningBuffer.HandleErrors` | src/double_tls.py:244-275 | a problem without read on an open source appends its EOF once and closes it; a destination problem drops the buffer, marked when there was data |
| `Combining.CombiningBuffer.CloseSources` | src/double_tls.py:245-265 | both source checks: the buffer gains exactly the EOFs of the sources closed |
| `Combining.CombiningBuffer.CloseInner` | src/double_tls.py:245-256 | the inner EOF is appended exactly when the open inner source reports a problem without read, and only once |
| `Combining.CombiningBuffer.CloseOuter` | src/double_tls.py:257-268 | the same for the outer source |
| `Combining.CombiningBuffer.Drop` | src/double_tls.py:269-275 | a destination problem empties the buffer; dropped is set when it held data |
| `Combining.CombiningBuffer.Send` | src/double_tls.py:277-284 | a writable destination takes exactly the first `sent` bytes; nothing else changes |
| `Combining.CombiningBuffer.ReceiveInner` | src/double_tls.py:286-318 | `__receive_inner` does what `ReceiveInnerTake` says: status, "something received", and the chunk appended |
| `Combining.CombiningBuffer.AppendInner` | src/double_tls.py:311-318 | the bytes read become one inner chunk `u32(2^31 | len) + data`; an empty one closes the inner source |
| `Combining.CombiningBuffer.ReceiveOuter` | src/double_tls.py:320-352 | `__receive_outer` does what `ReceiveOuterTake` says |
| `Combining.CombiningBuffer.AppendOuter` | src/double_tls.py:345-352 | the bytes read become one outer chunk `u32(len) + data`; an empty one closes the outer source |
| `Combining.CombiningBuffer.Receive` | src/double_tls.py:354-368 | `_receive` (with the guard) appends the chunks of the guarded receipt, raises what it raises, and flips the order exactly when something was received and nothing raised |
| `Combining.CombiningBuffer.Alternate` | src/double_tls.py:367-368 | the order flag is negated exactly when asked |
| `Combining.CombiningBuffer.ReceiveInnerThenOuter` | src/double_tls.py:359-362 | inner first, then outer if a header still fits: the chunks, the status and "something received" of the receipt |
| `Combining.CombiningBuffer.ReceiveOuterThenInner` | src/double_tls.py:363-366 | outer first, then inner, likewise |
| `Combining.CombiningBuffer.CheckShutdown` | src/double_tls.py:370-383 | the destination is shut down exactly once, when inactive; then, unless data was dropped, everything written was sent |
| `Combining.CombiningBuffer.ReceiveInOrder` | src/double_tls.py:354-368 | with the guarded `_receive`: when poll reports only open sources readable, no chunk follows its stream's EOF and only a failing `recv` raises (as written, the first receive can also raise; see Findings) |
| `Combining.CombiningBuffer.Transmit` | src/double_tls.py:186-194 | `_handle_errors` then `_send` leave the length `LengthBeforeReceive` gives and keep the chunk order |
| `Combining.CombiningBuffer.Round` | src/double_tls.py:173-200 | one pass with the guarded `_receive` keeps the invariant and the chunk order; only a failing `recv` raises (as written, the first receive can also raise; see Findings) |
| `Combining.CombiningBuffer.ReceiptKeepsOrder` | src/double_tls.py:354-368 | the chunks of a receipt may follow when their sources have not ended |
| `Bridging.BridgeByte` | src/double_tls.py:1042-1076 | one byte handled keeps the reader's state valid |
| `Bridging.BridgeBytes` | src/double_tls.py:1042-1076 | the reference reading keeps the header below 4 bytes and at most one chunk in progress |
| `Bridging.BridgeEventFramer` | src/double_tls.py:1042-1076 | what a byte does does not depend on the header bytes collected before it |
| `Bridging.BridgeBytesAppend` | src/double_tls.py:1020-1076 | receiving the stream in two pieces has the same effect as receiving it at once |
| `Bridging.BridgePrefix` | src/double_tls.py:1020-1076 | the reading of a byte string is the reading of any prefix followed by the rest |
| `Bridging.BridgeInnerRun` | src/double_tls.py:1043-1048 | inner payload bytes are forwarded, in order |
| `Bridging.BridgeOuterRun` | src/double_tls.py:1049-1054 | outer payload bytes are kept aside, in order |
| `Bridging.BridgeHeaderRun` | src/double_tls.py:1055-1076 | header bytes are collected; the fourth one starts the next chunk |
| `Bridging.BridgeHeaderOfChunk` | src/double_tls.py:1063-1076 | an inner header is forwarded; an inner EOF header closes the source and marks the destination shut down; an outer header is dropped |
| `Bridging.BridgeChunk` | src/double_tls.py:1042-1076 | a whole chunk read from an idle reader has its chunk effect and leaves the reader idle |
| `Bridging.BridgeInnerPayload` | src/double_tls.py:1043-1068 | an inner chunk is forwarded as header then payload |
| `Bridging.BridgeChunks` | src/double_tls.py:1042-1076 | reading the encoding of a chunk sequence has the effects of its chunks, in order |
| `Bridging.AfterBridgingBuffer` | src/double_tls.py:1043-1068 | the bytes forwarded are exactly the inner chunks, in order, headers included |
| `Bridging.AfterBridgingOuter` | src/double_tls.py:1049-1054 | the payload kept aside is exactly the outer payload, in order, without headers |
| `Bridging.AfterBridgingFlags` | src/double_tls.py:1069-1073 | the source closes and the destination is marked shut down exactly when an inner EOF was read |
| `Chunks.InnerChunksStep` | src/double_tls.py:1066-1068 | the inner chunks of a sequence are those of its front plus its last chunk when inner |
| `Bridging.InnerChunksPayload` | src/double_tls.py:1042-1068 | the inner chunks carry all of the inner payload and none of the outer |
| `Bridging.InnerChunksEof` | src/double_tls.py:1066-1073 | the inner chunks carry the inner EOF iff there was one, and never an outer EOF |
| `Bridging.ForwardedInnerOnly` | src/double_tls.py:1042-1076 | what is forwarded, read by a splitting buffer, yields the inner payload and no outer data |
| `Bridging.ThenAssociative` | src/double_tls.py:1042-1076 | composing effects of successive pieces is associative |
| `Bridging.BridgeEventShape` | src/double_tls.py:1042-1076 | a byte adds to any state what it adds to a blank state |
| `Bridging.BridgeByteShape` | src/double_tls.py:1042-1076 | the same for a byte read |
| `Bridging.BridgeBytesShape` | src/double_tls.py:1042-1076 | the same for any byte string |
| `Bridging.BridgeBytesGrowth` | src/double_tls.py:1042-1076 | the buffers only grow, together by at most one byte per byte read |
| `Bridging.InnerBridgingBuffer.constructor` | src/double_tls.py:958-969 | a new buffer starts forwarding the inner packets it is given, source open, nothing kept aside |
| `Bridging.InnerBridgingBuffer.PendingOuterData` | src/double_tls.py:971-978 | returns the outer data kept aside and clears it, so a later call returns only newer data |
| `Bridging.InnerBridgingBuffer.PreparePoll` | src/double_tls.py:986-996 | the source is watched iff open and the buffer is below 4096 bytes; the destination iff data is buffered; whenever `_active`, something is watched |
| `Bridging.InnerBridgingBuffer.HandleErrors` | src/double_tls.py:998-1009 | a problem without read closes the source; a destination problem drops the buffer, marked when it held data |
| `Bridging.InnerBridgingBuffer.Send` | src/double_tls.py:1011-1018 | the destination takes exactly the first `sent` bytes; nothing else changes |
| `Bridging.InnerBridgingBuffer.Receive` | src/double_tls.py:1020-1076 | nothing without PR_POLL_READ; "Buffer larger than length" on a full buffer; a failing `recv` raises; otherwise the bytes read are handled exactly as `BridgeBytes` does, an empty read closing the source |
| `Bridging.InnerBridgingBuffer.Absorb` | src/double_tls.py:1039-1076 | the bytes read are handled as the reference reading does and recorded as received |
| `Bridging.InnerBridgingBuffer.Split` | src/double_tls.py:1042-1076 | the `while len(data) > 0` loop leaves the state `BridgeBytes` gives |
| `Bridging.InnerBridgingBuffer.TakeInner` | src/double_tls.py:1043-1048 | a run of inner payload is forwarded, and the rest is read as the reference reading continues |
| `Bridging.InnerBridgingBuffer.TakeOuter` | src/double_tls.py:1049-1054 | a run of outer payload is kept aside, likewise |
| `Bridging.InnerBridgingBuffer.TakeHeader` | src/double_tls.py:1055-1076 | header bytes are collected up to 4, then the next chunk starts, likewise |
| `Bridging.InnerBridgingBuffer.StartChunk` | src/double_tls.py:1063-1076 | a complete inner header is forwarded and an inner EOF closes the source and marks the destination shut down; an outer header only sets the count |
| `Bridging.InnerBridgingBuffer.ReceivedKeepsValid` | src/double_tls.py:1039-1076 | the buffer keeps matching the reference reading of everything received |
| `Bridging.InnerBridgingBuffer.CheckShutdown` | src/double_tls.py:1078-1085 | when inactive and not yet shut down, one inner EOF `u32(2^31)` is appended, at most once, and only when no inner EOF was forwarded |
| `Bridging.InnerBridgingBuffer.ForwardedStream` | src/double_tls.py:1020-1085 | when the chunks `cs` were received, the bytes forwarded are the initial packets, the inner chunks of `cs` and perhaps one added EOF; the outer data handed out and kept is the outer payload of `cs` |
| `Bridging.InnerBridgingBuffer.Transmit` | src/double_tls.py:186-194 | `_handle_errors` then `_send` leave the buffer at the length `LengthAfterSend` gives |
| `Bridging.InnerBridgingBuffer.Round` | src/double_tls.py:173-200 | one pass keeps the invariant and the forwarded stream; only a failing `recv` raises |
| `OuterStream.Socket.constructor` | src/double_tls.py:858-859 | a socket with the peer's bytes to come and nothing sent |
| `OuterStream.Socket.Recv` | src/double_tls.py:876-877 | `recv(max)` returns the next bytes, at most `max`, and nothing only at EOF |
| `OuterStream.Socket.Send` | src/double_tls.py:923-924 | a blocking `send` sends everything |
| `OuterStream.Exactly` | src/double_tls.py:868-880 | exactly `k` bytes when that many remain, otherwise EOF |
| `OuterStream.TakeBuffered` | src/double_tls.py:889-895 | buffered outer data moves to the result, at most what is still wanted, and is used up when that is not enough |
| `OuterStream.FetchChunk` | src/double_tls.py:896-911 | handling one chunk from the socket consumes input whenever it does not end the read, and leaves the result untouched |
| `OuterStream.ReadLoop` | src/double_tls.py:882-912 | a read that ends normally has exactly `n` bytes |
| `OuterStream.ReadFromBuffered` | src/double_tls.py:888-895 | with enough buffered outer data, `read(n)` returns its first `n` bytes and keeps the rest |
| `OuterStream.FetchInner` | src/double_tls.py:901-906 | an inner chunk met while reading outer data is set aside, header included |
| `OuterStream.FetchInnerChunks` | src/double_tls.py:901-906 | a run of inner chunks is set aside, in order |
| `OuterStream.FetchOuter` | src/double_tls.py:907-911 | an outer chunk with enough payload completes the read, the rest of its payload staying buffered |
| `OuterStream.FetchOuterEof` | src/double_tls.py:908-909 | an outer zero header raises `EOFError` |
| `OuterStream.ReadBufferedFirst` | src/double_tls.py:889-897 | when the buffered outer data does not suffice, it is used up first |
| `OuterStream.ReadAfterWrite` | src/double_tls.py:882-924 | reading what the peer wrote: inner chunks before an outer chunk are set aside, and the result is the buffered data followed by the outer payload |
| `OuterStream.ReadAfterOuterEof` | src/double_tls.py:882-933 | reading past the peer's `send_outer_eof` raises `EOFError`, after setting aside the inner chunks before it |
| `OuterStream.ReadTruncatedHeader` | src/double_tls.py:868-880 | a connection that ends inside a header raises `EOFError` |
| `OuterStream.FetchOuterChunk` | src/double_tls.py:898-911 | a non-empty outer chunk on the wire is fetched whole into the outer data |
| `OuterStream.FetchOuterWhole` | src/double_tls.py:888-911 | an outer chunk that does not complete the read is added whole to the result, and the loop goes on |
| `OuterStream.ReadThroughChunk` | src/double_tls.py:888-911 | one chunk other than the outer EOF that does not complete the read: an inner one is set aside, an outer one's payload is added to the result |
| `OuterStream.ReadThroughChunks` | src/double_tls.py:888-911 | any run of chunks without an outer EOF that does not complete the read is consumed whole: its inner chunks set aside in order, its outer payload added to the result in order |
| `OuterStream.ReadLastOuter` | src/double_tls.py:888-911 | the outer chunk that completes the read gives the first `n` bytes, and the rest of its payload stays buffered |
| `OuterStream.ReadSpansChunks` | src/double_tls.py:882-912 | a read served by any number of chunks: the first `n` bytes of the buffered data followed by the outer payload, the remainder buffered, every inner chunk set aside in order |
| `OuterStream.OuterBuffer.constructor` | src/double_tls.py:858-861 | a new buffer has nothing pending |
| `OuterStream.OuterBuffer.RecvExact` | src/double_tls.py:868-880 | `__recv_exact` returns exactly `k` bytes or raises `EOFError` when the connection ends first |
| `OuterStream.OuterBuffer.Read` | src/double_tls.py:882-912 | `read(n)` ends as `ReadLoop` says and with the state it gives: exactly `n` bytes, or one of the two `EOFError`s; with `ReadSpansChunks` and `ReadAfterOuterEof` this is the buffered data and then the outer payload on the wire |
| `OuterStream.OuterBuffer.Fetch` | src/double_tls.py:896-911 | one header and payload are handled as `FetchChunk` says |
| `OuterStream.OuterBuffer.Write` | src/double_tls.py:914-924 | `write` sends one outer chunk `u32(len) + data`, or raises for data of 2^31 bytes or more and sends nothing |
| `OuterStream.OuterBuffer.SendOuterEof` | src/double_tls.py:930-933 | sends the outer EOF `u32(0)` |
| `OuterStream.OuterBuffer.PendingInnerPackets` | src/double_tls.py:935-946 | returns the inner packets set aside and clears them, so a later call returns only newer packets |
| `OuterStream.OuterBuffer.AddOuterData` | src/double_tls.py:948-952 | the data is appended to the outer data to be read first |

## Findings

| source | as written | input that shows it | evidently intended | confidence | as-written member | corrected member |
|---|---|---|---|---|---|---|
| src/double_tls.py:354-368 | `_receive` checks that a header still fits only before the second receive. The first receive raises `Exception('Inner buffer length exceeded')` (or the outer one) when the buffer holds 4092 bytes or more. | 4088 bytes buffered when `_prepare_poll` runs, so both sources are watched. The inner source reports readable and the outer source reports a hang-up without data. `_handle_errors` then appends the outer EOF (4092 bytes), the destination is not writable, and the inner receive raises. | As `_prepare_poll` does, read nothing from either source when no header fits, and wait for the buffer to drain. | not executed; low to medium (needs a hang-up in the same iteration as a nearly full buffer) | `Combining.AsWrittenRaisesAfterEof`, `Combining.HangUpOverflowExample` (over `Combining.ReceiveAsWritten`) | `Combining.ReceiveGuarded`, `Combining.GuardedRaisesOnlyOnFailure`, used by `Combining.CombiningBuffer.Receive` |

## Left out

- Sockets, NSS and poll are not modelled. Poll results, `recv` outcomes and `send` counts are method parameters. `_nspr_poll`, `_tcp_socketpair` and the NSPR error objects are not part of this model.
- The `recv` errors other than reset and would-block are modelled as one failure that the buffer re-raises (`RecvFailed`); their errno values are not distinguished.
- The `shutdown` calls in `_check_shutdown` are modelled by the returned flag. `PR_NOT_CONNECTED_ERROR` is ignored by the source and needs nothing. Any other shutdown error would propagate, and that is not modelled.
- `forward_two_way` and `bridge_inner_stream` are not modelled as loops. One pass of the loop body for one buffer is the `Round` method of each class. Interleaving two buffers, the loop's termination and the non-blocking socket options are left out.
- `_prepare_poll`'s poll dictionary is modelled as the interest record returned by `PreparePoll`. Merging two buffers' interests in one dictionary is left out.
- `OuterBuffer` reads from a blocking `Socket` model with no errors. NSS errors during `read`, `write` or `send_outer_eof` are not modelled, and a blocking `send` is assumed to send everything.
- `OuterBuffer.read`'s `Exception('Unexpected outer data')` is not a branch of the model. `OuterStream.OuterBuffer.Read` proves it cannot be raised.
- `OuterBuffer.set_full_duplex` and the `socket` property are left out: they only set an SSL option or return the socket.
- `_CombiningBuffer`'s checks `len(data) >= _chunk_inner_mask` (lines 311-312, 345-346) cannot fire: `recv` returns at most the 4096 bytes it is asked for. The model takes that bound as a requirement on the `recv` outcome and proves every chunk fits.
- The `_SplittingBuffer` and `_InnerBridgingBuffer` checks that the header buffer exceeds 4 bytes (lines 517-518, 1061-1062) cannot fire. The invariant `FramerValid` keeps the header below 4 bytes between bytes.
- `read_fields`' checks `num_fields > 255` and `bytes > 255` cannot fire on a one-byte value. They are not branches of the model.
- `read_fields`' callback is modelled as reading the next bytes of a given input. A short read becomes the one error `ShortRead`, whatever the callback would raise.
- `format_fields` takes a dict. The model takes its items as a sequence in iteration order. Which field's error is raised when several are bad depends on that order, and CPython's dict order is not modelled.
- Python 2 `long` values are not instances of `int`. `format_fields` refuses them as an unknown type; in the model they are `OtherVal`. A `unicode` value is refused the same way. An `IntVal` outside the platform's `int` range (for instance 2^63) stands for no Python value: the model answers `ValueOutOfRange` for it, where the matching Python `long` would be refused as an unknown type.
- `str` values are byte strings (`seq` of bytes for the codec, `seq<char>` for the dates); no text encoding is modelled.
- `yyyy_mm_dd_is_valid`: `datetime.date` is modelled by its documented range (years 1 to 9999) and the Gregorian month lengths.
- Logging, `_debug` and `_id` are left out: they are diagnostics only.
- `DoubleTLSClient`, the configuration, Koji, NSS initialisation, digest and daemon helpers of `src/utils.py`, `src/server_gpg.py` and `src/server_add_admin.py` are not part of this model: they are process, TLS and operating-system glue.
- Combining.CombiningBuffer.Receive: models `_receive` with its first receive guarded (see Findings); the unguarded behaviour is `Combining.ReceiveAsWritten`.
- Combining.CombiningBuffer.ReceiveInOrder: "only a failing `recv` raises" holds of the guarded `_receive`; as written, the first receive can raise 'Inner buffer length exceeded' after `_handle_errors` appended an EOF (see Findings).
- Splitting.SplittingBuffer.Round: states the invariant and which exceptions can arise; the exact new state is stated by the methods it calls.
- Combining.CombiningBuffer.Round: states the invariant, the chunk order and which exceptions can arise; the exact new state is stated by the methods it calls. Its "only a failing `recv` raises" holds with the guarded `_receive` only (see Findings).
- Bridging.InnerBridgingBuffer.Round: states the invariant, the forwarded stream and which exceptions can arise; the exact new state is stated by the methods it calls.
