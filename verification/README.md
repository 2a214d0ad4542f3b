# Verification of umurmur's wire formats

This directory models four parts of the umurmur voice server and proves properties of them.

**The voice-channel crypt state** (`src/crypt.c`). OCB mode over an arbitrary block cipher, and around it
the receiver that rebuilds a 128-bit IV from one byte, keeps a 256-slot replay history and counts good, late
and lost packets. `Blocks` has the 128-bit doubling and tripling on both word layouts, `Ocb` the mode as
functions with the inversion theorems, `OcbLoops` the loops over buffers. `Iv` has the IVs as little-endian
counters with carry and borrow, `Channel` one step of the receiver, `ChannelRuns` what holds over whole
runs, and `CryptState` the object with its arrays, updated in place.

**The packet data stream** (`src/pds.c`, and the frame walk and relay of `src/client.c`). `PdsFormat` has
the prefix-coded integers, `PdsStream` runs of the bounded writer and reading back, `Pds` the object, and
`Voice` the split of a voice packet into audio and position.

**The fragmented data buffer** (`src/google/protobuf-c/protobuf-c-data-buffer.c`). `DataBuffer` has the
linked fragments, changed in place, against the byte sequence they stand for; `DataBufferRuns` has runs
against a first-in first-out queue.

**The protobuf codec** (`src/google/protobuf-c/protobuf-c.c`). `Wire` has varints, zigzag, fixed words and
the scalar types, `Members` the tagged members and their scan, `Schema` descriptors and messages, `Encoding`
what a message packs to, `Decoding` what unpacking makes of bytes, `RoundTrip` the theorem between the two
and `Acceptance` its other direction. `Sizes`, `PackWords`, `Pack` and `PackBuffer` are the size calculator
and the two serializers; `ParseWords`, `Lookup`, `Slabs`, `Scan` and `Unpack` are the parser with its range
search, doubling slabs and two passes; `Counting` relates the passes, `Lengths` says where the parser's
32-bit numbers are the true ones, `NullReads` where it reads through a null pointer, and `Agreement` puts both
directions together. Two modules say over again what packing and unpacking come to, without the functions the
code is proved against: `WireFormat` the bytes of a message from the numbers of the wire format alone, and
`UnpackedFields` which bytes are accepted and what each field then is.

Lemmas carry `{:induction false}` wherever Dafny would otherwise try an induction of its own, so that each
proof is the one written. A `CryptState` carries ghost counters that follow its IVs and 32-bit statistics
past their wraps; `Valid` ties them to the fields. Const byte pointers, and slabs once they are filled, are
sequences; output buffers are arrays. Bit fields that do not overlap are written as sums. The block cipher
is a pair of functions that are inverse (`Ocb.IsPermutation`) wherever that matters. Times, randomness and
key set-up are parameters or absent: `Timer_restart` does nothing here, and the random bytes of
`CryptState_genKey` are arguments.

Where the code is not what one might expect, the model follows the code:

- `CryptState_init` clears 255 of the 256 history slots; the last keeps what the memory held.
- Only the next expected packet skips the history, so an unseen packet out of order is refused when its slot
  happens to hold its byte; `Channel.GenuinePacket` says exactly when.
- The late packet's `lost = -1` is a debt when the packet comes from before the start: one such packet alone
  leaves `uiLost` at 2^32 - 1 (`ChannelRuns.LossUnderflows`). The count is exact if and only if the receiver
  never lets such a packet in (`ChannelRuns.LossExactly`), in particular when none is sent
  (`ChannelRuns.LossOfAChannel`).
- `Pds_get_data` accepts a length below `maxlen` even when it is negative or reaches behind the window; a
  stream can announce one (`PdsStream.UnfitLengths`).
- The length of a prefixed body and the bytes that say it are added in 32 bits. A length of 2^32 - 5 makes 0,
  which is refused as it should be (`ParseWords.LengthThatWrapsToNothing`); from 2^32 - 4 on the body is taken
  to end inside its own length (`ParseWords.LengthThatWraps`). `ParseWords.Extent32IsTrue` has the condition.
- Before replacing the bytes of a field the parser looks into its default, which need not be there
  (`protobuf-c.c:1753-1754`): a second occurrence of a bytes field without a default, the first one not being
  empty, is a read through a null pointer (`NullReads.BytesGivenTwice`).
- When a mandatory field is missing, the message is freed with the counts of the first pass still in the
  arrays behind that field, which are not allocated yet (`protobuf-c.c:2299-2306` and `2378-2400`); strings,
  bytes or messages counted there are a read through a null pointer, too (`NullReads.ArrayBehindMissing`).
  `NullReads.ReadsNullExactly` says for which bytes either happens.
- Peeking, discarding and searching in the data buffer count in an `int`: from 2^31 bytes on the bytes are
  still right, but the number returned is not, nor, after discarding, the size.
- A block that does not fit the packet data stream is replaced by zeros, so a relayed voice packet that does
  not fit loses its audio (`Voice.DropsThePosition`).
- In `append` the room is computed from the full fragment even after a new one has been linked, so that
  iteration copies nothing.
- A boolean member is taken from a body of any wire type; packed booleans must be 0 or 1.
- A required message that is a null pointer is packed as an empty one, which unpacks exactly when its
  descriptor has no mandatory fields (`RoundTrip.CompleteValue`).
- A string comes back up to its first NUL only.

## Model

| member | source | states |
|---|---|---|
| Blocks.NumberDoubled | src/crypt.c:260-266 | doubling a block byte by byte is doubling its 128-bit big-endian number in the field of OCB (shift left, and exclusive-or with 0x87 when a bit falls out) |
| Blocks.NumberTripled | src/crypt.c:268-274 | tripling a block is its number exclusive-or twice its number in that field |
| Blocks.NumberInjective | src/crypt.c:253-274 | a block is determined by its number, so the two lemmas above fix doubling and tripling completely |
| Blocks.S2Wide | src/crypt.c:260-266 | S2 on two 64-bit words doubles the block in place |
| Blocks.S2Narrow | src/crypt.c:260-266 | S2 on four 32-bit words doubles the block in place: both layouts compute the same doubling |
| Blocks.S3Wide | src/crypt.c:268-274 | S3 on two 64-bit words triples the block in place |
| Blocks.S3Narrow | src/crypt.c:268-274 | S3 on four 32-bit words triples the block in place |
| Ocb.DecryptEncrypt | src/crypt.c:290-355 | for every permutation, nonce and plaintext of any length, opening a sealed text gives back the plaintext and the same full tag |
| Ocb.EncryptDecrypt | src/crypt.c:290-355 | sealing an opened text gives back the text and the same tag, so sealing is a bijection on texts of each length |
| Ocb.EncryptIsOcb | src/crypt.c:290-322 | the chained form is OCB's direct form, with m whole blocks before a last one of t bytes: block i is enciphered between two copies of the i-fold doubled offset; the pad enciphers the block whose number is 8 * t, added to the last offset, is added to the tail, and stands in for what the tail lacks in the checksum; and the tag enciphers the checksum under the tripled last offset |
| Ocb.OffsetDoubles | src/crypt.c:293-311 | each offset is the one before it doubled as a 128-bit number |
| OcbLoops.OcbEncrypt | src/crypt.c:290-322 | the loop over an output buffer writes exactly the sealed text and returns the tag |
| OcbLoops.OcbDecrypt | src/crypt.c:324-355 | the loop over an output buffer writes exactly the opened text and returns the tag |
| Iv.SameIv | src/crypt.c:117-119 | two counter values have the same 16-byte IV exactly when they are a multiple of 2^128 apart |
| Iv.IncrementedDigits | src/crypt.c:117-119 | the carry loop adds one to the little-endian number, at any length and with wrap |
| Iv.DecrementedDigits | src/crypt.c:180-182 | the borrow loop subtracts one from it |
| Iv.Carry | src/crypt.c:153-155 | the loop `if (++iv[i]) break` over the array, from any byte on |
| Iv.Borrow | src/crypt.c:180-182 | the loop `if (iv[i]--) break` over the array, from any byte on |
| Channel.OcbReopens | src/crypt.c:290-355 | the voice channel's mode, with an IV as nonce, reopens what it sealed |
| Channel.NonceBytes | src/crypt.c:121-206 | the block handed to the cipher as nonce has the 16 bytes of the IV, first byte first, and is the only one |
| Channel.NonceRepeats | src/crypt.c:117-121 | two counter values share a nonce exactly when they are a multiple of 2^128 apart |
| Channel.ShiftIsTheWindowMember | src/crypt.c:146-198 | from one byte the receiver recovers a move exactly when one in its window (29 back to 127 ahead, or 128 when the low byte does not carry) explains the byte, and it is that one |
| Channel.GenuinePacket | src/crypt.c:129-223 | a genuine packet d away from decrypt_iv, for every d in the window, has exactly the IV decrypt_iv + d reconstructed; it is let in exactly when it is the next one or its history slot does not hold its byte, and then gives its plaintext; otherwise nothing changes |
| ChannelRuns.FreshPlace | src/crypt.c:200-212 | a packet that is let in has a counter value not accepted before |
| ChannelRuns.ExtendSafe | src/crypt.c:129-223 | one packet keeps the invariant: decrypt_iv bounds every accepted counter value, and each of the last 256 still owns its history slot |
| ChannelRuns.RunSafe | src/crypt.c:129-223 | that invariant holds in every reachable state |
| ChannelRuns.NoReplay | src/crypt.c:129-223 | as long as decrypt_iv has moved by less than 2^128 - 29, no two packets are accepted under the same recovered IV, however many were refused |
| ChannelRuns.NoReplayInShortRun | src/crypt.c:129-223 | so it is in every run of fewer than about 2^121 packets, whatever they are |
| ChannelRuns.WrapReuses | src/crypt.c:117-223 | without that bound it fails: after 2^128 packets in order the same IV is accepted again |
| ChannelRuns.RunCounted | src/crypt.c:217-219 | in every reachable state good counts the accepted packets, late those that came after a higher one, and lost the ground covered and not accepted |
| ChannelRuns.LossAccounting | src/crypt.c:141-219 | uiGood + uiLost is the ground covered, and uiLost is the number of counter values passed and not accepted, less the number accepted from before the start |
| ChannelRuns.LossExactly | src/crypt.c:141-219 | uiLost is the number of missing packets if and only if at no packet the guard of the late branch lets in one from before the start; the guard is on the state before the packet and the packet |
| ChannelRuns.LossOfAChannel | src/crypt.c:141-219 | so it is, whatever is dropped, repeated or reordered, when no packet is genuine for one of the 30 counter values up to the start |
| ChannelRuns.LossUnderflows | src/crypt.c:166-184 | otherwise it fails: one genuine packet from 1 to 29 before the start, not in the history, leaves uiLost at 2^32 - 1 with nothing missing |
| ChannelRuns.InOrderDelivery | src/crypt.c:112-223 | lossless in-order delivery returns every plaintext forever, across every carry and wrap, whatever the history held, and counts no loss and no late packet |
| ChannelRuns.VoiceDelivery | src/crypt.c:112-223 | the same for OCB over any invertible block cipher |
| CryptStates.ParseInjective | src/crypt.c:131-139 | a datagram is its IV byte, three tag bytes and text, and nothing of it is ignored |
| CryptStates.SealIsSealed | src/crypt.c:112-127 | a datagram is the one for a counter value exactly when its bytes are the low byte of the IV, the first three bytes of the tag in order, and the text OCB seals under the bytes of the IV |
| CryptStates.StepOnDatagram | src/crypt.c:129-223 | a datagram is let in if and only if some counter value in the window has its first byte, is the next one or not in its history slot, and gives its three tag bytes; then IV, history, counters and plaintext are those of that value |
| CryptStates.CryptState.constructor | src/crypt.c:60-90 | the state after CryptState_init and CryptState_genKey; the last history slot is not cleared |
| CryptStates.CryptState.Encrypt | src/crypt.c:112-127 | counts the IV up in place and writes the packet whose bytes are the IV byte, the tag bytes and the text OCB seals under the bytes of the new IV; the receiving side is untouched |
| CryptStates.CryptState.Decrypt | src/crypt.c:129-223 | the in-place code is exactly one step of the receiver: it succeeds if and only if the datagram opens under some counter value, and writes what OCB opens under the bytes of that IV; a rejected packet leaves IV, history and counters as they were |
| CryptStates.CryptState.MoveIv | src/crypt.c:146-198 | the two-way branch over the low byte and the carry and borrow loops reconstruct the IV in place |
| CryptStates.CryptState.Judge | src/crypt.c:200-222 | history check, tag check and restoring of the IV give the verdict of the receiver |
| CryptStates.CryptState.Count | src/crypt.c:217-219 | the 32-bit statistics follow the true ones modulo 2^32 |
| PdsFormat.ReadsBack | src/pds.c:150-240 | wherever the encoding of a 64-bit value stands in a stream, reading there gives back the value and takes exactly the encoding: the short negatives, the complement form, and the 9-byte form included |
| PdsFormat.PrefixCode | src/pds.c:150-202 | no encoding is the start of another, so a stream splits in one way only |
| PdsFormat.ComplementRun | src/pds.c:221-224 | a run of k bytes 0xF8..0xFB complements the value behind it k times |
| PdsFormat.ReadsNoFurther | src/pds.c:204-240 | the value read depends only on the bytes taken |
| PdsFormat.Shortest | src/pds.c:150-240 | nothing a reader takes for a value, however many complement bytes are in front of it, is shorter than its encoding |
| PdsFormat.EncodingIsPlain | src/pds.c:150-202 | no encoding sets the low two bits of a byte 0xF0 to 0xFB, which mean nothing |
| PdsFormat.OnlyEncoding | src/pds.c:150-240 | the encoding is the only byte string of its length and without such a bit that reads as its value |
| PdsStream.PutBytesTwice | src/pds.c:45-53 | writing bytes in two goes is writing them in one, overshoot included |
| PdsStream.BlockOrZeros | src/pds.c:71-84 | a block that fits stands behind what is there, and one that does not leaves zeros up to the end |
| PdsStream.RunConserves | src/pds.c:45-84 | over every sequence of writes, bytes written and overshoot add up to what was requested, what was written stays, and the flag says whether anything overshot |
| PdsStream.FreshRun | src/pds.c:45-128 | from Pds_create: offset + overshoot is the length requested, offset is the smaller of that and the size, the flag holds iff overshoot is 0, and then the buffer holds the concatenation of the encodings |
| PdsStream.OvershootIsFinal | src/pds.c:45-84 | after an overshoot no write changes the buffer or the flag; it only adds to the overshoot |
| PdsStream.StreamRoundTrip | src/pds.c:150-271 | every sequence of numbers and blocks that fits is read back in order, ending at the writer's offset, whatever the rest of the buffer holds |
| PdsStream.AnyLengthIsAnnounced | src/pds.c:260-271 | the 32-bit length a block reader finds is that of any 64-bit value written, and the block it takes lies in the stream if and only if that is refused or between 0 and the bytes left |
| PdsStream.ReadsItem | src/pds.c:204-271 | where a number or a block stands, a reader gets it if and only if it asks for it, a block when its length is below 2^31 and below maxlen |
| PdsStream.UnfitLengths | src/pds.c:260-271 | two one-byte streams whose block a reader with room does not refuse although it is not there: length -1, and length 1 with nothing behind it |
| PdsObjects.Pds.constructor | src/pds.c:118-128 | a fresh window on a buffer |
| PdsObjects.Pds.AppendVal | src/pds.c:45-53 | the low byte of a 64-bit value, or one more overshoot |
| PdsObjects.Pds.AddNumval | src/pds.c:150-202 | writes the encoding of the value, or as much of it as fits, inside the window only |
| PdsObjects.Pds.AppendData | src/pds.c:55-69 | length and block; a block that does not fit is replaced by zeros up to the end |
| PdsObjects.Pds.AppendDataNosize | src/pds.c:71-84 | the block alone, byte by byte, or zeros in every byte up to the end, the offset at the end and the flag cleared |
| PdsObjects.Pds.Next8 | src/pds.c:86-94 | the next byte, or zero past the end with the flag cleared |
| PdsObjects.Pds.Skip | src/pds.c:96-106 | moves the offset if the 32-bit sum stays within the window, for either sign |
| PdsObjects.Pds.GetNumval | src/pds.c:204-240 | decodes, stops on every input, never leaves the window, and clears the flag exactly when a byte was missing |
| PdsObjects.Pds.GetData | src/pds.c:260-271 | a block into the caller's buffer, or -1 when its 32-bit length is not below maxlen |
| Voice.AudioIsFound | src/client.c:760-766 | of a number, frames and anything behind them, the walk takes exactly the number and the frames: audio and position partition the payload |
| Voice.WalkStops | src/client.c:761-764 | the walk stops behind a header without its top bit, or with length zero, or with more than is left, and otherwise goes on behind the frame |
| Voice.DropsThePosition | src/client.c:766-769 | dropping the last poslen bytes of the relayed packet leaves type byte, session id and exactly the audio, and keeping them the whole payload, if and only if session id and payload have at most 1023 bytes |
| Voice.ReceiverAgrees | src/client.c:760-769 | who receives the packet, with or without its last bytes, reads the session and finds the same audio |
| Voice.WalkFrames | src/client.c:761-764 | the loop stops, inside the packet, where the walk ends |
| Voice.Relay | src/client.c:736-776 | the packet written is type byte, session and payload through the bounded writer, all of them if they fit 1024 bytes, and poslen the length behind the audio |
| DataBuffers.DataBuffer.constructor | src/google/protobuf-c/protobuf-c-data-buffer.c:133-140 | an empty buffer |
| DataBuffers.DataBuffer.Append | src/google/protobuf-c/protobuf-c-data-buffer.c:165-198 | appends exactly the data, and stops under the measure (bytes left, last fragment full); the chain stays linked, within 4096 bytes a fragment, without empty fragments |
| DataBuffers.DataBuffer.Room | src/google/protobuf-c/protobuf-c-data-buffer.c:172-189 | the room found at the start of an iteration is none when the last fragment was full, although an empty one is linked by then |
| DataBuffers.DataBuffer.AppendRepeatedChar | src/google/protobuf-c/protobuf-c-data-buffer.c:200-232 | appends the byte as often as asked |
| DataBuffers.DataBuffer.Read | src/google/protobuf-c/protobuf-c-data-buffer.c:302-338 | moves the first bytes to the caller and removes them; its closing assertion always holds |
| DataBuffers.DataBuffer.Peek | src/google/protobuf-c/protobuf-c-data-buffer.c:356-383 | copies the first bytes, however many, and changes nothing; the number returned is what an int has counted |
| DataBuffers.DataBuffer.Discard | src/google/protobuf-c/protobuf-c-data-buffer.c:508-537 | removes the first bytes, however many; the number returned and the new size are by what an int has counted, so the buffer is well-formed afterwards if and only if less than 2^31 bytes went |
| DataBuffers.DataBuffer.Reset | src/google/protobuf-c/protobuf-c-data-buffer.c:681-694 | walks the chain to its end and leaves an empty buffer |
| DataBuffers.DataBuffer.IndexOf | src/google/protobuf-c/protobuf-c-data-buffer.c:718-735 | the first position of the byte in the whole contents, as an int, or -1 |
| DataBuffers.DataBuffer.ReadLine | src/google/protobuf-c/protobuf-c-data-buffer.c:397-430 | the bytes before the first newline with a NUL behind them, removed with the newline, and unchanged without one, if and only if the newline lies below 2^31; beyond that cut where the int says |
| DataBuffers.DataBuffer.ParseString0 | src/google/protobuf-c/protobuf-c-data-buffer.c:443-453 | the same up to the first NUL, if and only if it lies below 2^31; beyond that nothing, or cut where the int says |
| DataBuffers.DataBuffer.PeekChar | src/google/protobuf-c/protobuf-c-data-buffer.c:465-477 | the first byte or -1 |
| DataBuffers.DataBuffer.ReadChar | src/google/protobuf-c/protobuf-c-data-buffer.c:489-496 | the first byte, removed, or -1 |
| DataBuffers.DataBuffer.Drain | src/google/protobuf-c/protobuf-c-data-buffer.c:832-859 | all fragments of another buffer go over without copying, and both are left well-formed and apart |
| DataBuffers.DataBuffer.Transfer | src/google/protobuf-c/protobuf-c-data-buffer.c:906-944 | exactly min(max, size) bytes go over: dst gains the front of src and src keeps the rest, as reading and appending them would do; both stay well-formed and apart |
| DataBuffers.FirstIndexJoin | src/google/protobuf-c/protobuf-c-data-buffer.c:718-735 | searching part after part is searching the whole |
| DataBufferRuns.FirstInFirstOut | src/google/protobuf-c/protobuf-c-data-buffer.c:165-537 | over every run, what was put in, in order, is what was taken out, in order, and what is left |
| DataBufferRuns.Replay | src/google/protobuf-c/protobuf-c-data-buffer.c:133-537 | over every run from an empty buffer, in which no more is peeked at or discarded at once than an int can count, the chain gives out what the byte queue would, holds what it would, and its size is the length of that |
| DataBufferRuns.FewBytesSmallRun | src/google/protobuf-c/protobuf-c-data-buffer.c:356-537 | every run that puts in less than 2^31 bytes is one |
| Wire.VarintRoundTrip | src/google/protobuf-c/protobuf-c.c:493-581 | a varint reads back and ends where it ends |
| Wire.Uint32Size | src/google/protobuf-c/protobuf-c.c:197-210 | the thresholds give the length of the varint |
| Wire.Uint64Size | src/google/protobuf-c/protobuf-c.c:252-270 | so do those on the upper half of 64 bits |
| Wire.TagSizeCounts | src/google/protobuf-c/protobuf-c.c:179-192 | the tag size is the length of number and wire type as one varint |
| Wire.ZigzagInverts | src/google/protobuf-c/protobuf-c.c:231-280 | zigzag and its inverse are inverse on every word, and small numbers of either sign have small codes |
| Wire.WordRoundTrip | src/google/protobuf-c/protobuf-c.c:524-635 | every scalar of every type decodes to the word encoded, booleans to 0 or 1 |
| Members.ScanOneOf | src/google/protobuf-c/protobuf-c.c:1432-1505 | a member's tag and body are found again in front of anything |
| Members.ScanOfConcat | src/google/protobuf-c/protobuf-c.c:2133-2254 | scanning members packed one after the other finds exactly them, in order |
| Decoding.ParsedAsCounted | src/google/protobuf-c/protobuf-c.c:1523-1573 | a packed array that parses has as many elements as were counted without parsing it |
| Counting.FilledAsCounted | src/google/protobuf-c/protobuf-c.c:2133-2333 | when the second pass succeeds every array has got exactly the elements the first pass counted for it |
| Counting.UnpackedAsCounted | src/google/protobuf-c/protobuf-c.c:2084-2364 | so has every array of an unpacked message |
| Counting.CountsAreSmall | src/google/protobuf-c/protobuf-c.c:2136-2284 | no array is counted more elements than there are bytes, and there are at most half as many members: below 2^32 bytes `unsigned n = *n_ptr` loses nothing |
| Lengths.AcceptedFits | src/google/protobuf-c/protobuf-c.c:1476-2284 | in less than 2^32 bytes that are accepted, no sum of length and prefix and no count of elements wraps 32 bits, at any depth |
| Lengths.EncodedFits | src/google/protobuf-c/protobuf-c.c:467-2284 | nor in the bytes of any conforming message, however many there are |
| NullReads.ReadsNullExactly | src/google/protobuf-c/protobuf-c.c:1746-2400 | the parser reads through a null pointer if and only if the bytes pass the first pass, and either a mandatory field is missing and an array of strings, bytes or messages behind it is not, or none is missing and at some member, those before it being acceptable, the last earlier member of a bytes field without a default was not empty, or the message nested in it is such |
| NullReads.HoldsLastBody | src/google/protobuf-c/protobuf-c.c:1746-1760 | after any members a bytes field holds the bytes of the last member with its number |
| NullReads.BytesGivenTwice | src/google/protobuf-c/protobuf-c.c:1753-1754 | any bytes field without a default, given twice with one byte each: the specification has a message, no length wraps, and the code reads through a null pointer |
| NullReads.ArrayBehindMissing | src/google/protobuf-c/protobuf-c.c:2299-2400 | one string of any array, and a mandatory field in front of it missing: the specification refuses, and the code reads through a null pointer before it does |
| NullReads.ThereIfCounted | src/google/protobuf-c/protobuf-c.c:2249-2270 | an array of strings, bytes or messages has been counted elements exactly when a member has its number |
| NullReads.EncodedReadsNoNull | src/google/protobuf-c/protobuf-c.c:467-2399 | the bytes of a conforming message, nested to any depth, are unpacked without such a read |
| RoundTrip.PackedRoundTrip | src/google/protobuf-c/protobuf-c.c:1832-1971 | a packed array parses to its elements |
| RoundTrip.MembersPassChecks | src/google/protobuf-c/protobuf-c.c:2133-2290 | the members of a conforming message pass every check of the first pass |
| RoundTrip.ValueRoundTrip | src/google/protobuf-c/protobuf-c.c:1666-1783 | each value parses to its normal form, a nested message by unpacking it |
| RoundTrip.UnpackOfEncode | src/google/protobuf-c/protobuf-c.c:2084-2364 | for every well-formed schema and conforming message, nested to any depth, with packed and unpacked arrays and unknown fields: unpacking the packed bytes gives the message back up to normalisation when it is complete, and fails when it is not |
| WireFormat.EncodeIsWireFormat | src/google/protobuf-c/protobuf-c.c:467-1014 | a message packs to just these bytes: its fields in order, each value as the varint of 8 * number + 0, 1, 2 or 5 by its type and then its varint, four or eight bytes low byte first, or length and content; absent optional fields and empty packed arrays as nothing; nested messages by the same rule; and unknown fields behind |
| WireFormat.ValueIs | src/google/protobuf-c/protobuf-c.c:692-761 | one value packs to its tag and body as the numbers of the format say |
| WireFormat.FirstByte | src/google/protobuf-c/protobuf-c.c:692-761 | for each of the 17 types, with a number below 16, the first byte of a packed value is 8 * number + 0, 1, 2 or 5 |
| WireFormat.WordIs | src/google/protobuf-c/protobuf-c.c:493-635 | the bytes of each scalar type, from its word in memory |
| WireFormat.MemberAtFront | src/google/protobuf-c/protobuf-c.c:1432-1505 | the member at the front is a varint of at most five bytes, whose low three bits are the kind of the body and the others its number, and the body |
| WireFormat.BodyReaches | src/google/protobuf-c/protobuf-c.c:2177-2228 | a body of kind 0 is a varint of at most ten bytes, of kind 1 eight bytes, of kind 2 a varint of at most five bytes and as many bytes as it says, of kind 5 four bytes; there is no other |
| WireFormat.FixedAtFront | src/google/protobuf-c/protobuf-c.c:2177-2228 | 8 * number + 5 and four bytes, and 8 * number + 1 and eight, are found as such members |
| UnpackedFields.ParsedExactly | src/google/protobuf-c/protobuf-c.c:1666-1783 | a member gives a field a value if and only if it has the kind of body of its type, a boolean any, and the value is then the number its bytes stand for, its string, its bytes, or the message its bytes unpack to |
| UnpackedFields.PackedExactly | src/google/protobuf-c/protobuf-c.c:1832-1971 | a packed array parses to its elements, split in the only way there is, and is refused if there is none |
| UnpackedFields.AcceptedExactly | src/google/protobuf-c/protobuf-c.c:2084-2364 | bytes are accepted if and only if they are members, not too many, with every required field without a default among them, and each acceptable to the field with its number |
| UnpackedFields.UnpackedExactly | src/google/protobuf-c/protobuf-c.c:2084-2364 | unpacking gives a message if and only if, field by field, it is what the members say: an array the elements its members give, in order; another field the value of the last member with its number, or else its default; the flag of an optional field set exactly when there is one and the field is of one of the fifteen types that have a flag; and the members no field claims, in order |
| Acceptance.AcceptedIsSound | src/google/protobuf-c/protobuf-c.c:2084-2364 | whatever unpacks from less than 2^32 bytes is a message of the types its descriptors say, at every depth, whose unknown fields are unknown to them and which has everything mandatory |
| Acceptance.ConformsExactly | src/google/protobuf-c/protobuf-c.c:467-489 | conforming is having those types and having all lengths, with what says them, within 32 bits |
| Acceptance.NormalExactly | src/google/protobuf-c/protobuf-c.c:2084-2364 | a message is its own normal form exactly when, at every depth, booleans are 0 or 1, strings are its own and have no NUL in them, absent optional fields have their defaults and present ones their flags, and required messages are there |
| Acceptance.AcceptedRoundTrip | src/google/protobuf-c/protobuf-c.c:467-2364 | so, when its lengths are within 32 bits, it conforms, and packs to bytes that unpack to its normal form: to itself exactly when it is normal |
| Lookup.IntRangeLookup | src/google/protobuf-c/protobuf-c.c:1394-1430 | the binary search over ranges stops and finds what a linear search over the fields finds, for every 32-bit tag |
| Lookup.TableOf | src/google/protobuf-c/protobuf-c.h:257-263 | every list of fields has a range table |
| Schema.OneFieldSchema | src/google/protobuf-c/protobuf-c.h:226-241 | a field makes a schema if and only if its number is 1 to 2^31 - 2, only an array of scalars is packed, and its default is one of its type |
| Sizes.WordSizeCounts | src/google/protobuf-c/protobuf-c.c:197-290 | the scalar sizes are the lengths of the encodings |
| Sizes.RepeatedFieldSize | src/google/protobuf-c/protobuf-c.c:377-455 | the size of an array, packed or not |
| Sizes.GetPackedSize | src/google/protobuf-c/protobuf-c.c:467-489 | the computed size is the length of the encoding |
| PackWords.Uint32Pack | src/google/protobuf-c/protobuf-c.c:493-520 | the nested ifs write the varint |
| PackWords.Uint64Pack | src/google/protobuf-c/protobuf-c.c:551-581 | the code over two halves of the value, with its loop, writes the same varint |
| PackWords.Int32Pack | src/google/protobuf-c/protobuf-c.c:524-540 | a negative 32-bit number is written sign-extended in ten bytes |
| PackWords.TagPack | src/google/protobuf-c/protobuf-c.c:692-699 | number and wire type as one varint, the type added to the first byte afterwards |
| PackWords.WordPack | src/google/protobuf-c/protobuf-c.c:701-741 | the scalar cases write the encoding of their type and nothing else |
| Pack.PayloadBounds | src/google/protobuf-c/protobuf-c.c:842-880 | a payload of n elements has at least n and at most 10n bytes |
| Pack.GuessIsClose | src/google/protobuf-c/protobuf-c.c:872-960 | hence the length of the payload takes as many bytes as guessed, or one more: the assertion never fails |
| Pack.PutLength | src/google/protobuf-c/protobuf-c.c:952-963 | the length put in front, and the payload moved when it needs a byte more, give the direct encoding |
| Pack.PrefixedMessagePack | src/google/protobuf-c/protobuf-c.c:672-688 | a nested message packed behind one byte and moved gives its direct encoding |
| Pack.RequiredFieldPack | src/google/protobuf-c/protobuf-c.c:701-761 | one value with its tag: the bytes of WireFormat.ValueIs |
| Pack.SlotPack | src/google/protobuf-c/protobuf-c.c:701-971 | one field: required, optional or repeated |
| Pack.MessagePack | src/google/protobuf-c/protobuf-c.c:982-1014 | the bytes written are the encoding, all of it, and nothing else in the array changes |
| PackBuffer.BufferSimple.Append | src/google/protobuf-c/protobuf-c.c:148-172 | the buffer gains the bytes, growing by doubling |
| PackBuffer.RequiredToBuffer | src/google/protobuf-c/protobuf-c.c:1017-1120 | one value with its tag; a nested message goes through a buffer of its own |
| PackBuffer.PackedToBuffer | src/google/protobuf-c/protobuf-c.c:1143-1337 | the computed payload length is the length then appended |
| PackBuffer.MessageToBuffer | src/google/protobuf-c/protobuf-c.c:1361-1385 | appends the encoding, and returns its length |
| ParseWords.ParseTag | src/google/protobuf-c/protobuf-c.c:1432-1461 | the shifts take number and wire type out of at most five bytes |
| ParseWords.ScanLengthPrefixed | src/google/protobuf-c/protobuf-c.c:1476-1505 | the extent of a length-prefixed body as the 32-bit sum of length and prefix gives it, or an error when that is 0 or more than there is |
| ParseWords.Extent32IsTrue | src/google/protobuf-c/protobuf-c.c:1476-1505 | that is the true extent if and only if the sum is below 2^32, or is 2^32 with less bytes there; otherwise it is the sum less 2^32, inside the five bytes of the length |
| ParseWords.LengthThatWraps | src/google/protobuf-c/protobuf-c.c:1476-1505 | the five bytes FF FF FF FF 0F, in front of anything: a body of four bytes is found, inside the five of its length, where there should be an error |
| ParseWords.LengthThatWrapsToNothing | src/google/protobuf-c/protobuf-c.c:1476-1505 | the five bytes FB FF FF FF 0F: the sum wraps to 0, which is the error it should be |
| ParseWords.MaxB128Numbers | src/google/protobuf-c/protobuf-c.c:1507-1515 | counts the bytes that end a varint |
| ParseWords.ParseUint32 | src/google/protobuf-c/protobuf-c.c:1575-1594 | the value modulo 2^32, for a varint of any length |
| ParseWords.ParseUint64 | src/google/protobuf-c/protobuf-c.c:1619-1636 | the value modulo 2^64 |
| ParseWords.ParseBoolean | src/google/protobuf-c/protobuf-c.c:1657-1665 | whether any of the seven-bit groups is not zero |
| SlabStores.Capacity | src/google/protobuf-c/protobuf-c.c:2066-2083 | the slabs together have room for just the most members there may be |
| SlabStores.Slabs.Add | src/google/protobuf-c/protobuf-c.c:2230-2247 | keeps a member in the next place, in a slab twice as large when the last is full, and refuses only beyond the capacity |
| SlabStores.Slabs.Get | src/google/protobuf-c/protobuf-c.c:2319-2333 | a slab holds the members from its start on, all of it before the last slab |
| SlabStores.Slabs.Parts | src/google/protobuf-c/protobuf-c.c:2319-2333 | reading the slabs in order gives the members in the order they were scanned |
| SlabStores.SlabsInWords | src/google/protobuf-c/protobuf-c.c:2230-2247 | with less than 2^32 - 16 members only the 28 slabs are in use whose size the 32-bit shift can give |
| Scan.FindField | src/google/protobuf-c/protobuf-c.c:2147-2169 | the last-field cache yields the field and index of an uncached lookup, also after unknown tags |
| Scan.ScanMember | src/google/protobuf-c/protobuf-c.c:2136-2229 | the member at the front, as specified, when the 32-bit sum of its length is the true one or as good |
| Scan.CountPackedElements | src/google/protobuf-c/protobuf-c.c:1523-1573 | counts the elements, or refuses a length that is not whole words |
| Scan.ScanMembers | src/google/protobuf-c/protobuf-c.c:2133-2270 | on bytes of which that holds throughout, the first pass succeeds exactly when they are acceptable, and then has the members in wire order, the count of every array and the required fields seen |
| Scan.FewSlabs | src/google/protobuf-c/protobuf-c.c:2230-2247 | less than 2^32 bytes fill only such slabs |
| Unpacking.Draft.constructor | src/google/protobuf-c/protobuf-c.c:2272-2304 | a fresh message, with arrays allocated by the counts taken in 32 bits |
| Unpacking.Draft.PutElement | src/google/protobuf-c/protobuf-c.c:1800-1817 | an element is written behind those there, only within the memory allocated |
| Unpacking.ParsePackedMember | src/google/protobuf-c/protobuf-c.c:1832-1971 | parses a packed array into the room counted for it, never beyond |
| Unpacking.ParseRequiredMember | src/google/protobuf-c/protobuf-c.c:1666-1783 | one value by its type, or refusal, where the default it looks up before it replaces bytes is there |
| Unpacking.ParseMember | src/google/protobuf-c/protobuf-c.c:1973-2006 | one member changes the message as specified, within the room left, where taking it does not read through a null pointer |
| Unpacking.FillAll | src/google/protobuf-c/protobuf-c.c:2311-2333 | all members in turn, none of which reads through a null pointer; every array ends up full |
| Unpacking.CheckRequired | src/google/protobuf-c/protobuf-c.c:2273-2307 | succeeds exactly when no mandatory field is missing; asks that no array of pointers behind a missing one has been counted |
| Unpacking.UnpackMessage | src/google/protobuf-c/protobuf-c.c:2084-2364 | the two passes, with their 32-bit lengths and counts, compute exactly the specified unpacking, accepted or not, and with it the message that is, field by field, what the bytes say, on all bytes in which none of these wraps and on which the code does not read through a null pointer (`NullReads.ReadsNullExactly`) |
| Agreement.PackBothWays | src/google/protobuf-c/protobuf-c.c:467-1385 | computed size, bytes packed and bytes appended agree, and are those of the wire format |
| Agreement.PackAndUnpack | src/google/protobuf-c/protobuf-c.c:467-2364 | packing and unpacking by the code gives the message back, normalised, iff it is complete |
| Agreement.SameBytesSameMessage | src/google/protobuf-c/protobuf-c.c:467-2364 | messages that pack to the same bytes are the same up to normalisation |

## Left out

- Channel.Receiver: the counter behind decrypt_iv and the statistics are unbounded here; `CryptStates.CryptState` ties them to the 128-bit IV and the 32-bit fields.
- ChannelRuns.NoReplay: is about runs in which nothing else writes decrypt_iv; the resync of `src/messagehandler.c` is not modelled.
- CryptStates.CryptState.constructor: AES, its key schedule and random numbers are not modelled; `CryptState_setKey`, which derives the encryption key from the decryption IV, is left out.
- CryptStates.CryptState.Decrypt: completeness of the replay check is not claimed, since fresh packets out of order can be refused.
- PdsObjects.Pds.GetData: demands of its caller that a length that is accepted is not negative and does not reach behind the window, which the code does not check and any stream can break (`PdsStream.UnfitLengths`); what memcpy then does is not modelled.
- Voice.Relay: whom a packet is sent to, muting, bandwidth and the target nibble are not modelled; the type byte is an argument.
- DataBuffers.DataBuffer.ReadLine: asks that the position of the newline, as an int, is neither negative nor 2^31 - 1; the code then writes outside the line, or adds one to the largest int.
- DataBuffers.DataBuffer.ParseString0: asks that the position of the NUL, as an int, is not 2^31 - 1, to which the code adds one.
- DataBufferRuns.Replay: asks that less than 2^31 bytes are peeked at or discarded at once, since the number is wrong beyond that.
- DataBuffers.DataBuffer.Reset: fragments dropped from a chain are forgotten; freeing and recycling memory, and failure to allocate it, are not modelled anywhere.
- Encoding.Encode: lengths of strings, byte arrays, nested messages and packed payloads, each with the bytes that say it, and array counts, are within 32 bits (`Encoding.Conforms`), as the length fields of the format and the parser's sums demand.
- Schema.WellFormedField: field numbers are positive and below 2^31 - 1, so that range comparisons in `int` do not overflow, and nested messages have no default, as in the language.
- Schema.WellFormedDescriptor: has at least one field; without one the parser reads `desc->fields[0]`, which is not there, on anything but empty data.
- Members.BodyExtent: the sum of prefix and length is the true one; `Lengths.LengthsFit` says for which bytes the code's is too.
- Scan.ScanMember: asks that the sum of prefix and length does not wrap beyond 0 (`Members.MemberFits`), since the code then takes a body that ends inside its own length.
- Scan.ScanMembers: asks the same of every member the scan comes to (`Members.ScanFits`).
- SlabStores.Capacity: is about all 55 slabs, where `1U<<(which_slab+4)` fails from the slab with index 28 on, that is from 2^32 - 16 members on (`SlabStores.SlabsInWords`).
- SlabStores.Slabs.Add: counts places in unbounded numbers, with the same limit in the code.
- RoundTrip.UnpackOfEncode: asks of a message no more than MAX_MEMBERS members at the top level, which is the capacity of the parser's slabs.
- Acceptance.AcceptedRoundTrip: asks that the lengths of the message are within 32 bits, since packing again can take more bytes: a negative 32-bit number may come in five and goes out in ten, and absent required fields go out with their defaults.
- Unpacking.ParseRequiredMember: asks that a bytes field whose bytes are replaced has a default, which the code looks into without asking.
- Unpacking.ParseMember: asks that taking the member does not read through a null pointer (`NullReads.ReadsNullOn`).
- Unpacking.CheckRequired: asks that behind a missing mandatory field no array of strings, bytes or messages has been counted.
- Unpacking.UnpackMessage: asks that no length and no count wraps 32 bits, at any depth (`Lengths.LengthsFit`), and that the code does not read through a null pointer (`NullReads.ReadsNull`); what it does after a wrap or such a read is not modelled. The message under construction is an object with sequences for its arrays, written only within their allocated length; struct offsets, the allocator and freeing, other than for those reads, are not modelled, and required fields are flagged one by one instead of in the bits of words.
- Lookup.IntRangeLookup: lookups by name, enum lookups and generated tables are left out; any table that fits the fields will do.
- Packed floats and doubles are their words in memory; their arithmetic plays no part.
- `Pds_add_double`, `Pds_add_string` and their readers only forward to the number and block functions.
- `protobuf_c_data_buffer_str_index_of`, `protobuf_c_data_buffer_clear`, writev and reading from a descriptor, and the disabled printing functions are left out.
- Protobuf services, message freeing, sockets, TLS, logging, configuration, timers and message handlers are left out.
