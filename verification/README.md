# Massa wire messages and speculative roll state, in Dafny

This project models two parts of the Massa node.

**The peer-to-peer message codec** (`massa-network-worker/src/messages.rs`):
- the twelve `Message` variants and their `MessageTypeId` discriminants;
- the encoder `to_bytes_compact`, together with `serialize_operation_ids` and `serialize_operation_opt_map`;
- the decoder `from_bytes_compact`, together with `deserialize_operation_ids` and `derialize_operation_opt_map`.

A message on the wire is the varint of its discriminant followed by its payload. The payload is built from:
- fixed-width ids, keys and signatures;
- compact encodings of blocks, headers, IP addresses, versions, operations and endorsements;
- varint count prefixes.

The decoder checks each count against a maximum from the serialization context before it reads the collection behind it.

The codec is modelled as pure functions:
- **Decoder.** Each reader takes the remaining bytes and returns what it read and what is left. This mirrors the source's cursor walking through `&buffer[cursor..]`.
- **Round trip.** `CodecProofs.RoundTrip` is proved for the corrected decoder `Decoder.Decode`, which reads the presence tag of an operation-map entry as the four big-endian bytes it is written as. Decoding the encoding of any message within the context gives the message back, and the cursor lands exactly at the end of the encoding, whatever bytes follow. For the decoder as written, `Decoder.DecodeAsWritten`, `AsWritten.RoundTripAsWritten` proves the same for every message except `Operations`, and "## Findings" shows why `Operations` fails.
- **Refusals.** `DecodeLimits` proves that an empty buffer, an unknown discriminant and an over-limit count are refused with the matching error. `Truncation.CutShortRefused` proves that a message cut anywhere before its end is refused as truncated. For the decoder as written this fails only for `Operations`, and `AsWritten.TruncatedMessageAccepted` exhibits a cut `Operations` message that it accepts.

**The speculative roll state** (`massa-execution-worker/src/speculative_roll_state.rs`) is the proof-of-stake changes accumulated while a slot executes speculatively:
- roll buys and sells;
- deferred credits for sold rolls;
- block production statistics;
- seed bits.

Each method becomes a function from the accumulated `PoSChanges` to the new ones. `RollStateProofs` relates several calls: repeated buys and sells compose, each seller is owed its sales, and the seed grows by one bit per produced block.

Modelling each of these two parts in full shows one bug in it. Both are under "## Findings". In each case the project keeps the code as written, with a lemma that exhibits the bug, next to a corrected definition that carries the intended property:
- the `Operations` presence tag is written as four big-endian bytes but read back as a varint;
- `remove_rolls` credits only the first seller of a slot.

Modules, in dependency order:

| module | file | contents |
|---|---|---|
| `Wrappers`, `Ints`, `Outcomes` | wrappers.dfy, ints.dfy, outcomes.dfy | `Option`/`Result`, machine integers, error taxonomy |
| `VarInt` | varint.dfy | unsigned LEB128 varints |
| `Collaborators` | collaborators.dfy | domain objects and their codecs, as parameters |
| `MessageTypes`, `Messages` | message_types.dfy, messages.dfy | discriminants, the `Message` type, the context |
| `Encoder`, `Decoder` | encoder.dfy, decoder.dfy | the two directions of the codec |
| `ReaderLemmas`, `CodecProofs` | reader_lemmas.dfy, codec_proofs.dfy | the round trip |
| `ListReads` | list_reads.dfy | what the list readers return on any input: wire order, and the decoded operation map |
| `DecodeLimits` | decode_limits.dfy | what the decoder refuses |
| `AsWritten` | as_written.dfy | the decoder with the source's tag reader |
| `Truncation` | truncation.dfy | messages cut short are refused |
| `RollState`, `RollStateProofs` | roll_state.dfy, roll_state_proofs.dfy | the speculative roll state |

## Model

| member | source | states |
|---|---|---|
| MessageTypes.ToU32 | massa-network-worker/src/messages.rs:59-72 | every discriminant is below the number of message types, 12 |
| MessageTypes.FromU32 | massa-network-worker/src/messages.rs:272-274 | `try_into` names a type exactly when the value is below 12, and the type it names has that discriminant |
| MessageTypes.TypeIdRoundTrip | massa-network-worker/src/messages.rs:59-72 | each type's discriminant converts back to that type, and no two types share a discriminant |
| Ints.AsU32 | massa-network-worker/src/messages.rs:142 | `as u32` keeps a count below 2^32 and changes every larger one |
| Ints.AsU64 | massa-network-worker/src/messages.rs:119 | `as u64` keeps every length that fits in 64 bits |
| Ints.SaturatingAdd | massa-execution-worker/src/speculative_roll_state.rs:69 | the result is the exact sum or `u64::MAX`, and never above the sum |
| Ints.SaturatingSub | massa-execution-worker/src/speculative_roll_state.rs:91 | the result is the exact difference or 0, and never below it |
| Ints.SaturatingMul | massa-execution-worker/src/speculative_roll_state.rs:93 | the result is the exact product or `u64::MAX`, and never above the product |
| Ints.ToBigEndian | massa-network-worker/src/messages.rs:168 | `to_be_bytes` gives four bytes; `Ints.BigEndianRoundTrip` reads them back as the same `u32` |
| Ints.FromBigEndian | massa-network-worker/src/messages.rs:168-171 | four bytes read as a `u32` and written again are the same four bytes, so distinct tags read as distinct values |
| Ints.BigEndianRoundTrip | massa-network-worker/src/messages.rs:168-171 | the four bytes of `to_be_bytes` read back as the same `u32` |
| VarInt.Encode | massa-network-worker/src/messages.rs:109 | `to_varint_bytes` writes at least one byte; `VarInt.DecodeEncode` reads a written `u32` back and `VarInt.EncodeLengthU32` bounds it to five bytes |
| VarInt.DecodeU32 | massa-network-worker/src/messages.rs:269 | a `u32` varint takes 1 to 5 bytes, one byte below 0x80 is its own value, and an empty buffer is refused as truncated |
| VarInt.DecodeBoundedU32 | massa-network-worker/src/messages.rs:185-186 | the bounded read succeeds exactly when the plain read does and the value is at most the maximum; a larger value is refused with `BoundExceeded(value, max)` |
| VarInt.EncodeLengthU32 | massa-network-worker/src/messages.rs:109 | every `u32` is written in at most five varint bytes |
| VarInt.DecodeEncode | massa-network-worker/src/messages.rs:269-270 | reading back a written `u32` varint gives the value and the number of bytes written, whatever follows |
| VarInt.DecodeStrictPrefix | massa-network-worker/src/messages.rs:269 | a varint cut short is refused as truncated |
| Encoder.ConcatFixed | massa-network-worker/src/messages.rs:110-112 | a list of fixed-width ids takes exactly count × width bytes |
| Encoder.EncodeAll | massa-network-worker/src/messages.rs:120-122 | a list of compact objects encodes exactly when every object does, and a failure is the error of the first object that fails; `ReaderLemmas.ReadCompactListEncoded` reads the result back |
| Encoder.PresenceTag | massa-network-worker/src/messages.rs:166-171 | the presence tag is four bytes |
| Encoder.PresenceTagBigEndian | massa-network-worker/src/messages.rs:168-171 | the tag is `1u32` for a present operation and `0u32` for an absent one, in big-endian order |
| Encoder.EncodeEntry | massa-network-worker/src/messages.rs:164-172 | an entry encodes exactly when it is absent or its operation encodes |
| Encoder.EncodeEntries | massa-network-worker/src/messages.rs:164-173 | the entries encode exactly when every entry does, and a failure is the error of the first entry that fails; `ReaderLemmas.ReadEntriesEncoded` reads the result back |
| Encoder.SerializeOperationOptMap | massa-network-worker/src/messages.rs:159-175 | the map's encoding starts with the varint of its size, truncated to `u32` |
| Encoder.SerializeOperationIds | massa-network-worker/src/messages.rs:208-220 | the encoding fails with a length overflow exactly when there are more than `u32::MAX` ids; otherwise it is the varint count then count × width bytes |
| Encoder.Encode | massa-network-worker/src/messages.rs:76-150 | a message encodes exactly when its payload does; its encoding is the varint of its discriminant followed by the payload; `AskPeerList` is the single byte 5 |
| Encoder.TypeTagByte | massa-network-worker/src/messages.rs:59-72 | every discriminant is below `0x80`, so it is written as one byte |
| Encoder.EncodePayload | massa-network-worker/src/messages.rs:80-146 | `AskPeerList` has an empty payload; `AskForBlocks`, `AskForOperations` and `OperationsBatch` fail with `LengthOverflow` exactly when the list has more than `u32::MAX` items, and otherwise start with the varint of the count, followed for `AskForBlocks` by `width` bytes per id; `PeerList` starts with the count `as u64`, `Endorsements` and `Operations` with the count `as u32`, and these three fail only when an item fails to encode |
| Encoder.AskForBlocksLength | massa-network-worker/src/messages.rs:102-113 | a block request of up to `u32::MAX` ids encodes to one tag byte, the count's varint, and `width` bytes per id |
| Encoder.OversizedCounts | massa-network-worker/src/messages.rs:102-146 | with more than `u32::MAX` items a block request is refused with `LengthOverflow`, while an endorsement list encodes under the count `len % 2^32`, which is not its length |
| Decoder.Skip | massa-network-worker/src/messages.rs:270 | advancing the cursor succeeds exactly when it stays inside the buffer, and a slice past the end is `SliceOutOfRange` |
| Decoder.ReadVarIntU32 | massa-network-worker/src/messages.rs:269-270 | a varint read always consumes at least one byte and never slices past the end |
| Decoder.ReadBoundedU32 | massa-network-worker/src/messages.rs:313-315 | a bounded count is at most its maximum, and a larger count is refused with `BoundExceeded` |
| Decoder.ReadFixed | massa-network-worker/src/messages.rs:279-280 | a fixed-width read takes exactly `width` bytes, returns what `from_bytes` accepted, and is refused as truncated when fewer remain |
| Decoder.ReadNonce | massa-network-worker/src/messages.rs:282-284 | the nonce is the next 32 bytes, refused exactly when fewer remain |
| Decoder.ReadBigEndianU32 | massa-network-worker/src/messages.rs:168 | reading four big-endian bytes fails exactly when fewer than four remain |
| Decoder.ReadCompact | massa-network-worker/src/messages.rs:287-288 | a compact read never grows the input, and with a sound object codec it never slices past the end |
| Decoder.ReadFixedList | massa-network-worker/src/messages.rs:317-322 | `n` ids are read, the `i`-th from the `i`-th `width`-byte slice of the input, and what is left starts right after the `n`-th slice; no slice goes past the end |
| Decoder.OffsetIsProduct | massa-network-worker/src/messages.rs:318-321 | the `i`-th fixed-width slice starts at `i * width` |
| Decoder.ReadCompactList | massa-network-worker/src/messages.rs:332-337 | exactly `n` objects are read, and no slice goes past the end when the codec is sound (wire order: `ListReads.ReadCompactListAt`) |
| Decoder.ReadTag | massa-network-worker/src/messages.rs:192-193 | reading a presence tag consumes at least one byte and never slices past the end |
| Decoder.ReadOptOperation | massa-network-worker/src/messages.rs:192-200 | reading a tag and its optional operation consumes at least one byte |
| Decoder.ReadEntry | massa-network-worker/src/messages.rs:190-200 | reading a map entry consumes at least one byte |
| Decoder.ReadEntries | massa-network-worker/src/messages.rs:189-201 | exactly `n` entries are read (wire order: `ListReads.ReadEntriesAt`) |
| Decoder.InsertAllKeys | massa-network-worker/src/messages.rs:195-199 | after the inserts the map's keys are those it had plus those of the entries |
| Decoder.DeserializeOperationIds | massa-network-worker/src/messages.rs:230-247 | at most `max` ids are returned, and a count above `max` is refused with `BoundExceeded` before any id is read |
| Decoder.DeserializeOperationOptMap | massa-network-worker/src/messages.rs:180-203 | the map has at most `max` keys and at most as many as the count read, and a count above `max` is refused with `BoundExceeded` |
| Decoder.DecodeHandshakeInitiation | massa-network-worker/src/messages.rs:277-296 | the payload reads as a handshake initiation or fails without slicing past the end |
| Decoder.DecodeHandshakeReply | massa-network-worker/src/messages.rs:297-301 | the payload reads as a handshake reply or fails without slicing past the end |
| Decoder.DecodeBlock | massa-network-worker/src/messages.rs:302-306 | the payload reads as a block or fails without slicing past the end |
| Decoder.DecodeBlockHeader | massa-network-worker/src/messages.rs:307-311 | the payload reads as a block header or fails without slicing past the end |
| Decoder.DecodeAskForBlocks | massa-network-worker/src/messages.rs:312-324 | the payload reads as a block request within `max_ask_blocks_per_message` |
| Decoder.DecodePeerList | massa-network-worker/src/messages.rs:326-339 | the payload reads as a peer list within `max_advertise_length` |
| Decoder.DecodeBlockNotFound | massa-network-worker/src/messages.rs:340-344 | the payload reads as a block-not-found message |
| Decoder.DecodeOperations | massa-network-worker/src/messages.rs:345-349 | the payload reads as an operation map within `max_operations_per_message` |
| Decoder.DecodeAskForOperations | massa-network-worker/src/messages.rs:350-354 | the payload reads as an operation request within `max_operations_per_message` |
| Decoder.DecodeOperationsBatch | massa-network-worker/src/messages.rs:355-359 | the payload reads as an operation batch within `max_operations_per_message` |
| Decoder.DecodeEndorsements | massa-network-worker/src/messages.rs:360-375 | the payload reads as an endorsement list within `max_endorsements_per_message` |
| Decoder.DecodePayload | massa-network-worker/src/messages.rs:276-376 | the message read has the type the discriminant named and fits the context |
| Decoder.DecodeWith | massa-network-worker/src/messages.rs:251-379 | a decoded message fits the context, its cursor is within the buffer (see `Decoder.ReadCompact` under "## Left out"), and its discriminant is the one read; an out-of-range discriminant and an unreadable varint are refused; with sound codecs no slice goes past the end |
| ReaderLemmas.ReadVarIntEncoded | massa-network-worker/src/messages.rs:269-270 | a written varint reads back and leaves what follows |
| ReaderLemmas.ReadBoundedEncoded | massa-network-worker/src/messages.rs:313-315 | a written count no larger than the maximum passes the bounded read |
| ReaderLemmas.ReadFixedEncoded | massa-network-worker/src/messages.rs:279-280 | a written fixed-width value reads back and leaves what follows |
| ReaderLemmas.ReadCompactEncoded | massa-network-worker/src/messages.rs:287-288 | a written compact object reads back and leaves what follows |
| ReaderLemmas.ReadFixedListEncoded | massa-network-worker/src/messages.rs:317-322 | a written id list reads back in order |
| ReaderLemmas.ReadCompactListEncoded | massa-network-worker/src/messages.rs:332-337 | a written object list reads back in order |
| ReaderLemmas.ReadPresenceTag | massa-network-worker/src/messages.rs:168-171 | the written tag, read as four big-endian bytes, is 1 for a present operation and 0 for an absent one |
| ReaderLemmas.ReadEntryEncoded | massa-network-worker/src/messages.rs:164-172 | a written map entry reads back, with its operation or its absence |
| ReaderLemmas.ReadEntriesEncoded | massa-network-worker/src/messages.rs:189-201 | the written entries read back in iteration order |
| ReaderLemmas.InsertAllLastWins | massa-network-worker/src/messages.rs:195-199 | after inserting entries in order, a key holds the value of its last entry |
| ListReads.ReadManyAt | massa-network-worker/src/messages.rs:332-337 | when a reader applied `n` times succeeds, its `i`-th value is what the reader gives where the first `i` reads stopped |
| ListReads.FixedListIsMany | massa-network-worker/src/messages.rs:317-322 | the id-list reader is the id reader applied `n` times, each from where the previous stopped |
| ListReads.CompactListIsMany | massa-network-worker/src/messages.rs:332-337 | the object-list reader is the object reader applied `n` times, each from where the previous stopped |
| ListReads.EntriesIsMany | massa-network-worker/src/messages.rs:189-201 | the entry-list reader is the entry reader applied `n` times, each from where the previous stopped |
| ListReads.ReadCompactListAt | massa-network-worker/src/messages.rs:332-337 | on any input, the `i`-th object of a list is the one read where the first `i` stopped: objects come back in wire order |
| ListReads.ReadEntriesAt | massa-network-worker/src/messages.rs:189-201 | on any input, the `i`-th entry is the one read where the first `i` stopped: entries come back in wire order |
| ListReads.DecodedOperationMap | massa-network-worker/src/messages.rs:188-202 | on any input, the decoded map's keys are exactly the ids read, and an id read more than once holds the value of its last entry |
| ReaderLemmas.InsertAllKeeps | massa-network-worker/src/messages.rs:195-199 | a key no entry mentions keeps its value |
| ReaderLemmas.InsertAllEnumeration | massa-network-worker/src/messages.rs:188-202 | inserting an enumeration of a map into an empty map rebuilds that map |
| CodecProofs.ReadNonceEncoded | massa-network-worker/src/messages.rs:282-284 | a nonce reads back and leaves what follows |
| CodecProofs.HandshakeInitiationRoundTrip | massa-network-worker/src/messages.rs:416-448 | a handshake initiation's public key, nonce and version read back exactly |
| CodecProofs.AskForBlocksRoundTrip | massa-network-worker/src/messages.rs:312-324 | a block request within the context reads back exactly |
| CodecProofs.PeerListRoundTrip | massa-network-worker/src/messages.rs:326-339 | a peer list within the context reads back, although its length is written as a `u64` varint and read as a `u32` |
| CodecProofs.OperationIdsRoundTrip | massa-network-worker/src/messages.rs:230-247 | `deserialize_operation_ids` undoes `serialize_operation_ids` for any list within the maximum |
| CodecProofs.OperationsRoundTrip | massa-network-worker/src/messages.rs:180-203 | with the tag read as the four bytes it was written as, the operation-map reader gives back the map and leaves what follows |
| CodecProofs.EndorsementsRoundTrip | massa-network-worker/src/messages.rs:360-375 | an endorsement list within the context reads back exactly |
| CodecProofs.PayloadRoundTrip | massa-network-worker/src/messages.rs:276-376 | for every variant, the payload reader of its type undoes the payload writer |
| CodecProofs.DecodeWithPayload | massa-network-worker/src/messages.rs:269-277 | a decode is the discriminant, then the payload of the type it names, with the cursor after that payload |
| CodecProofs.RoundTrip | massa-network-worker/src/messages.rs:251-379 | decoding the encoding of a message within the context gives the message, and the cursor is the encoding's length, whatever follows |
| DecodeLimits.BoundsMatchContext | massa-network-worker/src/messages.rs:255-267 | each counted message type is checked against its own context maximum, and a message fits the context exactly when its count is within that maximum |
| DecodeLimits.DecodeWithPayloadFailure | massa-network-worker/src/messages.rs:276-376 | a payload error is the decode's error |
| DecodeLimits.PayloadCountRefused | massa-network-worker/src/messages.rs:312-314 | every counted payload fails as soon as its count is refused |
| DecodeLimits.CountAboveBoundRefused | massa-network-worker/src/messages.rs:185-186 | a count above its type's maximum is refused with `BoundExceeded(count, max)`, whatever bytes follow |
| DecodeLimits.UnknownTypeRefused | massa-network-worker/src/messages.rs:272-274 | a discriminant of 12 or more is refused as an unknown type, whatever follows |
| DecodeLimits.EmptyRefused | massa-network-worker/src/messages.rs:269 | an empty buffer is refused as truncated |
| Truncation.BoundedPrefix | massa-network-worker/src/messages.rs:185-186 | a count cut inside its varint is refused as truncated before the bound is checked |
| Truncation.FixedPrefix | massa-network-worker/src/messages.rs:279-280 | a fixed-width value cut short is refused as truncated |
| Truncation.CompactPrefix | massa-network-worker/src/messages.rs:287-288 | a compact object cut short is refused as truncated, given that its codec refuses its own encodings cut short |
| Truncation.FixedListPrefix | massa-network-worker/src/messages.rs:317-322 | a run of ids cut anywhere is refused as truncated |
| Truncation.CompactListPrefix | massa-network-worker/src/messages.rs:332-337 | a run of compact objects cut anywhere is refused as truncated |
| Truncation.EntryPrefix | massa-network-worker/src/messages.rs:190-200 | an operation-map entry cut inside its id, its tag or its operation is refused as truncated, with the tag read as four big-endian bytes |
| Truncation.EntriesPrefix | massa-network-worker/src/messages.rs:189-201 | a run of entries cut anywhere is refused as truncated, with the tag read as four big-endian bytes |
| Truncation.HandshakeInitiationPrefix | massa-network-worker/src/messages.rs:277-296 | a handshake initiation cut inside its key, nonce or version is refused as truncated |
| Truncation.AskForBlocksPrefix | massa-network-worker/src/messages.rs:312-324 | a block request cut inside its count or ids is refused as truncated |
| Truncation.PeerListPrefix | massa-network-worker/src/messages.rs:326-339 | a peer list cut inside its count or addresses is refused as truncated |
| Truncation.OperationIdsPrefix | massa-network-worker/src/messages.rs:230-247 | an operation-id list cut inside its count or ids is refused as truncated |
| Truncation.OperationsPrefix | massa-network-worker/src/messages.rs:345-349 | an operation map cut anywhere is refused as truncated by the intended tag reader |
| Truncation.EndorsementsPrefix | massa-network-worker/src/messages.rs:360-375 | an endorsement list cut inside its count or endorsements is refused as truncated |
| Truncation.PayloadPrefix | massa-network-worker/src/messages.rs:276-376 | for every variant, a strict prefix of its payload is refused as truncated by the payload reader of its type |
| Truncation.CutShortRefused | massa-network-worker/src/messages.rs:251-379 | a message cut before its last byte is refused as truncated by the intended decoder, and by the decoder as written unless it is an `Operations` message |
| AsWritten.PayloadIgnoresTag | massa-network-worker/src/messages.rs:276-376 | only the operation-map payload depends on how the presence tag is read |
| AsWritten.RoundTripAsWritten | massa-network-worker/src/messages.rs:251-379 | the source's decoder round-trips every message except `Operations` |
| AsWritten.TagReadAsAbsent | massa-network-worker/src/messages.rs:192 | the written tag, read as a varint, is 0 after one byte, whether the operation is present or absent |
| AsWritten.EntryReadAsAbsent | massa-network-worker/src/messages.rs:190-195 | a written entry reads as absent and leaves three tag bytes unread |
| AsWritten.EntryMisread | massa-network-worker/src/messages.rs:189-201 | a one-entry list reads as `[(id, None)]` and stops after the first tag byte |
| AsWritten.PresentOperationLost | massa-network-worker/src/messages.rs:192-199 | the source decodes the encoding of `{id: Some(op)}` as `{id: None}`, with the cursor short of the end |
| AsWritten.AbsentOperationCursorShort | massa-network-worker/src/messages.rs:192-193 | the source decodes `{id: None}` correctly but reports a cursor three bytes before the end of the message |
| AsWritten.AbsentEntryMessage | massa-network-worker/src/messages.rs:159-175 | the encoding of `{id: None}` is the discriminant 8, the count 1, the id and the four zero bytes of the tag |
| AsWritten.CutEntryAccepted | massa-network-worker/src/messages.rs:189-195 | as written, the discriminant, the count 1, an id and a single zero byte decode as `{id: None}`, with the cursor at the end |
| AsWritten.CutEntryRefused | massa-network-worker/src/messages.rs:189-195 | the same bytes are refused as truncated when the tag is read as four big-endian bytes |
| AsWritten.TruncatedMessageAccepted | massa-network-worker/src/messages.rs:192-193 | as written, the encoding of `{id: None}` with its last three bytes cut off is accepted as the whole message, while the intended decoder refuses it as truncated |
| RollState.Take | massa-execution-worker/src/speculative_roll_state.rs:40-44 | `take` hands back everything accumulated and leaves nothing behind |
| RollState.GetSnapshot | massa-execution-worker/src/speculative_roll_state.rs:46-49 | a snapshot is an exact copy of the accumulated changes |
| RollState.ResetToSnapshot | massa-execution-worker/src/speculative_roll_state.rs:51-54 | after a reset, the accumulated changes are the snapshot, whatever they were before |
| RollState.AddRolls | massa-execution-worker/src/speculative_roll_state.rs:57-70 | only the buyer's roll count changes; it becomes the accumulated or historical count plus the purchase, capped at `u64::MAX` |
| RollState.SellRolls | massa-execution-worker/src/speculative_roll_state.rs:81-91 | only the seller's roll count changes; it goes down by the sale, stopping at 0, and never rises |
| RollState.RemoveRollsAsWritten | massa-execution-worker/src/speculative_roll_state.rs:73-95 | as written, a slot's credits are set to `{seller: price × count}`, the product saturating at `u64::MAX`, only when the slot had none; otherwise credits are untouched |
| RollState.AddCredit | massa-execution-worker/src/speculative_roll_state.rs:92-94 | the seller's credit at the slot grows by the amount, capped; every other slot and address keeps its credit |
| RollState.RemoveRolls | massa-execution-worker/src/speculative_roll_state.rs:72-95 | the sale lowers the seller's rolls as `SellRolls` does and credits the sale to the seller at the slot |
| RollState.UpdateProductionStats | massa-execution-worker/src/speculative_roll_state.rs:99-116 | a creator with stats gets exactly one success or failure counted, capped, and one seed bit per produced block; a creator without stats changes nothing |
| RollState.SettleSlot | massa-execution-worker/src/speculative_roll_state.rs:121-123 | settling a slot changes nothing in this version |
| RollStateProofs.AddRollsTwice | massa-execution-worker/src/speculative_roll_state.rs:57-70 | two buys by one address are one buy of both counts, saturating |
| RollStateProofs.SellRollsTwice | massa-execution-worker/src/speculative_roll_state.rs:81-91 | two sales by one address are one sale of both counts, saturating |
| RollStateProofs.BuyThenSell | massa-execution-worker/src/speculative_roll_state.rs:57-91 | selling what was just bought, without saturation, restores the starting count |
| RollStateProofs.LaterSellerNotCredited | massa-execution-worker/src/speculative_roll_state.rs:92-94 | as written, when two addresses sell in a fresh slot, the second loses its rolls but is owed nothing |
| RollStateProofs.SaleCredit | massa-execution-worker/src/speculative_roll_state.rs:92-93 | one corrected sale adds `price × count` to the seller's credit, capped at `u64::MAX` |
| RollStateProofs.SellAllCredits | massa-execution-worker/src/speculative_roll_state.rs:72-95 | after any sequence of corrected sales in a slot, each address is owed exactly its own sales, whatever the others sold |
| RollStateProofs.EverySellerCredited | massa-execution-worker/src/speculative_roll_state.rs:92-94 | with the corrected sale, both sellers of the two-seller scenario are credited |
| RollStateProofs.RecordAllSeedBits | massa-execution-worker/src/speculative_roll_state.rs:106-115 | across any sequence of production updates, the creators, rolls and credits are unchanged, and the seed grows by one bit per produced block of a known creator, in order |

## Left out

- The varint routines of the models crate are not part of this model. `VarInt` writes them as strict unsigned LEB128: a `u32` read takes at most five bytes, must fit in 32 bits and must use the minimal encoding. If the crate accepts more, the model's decoder refuses inputs the source accepts.
- The domain objects (keys, signatures, ids, versions, blocks, headers, IP addresses, operations, endorsements) and their codecs are not part of this model. They are opaque types, and their codecs are a `Codecs` parameter. What the message codec needs from them is stated as predicates (`RoundTrips`, `Sound`, `RefusesPrefixes`) that the lemmas require.
- Truncation.CompactPrefix: that a compact object codec refuses its own encodings cut short (`RefusesPrefixes`) is an assumption about codecs outside this model. Without it, a cut version, block, header, address, operation or endorsement could read as a shorter object, and `Truncation.CutShortRefused` would not follow.
- `HashMap` iteration order is unspecified in the source. It is the `entries` parameter of `Codecs`, assumed to list each entry exactly once (`Enumerates`).
- The process-wide serialization context is read through `with_serialization_context`. Here the four maxima are an explicit `Context` parameter.
- The panic of `&buffer[cursor..]` past the end is the error `SliceOutOfRange`. The decoder's contracts prove it never happens when the object codecs are sound.
- Decoder.ReadCompact: the model checks every length a compact codec reports against the bytes it was given, and refuses with `SliceOutOfRange` when the length is too large. The source only adds the length to the cursor, and the check happens at the next `&buffer[cursor..]`. After the last compact read of a message or list there is no next slice, so the source returns `Ok` with a cursor past `buffer.len()`. This affects the version (lines 287-288), the block (303-304), the header (308-309), the last IP address (334-335), the last endorsement (370-371) and the last operation of a map (197-198). So `Decoder.DecodeWith`'s promise that the cursor stays within the buffer holds for the source only when the codecs are sound. With sound codecs (`Collaborators.Sound`) the length never exceeds the input, and the model and the source agree.
- `ModelsError` messages are replaced by the `CodecError` variants. The text of the errors is not modelled.
- `usize` overflow of the cursor is not modelled: buffers are unbounded sequences.
- `HashMap::with_capacity` and `Vec::with_capacity` allocations are not modelled. Only the bound check that precedes them is.
- The random nonce and key of `test_ser_deser` become arbitrary values: `CodecProofs.RoundTrip` holds for every handshake.
- Encoder.SerializeOperationOptMap: the `as u32` count truncation for maps of more than 2^32 entries is modelled as written. The round trip is proved only for messages within the context, whose maxima are `u32` values, so the truncation never takes effect there.
- Encoder.EncodePayload: the `endorsements.len() as u32` truncation is modelled as written, with the same restriction to messages within the context.
- `SpeculativeRollState::new`, the selector field and the `RwLock` around the history are not modelled. `RollState.Empty` is the default `PoSChanges`.
- `ActiveHistory::fetch_roll_count` is not part of this model. It becomes the `History` parameter, a lookup from address to optional roll count.
- `Slot::get_first_bit` is not part of this model. It is the `firstBit` parameter.
- `Amount` is its raw `u64` unit, and `saturating_mul_u64` is `Ints.SaturatingMul`.
- `PoSChanges` is defined outside these files. It is given the four fields these methods touch: seed bits, roll changes, production stats and deferred credits.

## Findings

| source | as written | input that shows it | evidently intended | confidence | as-written member | corrected member |
|---|---|---|---|---|---|---|
| massa-network-worker/src/messages.rs:192 | The encoder writes the presence tag of each operation-map entry as the four big-endian bytes of `1u32` or `0u32` (lines 168 and 171). The decoder reads it back with `u32::from_varint_bytes`, which reads the first byte, always 0, as "absent". | The `Operations` message `{id: Some(op)}` decodes as `{id: None}`. The cursor stops after the first tag byte, leaving three tag bytes and the operation unread. `{id: None}` decodes right but with the cursor three bytes short of the end. The same encoding with its last three bytes cut off is accepted as the whole message. | Read the tag as the four big-endian bytes it was written as, so that every message round-trips. | not executed | Decoder.DecodeAsWritten, AsWritten.PresentOperationLost, AsWritten.AbsentOperationCursorShort, AsWritten.TruncatedMessageAccepted | Decoder.Decode, CodecProofs.RoundTrip, Truncation.CutShortRefused |
| massa-execution-worker/src/speculative_roll_state.rs:92-94 | `remove_rolls` builds a one-entry map `{seller: price × count}` and stores it with `deferred_credits.entry(slot).or_insert(a)`. When the slot already has credits, the map is dropped. | Address A sells n rolls in a fresh slot, then address B sells m rolls in the same slot. B's rolls go down by m, but B is owed nothing at that slot. A second sale by A in the slot is not credited either. | Add the sale's price to the seller's credit at that slot, creating the entries when missing. | not executed | RollState.RemoveRollsAsWritten, RollStateProofs.LaterSellerNotCredited | RollState.RemoveRolls, RollStateProofs.EverySellerCredited |
