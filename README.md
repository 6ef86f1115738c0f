# Tesla BLE body-controller-state stack, modelled in Dafny

This project models the byte-level core of a MicroPython client for Tesla's
Bluetooth LE protocol. The client asks a vehicle for its body-controller state
(doors, trunks, lock, sleep, user presence) without authentication. The model
covers:

- **Parser**: the hand-rolled protobuf subset decoder (`_read_varint`,
  `_parse_field`, `_parse_message_fields`) and `parse_body_controller_state`.
  The parser handles two response shapes, fills closures with a CLOSED default,
  and uses inverted enum tables.
- **VehicleStates**: the `VehicleState` accumulator, with eleven optional
  readings, a merge that never erases a reading and returns a change set, and
  three-valued door and lock queries.
- **Client**: the `MinimalTeslaClient`. It frames the 52-byte request, cuts it
  into 20-byte BLE writes, reassembles a response from a list of notification
  events, keeps a device cache, and parses a response before merging it.
- **ResponseValidator**: the structural response validator and the byte diff of
  two responses.
- **MessageSigning**: the signing-path encoders (varint, length-delimited,
  signature data, routable message) and the `MessageSigner` with its counter.
  HMAC is a function parameter.
- **Handshake**: the handshake request, the routing address, the reassembly of
  the SessionInfo response from stored packets, and the SessionInfo walker,
  which reads one-byte tags and lengths.
- **ConsistencyAnalyzer**: the per-position partition of equal-length
  responses and the extraction of contiguous variable regions.
- **Diagnostics**: the diagnostic helpers. These are the capped varint reader,
  the "looks like protobuf" heuristic, the structure walk of `analyze`, the
  difference count and line layout of `compare_messages`, and the line layout
  of `hex_dump`.
- **ProtoBase**: the dictionary-backed `ProtobufMessage` field store with
  attribute routing, plus `create_message_from_dict` and `message_to_dict`.

Each source file is one module. `Wrappers` (Option, Result) and `Bytes` (the
byte type, concatenation, Python slices, `ustruct` packing, chunking) are shared.

Code that loops or updates state in the source is a `method` or a `class` here.
Each is proved equal to a specification function, and the properties are lemmas
about those functions:

- `ReadVarint` against `VarintAt`;
- `ParseMessageFields` against `MessageFields`;
- `ParseBodyControllerState` against `BodyControllerStatus`;
- `UpdateFromResponse` against `Merge` and `ChangeSet`;
- `ParseSessionInfo` against `SessionInfoOf`;
- `CompareMessages` against `Comparison`.

Python exceptions on the modelled paths become `Err` values:

- `ValueError` from a failed varint or field read;
- a `TypeError` where an integer reaches `len()`;
- `ValueError` from `bytes([n])` for a length or domain that does not fit a byte;
- `ConnectionError` from a refused write;
- `TimeoutError` when no response arrives.

The source's integer widths appear where they matter:

- `'>H'` and `'<I'` packing keeps the low-order 16 and 32 bits (MicroPython's `ustruct` does not range-check), so a longer message or an expiry outside 32 bits packs modulo 2^16 or 2^32;
- `bytes([n])` fails outside 0..255;
- the SessionInfo reassembly reads a 16-bit header;
- the diagnostics varint reader stops after eleven bytes.

The model follows the bytes the code writes, not the comments beside them:

- **Fields 51 and 52, not 19 and 20.** The request's `9a 03` and `a0 03` tags
  are the varints 410 and 416, i.e. fields 51 and 52. The comments call them 19
  and 20.
- **The handshake's tail is one field.** Its fourteen "flags" and "signature"
  bytes are the tail of field 51's 16-byte payload.

## Model

| member | source | states |
|---|---|---|
| Bytes.PackU16BE | lib/tesla_ble/handshake.py:50-52 | `ustruct.pack('>H', n)` is two bytes that read back big-endian as n mod 2^16, hence as n itself for 0 <= n < 65536 |
| Bytes.U16BERoundTrip | lib/tesla_ble/handshake.py:119 | any two bytes unpack to a value below 2^16 that packs back to the same two bytes |
| Bytes.PackU32LE | lib/tesla_ble/message_signer.py:59-60 | `ustruct.pack('<I', n)` is four bytes that read back little-endian as n mod 2^32, hence as n itself for 0 <= n < 2^32 |
| Bytes.U32LERoundTrip | lib/tesla_ble/handshake.py:212 | any four bytes unpack to a value below 2^32 that packs back to the same four bytes |
| Bytes.ByteOf | lib/tesla_ble/message_signer.py:53 | `bytes([n])` succeeds exactly for 0 <= n < 256 |
| Bytes.Slice | lib/tesla_ble/parser.py:95-99 | a Python slice `s[lo:hi]` is clamped to the data: its length is min(hi, len) - lo (or 0), and its bytes are those of s from lo |
| Bytes.ChunksJoin | lib/tesla_ble/client.py:670-688 | the chunks `data[i:i+size]` for i = 0, size, 2·size, … concatenate back to the data |
| Bytes.ChunksSizes | lib/tesla_ble/client.py:670-688 | there are ⌈len/size⌉ chunks, each of 1..size bytes, and all but the last are full |
| Parser.VarintFrom | lib/tesla_ble/parser.py:53-73 | a successful varint read ends strictly after its offset and within the data |
| Parser.VarintFromFirstTerminator | lib/tesla_ble/parser.py:53-73 | the value is the little-endian decoding, in 7-bit groups, of the bytes up to and including the first byte without bit 0x80, and the read ends just after that byte |
| Parser.VarintFromNone | lib/tesla_ble/parser.py:53-73 | the read fails (ValueError) exactly when every byte from the offset has bit 0x80 set; no cap limits the number of groups |
| Parser.VarintAt | lib/tesla_ble/parser.py:53-73 | `_read_varint` returns a new offset greater than the offset it started at |
| Parser.ReadVarint | lib/tesla_ble/parser.py:53-73 | the shift-and-or loop computes exactly the varint reading, errors included |
| Parser.ParseField | lib/tesla_ble/parser.py:76-102 | a successful field read moves strictly forward |
| Parser.ParseFieldVarint | lib/tesla_ble/parser.py:86-94 | a tag with wire type 0 yields field number tag>>3 and the following varint, ending after it |
| Parser.ParseFieldBytes | lib/tesla_ble/parser.py:95-99 | a tag with wire type 2 yields the clamped slice of the announced length, and the new offset is offset + length even when that overruns the data |
| Parser.WalkIsConsecutive | lib/tesla_ble/parser.py:105-121 | every walked field is read at the offset where the previous one ended, and the walk stops only at the end of the data or at the first field whose read fails |
| Parser.WalkStep | lib/tesla_ble/parser.py:111-121 | a failing field ends the walk with what was decoded so far, and a successful one is followed by the walk from its end |
| Parser.FieldMapLastWins | lib/tesla_ble/parser.py:111-121 | a number is in the field dictionary exactly when some walked field has it, and its value is the value of the last such field |
| Parser.ParseMessageFields | lib/tesla_ble/parser.py:105-121 | the loop with its early break builds exactly that dictionary and never fails |
| Parser.ParseBodyControllerState | lib/tesla_ble/parser.py:124-317 | returns a fresh VehicleState whose readings are the interpretation of the response, or the error the source raises |
| Parser.ParseErrorCases | lib/tesla_ble/parser.py:139-173 | "empty" exactly for an empty response; "missing field 10" exactly when the outer message lacks field 10; "missing vehicle status" exactly when field 10's message has neither field 1 nor field 3 |
| Parser.ShapeIsVisible | lib/tesla_ble/parser.py:163-173 | when inner field 1 is present it takes precedence (all eight closures reported, door queries decided); otherwise the field-3 shape leaves every closure unreported |
| Parser.DirectShapeReportsClosures | lib/tesla_ble/parser.py:182-241 | the field-1 shape reports all eight closures, so `all_doors_closed` is never None for it |
| Parser.ClosureTableInverted | lib/tesla_ble/parser.py:23-31 | a closure is OPEN exactly when its field holds the varint 1, and CLOSED exactly when the field is absent or holds 2 |
| Parser.ReadClosures | lib/tesla_ble/parser.py:185-241 | the eight closure readings: CLOSED by default, overridden by each present field through the closure table; field 5 is the rear trunk and field 6 the front trunk |
| Parser.ReadDirectLock | lib/tesla_ble/parser.py:246-259 | the lock reading of the field-1 shape, as computed by the nested conditionals |
| Parser.DirectLockFallback | lib/tesla_ble/parser.py:246-259 | LOCKED exactly for a varint field 2 holding 1, or no field 2 and a varint field 7 holding 0; when field 2 is present, field 7 is never consulted |
| Parser.ReadDirectShape | lib/tesla_ble/parser.py:182-271 | reads the eleven readings of the field-1 shape, or reports the TypeError of a varint where the closure message belongs |
| Parser.FillDirectShape | lib/tesla_ble/parser.py:182-271 | the fresh state's snapshot becomes the field-1 interpretation |
| Parser.FillBlobShape | lib/tesla_ble/parser.py:273-315 | the fresh state's snapshot becomes the field-3 interpretation: closures stay None; lock from field 2 or nested field 3; sleep from field 3; presence from field 4 |
| Parser.BlobPresenceOneByte | lib/tesla_ble/parser.py:308-315 | in the field-3 shape, PRESENT exactly for a varint field 4 holding 2 or a one-byte length-delimited field 4 holding 2 |
| Parser.DecodeLockedAsleep | lib/tesla_ble/parser.py:124-271 | a concrete 8-byte response decodes to all closures CLOSED, LOCKED, ASLEEP, presence unreported |
| Parser.DirectPath | lib/tesla_ble/parser.py:145-199 | a response whose field 10 holds a message whose field 1 holds the status is read through the field-1 shape |
| VehicleStates.Status.With | lib/tesla_ble/vehicle_state.py:133-134 | `setattr` changes the named reading and no other |
| VehicleStates.Status.AllDoorsClosed | lib/tesla_ble/vehicle_state.py:46-66 | None exactly when some door is None; otherwise true exactly when all four doors are CLOSED |
| VehicleStates.Status.AnyDoorsOpen | lib/tesla_ble/vehicle_state.py:67-86 | None exactly when some door is None; otherwise true exactly when some door is OPEN |
| VehicleStates.Status.IsLocked | lib/tesla_ble/vehicle_state.py:139-150 | None exactly when the lock state is None; otherwise true exactly for LOCKED or INTERNAL_LOCKED |
| VehicleStates.Merge | lib/tesla_ble/vehicle_state.py:124-134 | each merged reading is the incoming one when reported and the current one otherwise |
| VehicleStates.MergeLaws | lib/tesla_ble/vehicle_state.py:123-136 | a None incoming reading never changes a field; a reported one always ends up in place; the change set holds exactly the fields whose value changed, each as (old, new) |
| VehicleStates.MergeUnreported | lib/tesla_ble/vehicle_state.py:123-128 | merging an all-None state changes nothing and returns an empty change set |
| VehicleStates.MergeIdempotent | lib/tesla_ble/vehicle_state.py:124-134 | merging the same snapshot a second time changes nothing and returns an empty change set |
| VehicleStates.DoorsStayDecided | lib/tesla_ble/vehicle_state.py:46-86 | once the doors are decided on either side of a merge, both door queries are decided after it |
| VehicleStates.DoorQueriesAgree | lib/tesla_ble/vehicle_state.py:46-86 | the two door queries are None together, and all-closed implies none-open |
| VehicleStates.VehicleState.constructor | lib/tesla_ble/vehicle_state.py:29-44 | a fresh state has all eleven readings None |
| VehicleStates.VehicleState.Set | lib/tesla_ble/vehicle_state.py:133-134 | the named field takes the value, and the other ten keep theirs |
| VehicleStates.VehicleState.UpdateFromResponse | lib/tesla_ble/vehicle_state.py:87-136 | the field loop leaves the merged snapshot and returns the change set of that merge |
| Client.RequestLayout | lib/tesla_ble/client.py:592-645 | the request is 52 bytes: a header saying 50, then `32 02 08 02`, `3a 12 12 10`, the routing address, `9a 03 10`, the uuid, `a0 03 02`, `52 02 0a 00` |
| Client.RequestEncoding | lib/tesla_ble/client.py:609-639 | the payload is exactly the protobuf encoding of its five fields in order |
| Client.RequestDecodes | lib/tesla_ble/client.py:609-639 | the parser reads the payload back as destination domain 2, the routing address, uuid field 51, flags field 52 = 2, and field 10 |
| Client.RoutingAddressDecodes | lib/tesla_ble/client.py:615-620 | the from-destination reads back as the routing address in field 2 |
| Client.FlagsField | lib/tesla_ble/client.py:630-634 | the bytes `a0 03 02` are the varint field 52 holding 2 |
| Client.ReceivedIsFirstCompletePrefix | lib/tesla_ble/client.py:748-829 | a received message consists of the first accepted notifications in order, with only the first trimmed, and stops at the first prefix that meets the completion rule |
| Client.CollectFrom | lib/tesla_ble/client.py:748-829 | the same, for the loop resumed after any packets already kept |
| Client.NothingAcceptedTimesOut | lib/tesla_ble/client.py:733-810 | when no notification is accepted (all None, sentinel or timed out), the receive fails with a timeout |
| Client.ReceivedShape | lib/tesla_ble/client.py:776-835 | a received message is `0x32` followed by the concatenated kept packets, and all but the last of them hold fewer than 100 bytes |
| Client.ChooseDevice | lib/tesla_ble/client.py:219-244 | a given address wins; otherwise the cached address is used exactly when the cache is valid and no scan is forced; otherwise a scan |
| Client.WriteChunks | lib/tesla_ble/client.py:670-688 | the chunk loop writes the chunks in order and stops at the first refused write |
| Client.RequestTakesThreeWrites | lib/tesla_ble/client.py:648-688 | the 52-byte request takes three writes of 20, 20 and 12 bytes |
| Client.MinimalTeslaClient.constructor | lib/tesla_ble/client.py:98-110 | a new client is disconnected, with no device, no cache and no accumulator |
| Client.MinimalTeslaClient.IsConnected | lib/tesla_ble/client.py:504-512 | connected exactly when the connection and both characteristics are all present |
| Client.MinimalTeslaClient.IsCacheValid | lib/tesla_ble/client.py:143-163 | valid at `now` exactly when an address and a timestamp are cached and less than the cache timeout has elapsed since the timestamp |
| Client.MinimalTeslaClient.CacheDevice | lib/tesla_ble/client.py:143-178 | after caching at time t, the cache is valid at a later time exactly when less than the timeout has elapsed; connection state is untouched |
| Client.MinimalTeslaClient.CompleteConnection | lib/tesla_ble/client.py:423-425 | a completed connection holds a fresh all-None VehicleState and keeps the cache |
| Client.MinimalTeslaClient.Disconnect | lib/tesla_ble/client.py:551-560 | disconnecting clears the connection, both characteristics and the device, and keeps the cache and the accumulated state |
| Client.MinimalTeslaClient.SendFragmented | lib/tesla_ble/client.py:648-688 | not connected: ConnectionError and nothing written; otherwise the chunks in order, up to the first refused write, which raises |
| Client.MinimalTeslaClient.SendBodyControllerStateRequest | lib/tesla_ble/client.py:837-897 | sends the request and receives and parses the response; merges into the accumulator only after a successful parse; any failure leaves the accumulator untouched |
| Client.MinimalTeslaClient.ReceiveMessage | lib/tesla_ble/client.py:693-835 | not connected: error; otherwise the reassembly of the event list |
| ResponseValidator.Validate | lib/tesla_ble/response_validator.py:45-105 | non-bytes input gives one error and no other check. Otherwise: length valid iff 35..100; prefix match iff the first 4 bytes are `32 12 12 10`; suffix match iff the last 18 bytes are the expected suffix; routing address = bytes 4..20 iff len >= 20; valid iff no error, errors in check order |
| ResponseValidator.ValidateResponse | lib/tesla_ble/response_validator.py:29-105 | the check-by-check dictionary updates give exactly that result |
| ResponseValidator.ExpectedShapeIsValid | lib/tesla_ble/response_validator.py:19-26 | prefix, 16-byte routing address, any middle and the suffix, within the length bounds, validate with no errors and that routing address |
| ResponseValidator.ShortResponseErrors | lib/tesla_ble/response_validator.py:62-103 | a response under 4 bytes collects the three "too short" errors in order |
| ResponseValidator.ByteDiffsExact | lib/tesla_ble/response_validator.py:176-185 | for equal lengths the differences are exactly the positions where the bytes differ, ascending, each with both bytes |
| ResponseValidator.ByteDiffsSound | lib/tesla_ble/response_validator.py:176-180 | each listed difference is a real one, and positions ascend |
| ResponseValidator.ByteDiffsComplete | lib/tesla_ble/response_validator.py:176-180 | every differing position is listed |
| ResponseValidator.Compare | lib/tesla_ble/response_validator.py:136-186 | identical only for equal inputs, and equal inputs are identical; unequal lengths or a non-bytes input give a single difference entry (the message) and a count of 0; for equal lengths, identical iff no difference and count = number of differences |
| ResponseValidator.CompareResponses | lib/tesla_ble/response_validator.py:136-186 | the comparison loop computes exactly that comparison |
| ConsistencyAnalyzer.Range | lib/tesla_ble/consistency_analyzer.py:44 | `list(range(n))` is 0..n-1 in order |
| ConsistencyAnalyzer.FirstNotBytes | lib/tesla_ble/consistency_analyzer.py:49-52 | the index reported is the first non-bytes element, or every element is bytes |
| ConsistencyAnalyzer.Analysis | lib/tesla_ble/consistency_analyzer.py:29-85 | counts the responses; none: no length and no positions; one: consistent positions 0..len-1 with no type check; an error leaves both lists empty; lengths consistent iff one response or all bytes of one length |
| ConsistencyAnalyzer.AnalyzeConsistency | lib/tesla_ble/consistency_analyzer.py:13-85 | the loops compute exactly that analysis |
| ConsistencyAnalyzer.AllSameAt | lib/tesla_ble/consistency_analyzer.py:70-73 | a position is consistent iff every response has the first response's byte there |
| ConsistencyAnalyzer.PositionsExact | lib/tesla_ble/consistency_analyzer.py:68-76 | each position list is ascending and holds exactly the positions of its kind |
| ConsistencyAnalyzer.PositionsCount | lib/tesla_ble/consistency_analyzer.py:68-79 | the two lists together have as many entries as there are positions |
| ConsistencyAnalyzer.PositionsPartition | lib/tesla_ble/consistency_analyzer.py:64-79 | consistent and variable positions are ascending and partition [0, n) |
| ConsistencyAnalyzer.AnalysisPartition | lib/tesla_ble/consistency_analyzer.py:54-79 | for two or more equal-length responses the result is length-consistent with that common length, no error, and the two lists partition [0, length) by agreement |
| ConsistencyAnalyzer.AnalysisNotBytes | lib/tesla_ble/consistency_analyzer.py:49-52 | with two or more responses, the first non-bytes element is reported and nothing else is computed |
| ConsistencyAnalyzer.AnalysisDifferentLengths | lib/tesla_ble/consistency_analyzer.py:54-61 | unequal lengths report the set of lengths, with the first length as common length |
| ConsistencyAnalyzer.Insert | lib/tesla_ble/consistency_analyzer.py:137 | inserting adds exactly one element |
| ConsistencyAnalyzer.Sort | lib/tesla_ble/consistency_analyzer.py:137 | `sorted` is a permutation |
| ConsistencyAnalyzer.SortAscending | lib/tesla_ble/consistency_analyzer.py:137 | `sorted` is ascending and a permutation |
| ConsistencyAnalyzer.SortOfAscending | lib/tesla_ble/consistency_analyzer.py:137 | sorting an ascending list leaves it as it is |
| ConsistencyAnalyzer.Runs | lib/tesla_ble/consistency_analyzer.py:133-152 | there are no regions exactly when there are no positions |
| ConsistencyAnalyzer.RunsCover | lib/tesla_ble/consistency_analyzer.py:136-152 | for increasing positions, the regions are separated by at least one gap and their union is exactly the position set |
| ConsistencyAnalyzer.IdentifyVariableRegions | lib/tesla_ble/consistency_analyzer.py:124-152 | the start/prev loop computes exactly the runs of the sorted positions |
| ConsistencyAnalyzer.RegionsOfAnalysis | lib/tesla_ble/consistency_analyzer.py:124-152 | the regions of an analysis cover exactly the variable positions, are separated, and are empty iff every position is consistent |
| MessageSigning.Varint | lib/tesla_ble/message_signer.py:144-151 | the encoding is never empty |
| MessageSigning.EncodeVarint | lib/tesla_ble/message_signer.py:144-151 | the `while value > 0x7f` loop computes exactly the encoding |
| MessageSigning.VarintSmall | lib/tesla_ble/message_signer.py:147-151 | a value under 128 is its own single byte |
| MessageSigning.VarintShape | lib/tesla_ble/message_signer.py:144-151 | every byte but the last has bit 0x80 and the last has not; the encoding is one byte iff the value is at most 127 |
| MessageSigning.VarintRoundTrip | lib/tesla_ble/message_signer.py:144-151 | the parser's varint reader reads an encoded non-negative value back and consumes exactly its bytes |
| MessageSigning.VarintLengthBound | lib/tesla_ble/message_signer.py:144-151 | a value below 2^(7k) takes at most k bytes |
| MessageSigning.EncodeLengthDelimited | lib/tesla_ble/message_signer.py:153-160 | both branches give the varint of the length followed by the data |
| MessageSigning.DecodeEncodedFields | lib/tesla_ble/message_signer.py:144-160 | the parser walks an encoding of fields back to exactly those fields |
| MessageSigning.MessageFieldsOfEncoded | lib/tesla_ble/message_signer.py:144-160 | the parser's dictionary of an encoding is the dictionary of its fields, later numbers winning |
| MessageSigning.SignatureDataDecodes | lib/tesla_ble/message_signer.py:52-67 | fails only for an epoch over 255 bytes; the parser reads back epoch and counter, stops at the fixed32 tag, and the last four bytes hold the expiry modulo 2^32 |
| MessageSigning.SignatureDataLayout | lib/tesla_ble/message_signer.py:52-67 | the signature data is `0a len epoch 10 varint(counter) 1d LE32(expiry)` |
| MessageSigning.FixedTagStopsWalk | lib/tesla_ble/message_signer.py:59-60 | the fixed32 tag 0x1d is refused by the field reader, ending the walk |
| MessageSigning.TruncateTag | lib/tesla_ble/message_signer.py:108-110 | the tag is cut to 16 bytes exactly for domain 2 |
| MessageSigning.HmacDataExtendsSignatureData | lib/tesla_ble/message_signer.py:113-122 | the signature block of `sign_message` is `create_signature_data`'s output followed by the tag as field 4, failing on the same inputs |
| MessageSigning.RoutableMessageDecodes | lib/tesla_ble/message_signer.py:124-142 | fails only for a domain or block that does not fit a byte; the header holds the length of what follows modulo 2^16; the parser reads back destination, command and signature block |
| MessageSigning.RoutableLayout | lib/tesla_ble/message_signer.py:128-142 | for one-byte domain and block lengths, the routable message after its header is `32 02 08 domain`, `52` plus the length-delimited command, and `6a len` plus the signature block |
| MessageSigning.MessageSigner.constructor | lib/tesla_ble/message_signer.py:14-29 | the signer holds the session values it was given |
| MessageSigning.MessageSigner.AdjustedTime | lib/tesla_ble/message_signer.py:31-33 | the vehicle-clock time plus the stored clock delta gives back the local clock reading |
| MessageSigning.MessageSigner.CreateSignatureData | lib/tesla_ble/message_signer.py:40-67 | for the signer's epoch and current counter: succeeds exactly for an epoch under 256 bytes, whatever the expiry; for a short epoch the parser reads back epoch (field 1) and counter (field 2), and the last four bytes hold the expiry modulo 2^32 little-endian |
| MessageSigning.MessageSigner.IncrementCounter | lib/tesla_ble/message_signer.py:35-38 | the counter goes up by exactly one, and the new value is returned |
| MessageSigning.MessageSigner.SignMessage | lib/tesla_ble/message_signer.py:69-142 | advances the counter exactly once, then builds the HMAC input, the truncated tag, the signature block and the length-prefixed routable message for that counter and an expiry 30 seconds ahead |
| Handshake.CreateHandshakeMessage | lib/tesla_ble/handshake.py:11-54 | the header holds the payload length modulo 2^16 (the length itself when it fits 16 bits) and the payload is the fixed layout around key and routing address |
| Handshake.HandshakeMessageLength | lib/tesla_ble/handshake.py:26-54 | a 65-byte key and a 16-byte routing address give 114 bytes with header `00 70` (112) |
| Handshake.HandshakeEncoding | lib/tesla_ble/handshake.py:26-48 | the hand-written payload bytes are exactly the protobuf encoding of its four fields in order |
| Handshake.HandshakePayloadDecodes | lib/tesla_ble/handshake.py:26-48 | the parser reads the payload as destination, routing address, session-info request holding the key, and a 16-byte field 51 |
| Handshake.WordBytes | lib/tesla_ble/handshake.py:64 | `to_bytes(4, 'big')` gives four bytes whose big-endian value is the word |
| Handshake.GenerateRoutingAddress | lib/tesla_ble/handshake.py:57-68 | the address is always 16 bytes: the four random words big-endian, or the fixed fallback |
| Handshake.Stored | lib/tesla_ble/handshake.py:101-108 | no stored packet is empty or the `22 01 01` sentinel |
| Handshake.StorePackets | lib/tesla_ble/handshake.py:101-108 | the collection loop stores exactly the truthy non-sentinel notifications, in order |
| Handshake.ReassembleFirstComplete | lib/tesla_ble/handshake.py:116-130 | a message is found iff some packet starting with 0x00, with length L in 1..1024, has at least L+2 bytes from it on. The first such packet is used, bytes [2, L+2) are returned, and L is at most 255 |
| Handshake.Reassemble | lib/tesla_ble/handshake.py:116-130 | the nested search loop computes exactly that reassembly |
| Handshake.ReceiveSessionInfo | lib/tesla_ble/handshake.py:87-130 | None when nothing was stored, otherwise the reassembly of the stored packets |
| Handshake.LooseVarint | lib/tesla_ble/handshake.py:180-189 | the inner varint loop always advances unless at the end, and never past the data |
| Handshake.LooseVarintValue | lib/tesla_ble/handshake.py:180-189 | its value is the 7-bit little-endian reading of exactly the bytes consumed, up to the first terminator or the end |
| Handshake.LooseVarintAgrees | lib/tesla_ble/handshake.py:218-227 | where a complete varint is present, the loose reading agrees with the parser's varint reader |
| Handshake.ReadLooseVarint | lib/tesla_ble/handshake.py:180-189 | the shift-and-or loop computes exactly that reading |
| Handshake.InnerStep | lib/tesla_ble/handshake.py:175-215 | every pass of the inner loop advances |
| Handshake.OuterStep | lib/tesla_ble/handshake.py:156-227 | every pass of the outer loop advances, so the walk terminates without raising |
| Handshake.ParseSessionInfo | lib/tesla_ble/handshake.py:133-229 | the index walk computes exactly the SessionInfo of the message |
| Handshake.ReadSessionInfoFields | lib/tesla_ble/handshake.py:171-215 | the inner index walk over field 15 computes exactly the inner walk |
| Handshake.NoSessionInfoTagEmpty | lib/tesla_ble/handshake.py:153-169 | a message without the byte 0x7a (field 15, wire type 2) parses to no keys at all |
| Handshake.NoSessionInfoTagNoFields | lib/tesla_ble/handshake.py:153-227 | from any position, the outer walk over a message without the byte 0x7a leaves the collected values as they were |
| Handshake.InnerVarintField | lib/tesla_ble/handshake.py:180-195 | varint fields 1, 5 and 6 set counter, status and handle to their value |
| Handshake.InnerBytesField | lib/tesla_ble/handshake.py:197-207 | bytes fields 2 and 3 set the vehicle key and epoch to their one-byte-length payload |
| Handshake.InnerClockField | lib/tesla_ble/handshake.py:209-215 | fixed32 field 4 sets the clock time to the little-endian value of its four bytes |
| Handshake.SessionInfoField | lib/tesla_ble/handshake.py:161-217 | a message holding one field 15 yields what the inner walk reads from its payload |
| Handshake.SessionInfoRoundTrip | lib/tesla_ble/handshake.py:133-229 | a message whose session info holds all six fields parses to exactly those six values |
| Diagnostics.CappedCount | lib/tesla_ble/diagnostics.py:285-297 | the reader takes at most 11 bytes, never past the data, and at least one when any is left |
| Diagnostics.CappedVarint | lib/tesla_ble/diagnostics.py:274-299 | never fails; reads 0 bytes exactly when the offset is at or past the end, otherwise at most 11 and within the data |
| Diagnostics.CappedCountShape | lib/tesla_ble/diagnostics.py:285-297 | the reader stops at the first byte without bit 0x80, at the end of the data or at the eleventh byte |
| Diagnostics.CappedAgrees | lib/tesla_ble/diagnostics.py:285-292 | when a terminator lies within 11 bytes, the capped reading equals the parser's varint, value and length |
| Diagnostics.ReadCappedVarint | lib/tesla_ble/diagnostics.py:274-299 | the loop computes exactly the capped reading |
| Diagnostics.LooksLikeProtobuf | lib/tesla_ble/diagnostics.py:307-337 | true exactly when the data is non-empty, the first byte's field number is non-zero, its wire type is 0, 1, 2 or 5, and, for wire type 2 with at least two bytes, the length byte does not exceed the bytes after it; false for empty data, field number 0, wire types 3, 4, 6, 7 and an overrunning length byte |
| Diagnostics.EncodedFieldLooksLikeProtobuf | lib/tesla_ble/diagnostics.py:307-337 | an encoded field with a number in 1..15 looks like protobuf, whatever follows |
| Diagnostics.VarintFieldLooksLikeProtobuf | lib/tesla_ble/diagnostics.py:314-337 | an encoded varint field with number 1..15 looks like protobuf |
| Diagnostics.BytesFieldLooksLikeProtobuf | lib/tesla_ble/diagnostics.py:314-337 | an encoded length-delimited field with number 1..15 looks like protobuf, since its length byte never overruns the data |
| Diagnostics.AnalysisOf | lib/tesla_ble/diagnostics.py:29-30 | the "(empty)" entry exactly for empty data |
| Diagnostics.FieldStep | lib/tesla_ble/diagnostics.py:36-133 | each pass gives one entry, and either stops the walk or moves forward within the data |
| Diagnostics.Analyze | lib/tesla_ble/diagnostics.py:18-138 | the field loop, recursing into nested messages, computes exactly the structure |
| Diagnostics.AnalyzeField | lib/tesla_ble/diagnostics.py:41-133 | one loop pass computes exactly that step |
| Diagnostics.EntriesOf | lib/tesla_ble/diagnostics.py:59-123 | one entry per field, in order |
| Diagnostics.AnalysisOfEncoded | lib/tesla_ble/diagnostics.py:29-133 | the structure of an encoding of displayable fields is one entry per field, in order |
| Diagnostics.EncodedFieldsEntries | lib/tesla_ble/diagnostics.py:36-133 | the field loop over any encoding of displayable fields yields one entry per field, from the start of the data |
| Diagnostics.CompareMessages | lib/tesla_ble/diagnostics.py:192-269 | the line and position loops compute the lengths, the length difference, the offsets of the lines shown and the difference count |
| Diagnostics.CompareLine | lib/tesla_ble/diagnostics.py:219-229 | one line adds the number of differing positions in it, and flags it iff any differs |
| Diagnostics.DiffCountRange | lib/tesla_ble/diagnostics.py:215-229 | the count grows with the range, strictly iff a differing position lies in between |
| Diagnostics.DiffCountZero | lib/tesla_ble/diagnostics.py:264-267 | the count is zero iff no position below the bound differs |
| Diagnostics.IdenticalIffEqual | lib/tesla_ble/diagnostics.py:209-267 | "Messages are identical" is reported exactly when the two messages are equal |
| Diagnostics.DiffLinesShape | lib/tesla_ble/diagnostics.py:218-233 | the lines shown are lines with a difference, in increasing order, at least 16 apart |
| Diagnostics.LineChunks | lib/tesla_ble/diagnostics.py:219-229 | comparing the two chunks cell by cell (None past a chunk's end) marks exactly the differing positions of the line |
| Diagnostics.AsciiOf | lib/tesla_ble/diagnostics.py:179-184 | one character per byte: itself for 32..126, '.' otherwise |
| Diagnostics.CellsOf | lib/tesla_ble/diagnostics.py:164-169 | one hex cell per column, blank past the chunk |
| Diagnostics.HexDumpLines | lib/tesla_ble/diagnostics.py:141-189 | the offset loop computes exactly the dump; "(empty)" for empty data; a zero step raises ValueError |
| Diagnostics.DumpLineAt | lib/tesla_ble/diagnostics.py:158-187 | one line: offset, cells and ASCII column of its chunk |
| Diagnostics.HexDumpLineCount | lib/tesla_ble/diagnostics.py:152-189 | non-empty data gives ⌈len/width⌉ lines at offsets 0, width, 2·width, … |
| Diagnostics.LinesFromCount | lib/tesla_ble/diagnostics.py:157-187 | from any offset inside the data, the offset loop gives ⌈remaining/width⌉ lines |
| Diagnostics.LinesFromOffsets | lib/tesla_ble/diagnostics.py:157-187 | line k starts at offset + k·width |
| ProtoBase.InitialFields | lib/tesla_ble/proto/base.py:27-36 | a new message holds exactly its keyword values; a routable message adds empty to and from destinations only where they were not given |
| ProtoBase.ProtobufMessage.constructor | lib/tesla_ble/proto/base.py:27-36 | the field store holds the initial fields; the other three internal stores are empty, and no other attribute is set on the object |
| ProtoBase.ProtobufMessage.DefineField | lib/tesla_ble/proto/base.py:38-58 | records type and number, appends the name to its oneof group in call order, and starts a repeated field as [] only if it is unset |
| ProtoBase.ProtobufMessage.SetField | lib/tesla_ble/proto/base.py:60-62 | afterwards `get_field` returns the value, and no other entry changes (oneof siblings included) |
| ProtoBase.ProtobufMessage.GetField | lib/tesla_ble/proto/base.py:64-66 | the stored value, or the default for a name never set |
| ProtoBase.ProtobufMessage.HasField | lib/tesla_ble/proto/base.py:68-70 | true iff the name is present with a value other than None |
| ProtoBase.ProtobufMessage.ClearField | lib/tesla_ble/proto/base.py:72-75 | removes the name, and changes nothing when it is absent |
| ProtoBase.ProtobufMessage.SetAttribute | lib/tesla_ble/proto/base.py:108-113 | assigning `_fields`, `_field_types`, `_field_numbers` or `_oneof_groups` replaces that store, so `get_field`, `has_field` and `message_to_dict` then read the new dictionary; any other underscore or reserved name becomes an object attribute; every other name becomes a field; the assigned value then reads back |
| ProtoBase.ProtobufMessage.GetAttribute | lib/tesla_ble/proto/base.py:101-106 | the four internal stores read as their dictionaries (`_fields` as the `message_to_dict` dictionary); any other attribute set on the object wins; otherwise underscore names raise AttributeError, and other names read the field (None when unset) |
| ProtoBase.InternalTablesRoundTrip | lib/tesla_ble/proto/base.py:29-32 | the schema, number and oneof tables are read back from the dictionaries that attribute access shows |
| ProtoBase.InternalValuesRoundTrip | lib/tesla_ble/proto/base.py:108-111 | a dictionary of the right kind assigned to an internal store is exactly what reading that store shows again |
| ProtoBase.ProtobufMessage.ToDict | lib/tesla_ble/proto/base.py:169-174 | `message_to_dict` has exactly the store's keys and values |
| ProtoBase.CreateMessageFromDict | lib/tesla_ble/proto/base.py:159-167 | a fresh message holding the class defaults overridden by exactly the given keys; for a plain message its dictionary is the input |

## Left out

- BLE plumbing is not modelled: scanning, connecting, MTU exchange, service and characteristic discovery, subscription and `perform_handshake`. These are aioble and asyncio I/O. The receive loops run over an explicit list of notifications and timeouts instead.
- Clocks (`ticks_ms`, `ticks_diff`, `utime.time`) are parameters. Tick wrap-around is not modelled.
- Random routing addresses and uuids are inputs. The SHA-1 BLE name and the HMAC-SHA-256 of `crypto.py` are not modelled; HMAC is a function parameter of `SignMessage`.
- Handshake.ReceiveSessionInfo: the clock-driven end of the collection loop (overall and idle timeout) is not modelled. The input is the notifications that arrived before it stopped.
- Handshake.CreateHandshakeMessage: the routing address is always passed in. The `None` default draws it from `GenerateRoutingAddress`.
- `get_vehicle_state` and `VehicleState.from_parsed_state` are left out. They pass a `VehicleState` where bytes and a dict are expected, so they cannot succeed as written.
- The schema modules under `proto/` other than `base.py` are left out; they contain declarations only. Their enum numbering differs from the parser's tables, and the model follows the parser.
- `serialize_to_string` and `parse_from_string` are left out. They are JSON through a foreign library, not protobuf encoding.
- Display code is left out: `__str__`, `__repr__`, the `format_*` functions, hex strings and their 40-character truncation, and the float `consistency_percentage`. Diagnostics keep the structure of their text (entries, lines, counts), not the characters.
- Diagnostics.Analyze: the `except Exception` branch is not modelled. No modelled step raises; indexing stays within the data. Nesting depth is not modelled: the recursion into nested messages is unbounded, whereas on MicroPython a deeply nested input can exhaust the stack, and that `except` would then catch the error.
- Parser.ParseBodyControllerState: the input is typed as bytes, so the "not bytes" ValueError cannot arise. A varint where a nested message is parsed (`len(int)` raises TypeError) is reported as `NotAMessage`.
- VehicleStates.VehicleState.UpdateFromResponse: the argument is typed, so the TypeError for a non-VehicleState cannot arise.
- ResponseValidator.Validate and ConsistencyAnalyzer.Analysis: error texts are not modelled; only which error is reported.
- ConsistencyAnalyzer.Analysis: a lone element without a length is not modelled. For it `len(responses[0])` raises TypeError; the model types every response as bytes or a sized non-bytes value. With two or more responses the bytes check comes before any `len`, so there an unsized element is the modelled `NotBytesAt` error.
- Bytes.PackU16BE: `client.py` falls back to CPython's `struct`, which range-checks, when `ustruct` is missing. The only length it packs is the fixed 50 of the body-controller request, so the two agree there.
- Client.MinimalTeslaClient: the VIN check of `__init__`, debug printing and the connection retry paths are not modelled. Connection handles are booleans (present or not).
- Client.MinimalTeslaClient.CompleteConnection: `connect` creates a fresh, all-None VehicleState on every connection. Knowledge kept across `disconnect` is therefore discarded at the next `connect`; the model follows the code.
- ProtoBase.ProtobufMessage.GetAttribute: lookup of class attributes and methods (found before `__getattr__`) is not modelled. Only the object's own attributes are: the four internal stores and any attribute assigned through an underscore or reserved name. Reading an internal store returns a copy; the aliasing through which a caller could mutate the live dictionary is not modelled.
- ProtoBase.ProtobufMessage.SetAttribute: assigning one of the four internal stores a value that is not a dictionary of the matching kind (for example `_fields = 5`) is not modelled. Python stores it, and later field operations raise; the model leaves that store unchanged.
- ProtoBase: `create_message_from_dict` and `message_to_dict` wrap failures in ProtobufError. No modelled operation fails, so that path is left out.
