# NavNet protocol engine — a Dafny model

This project models the protocol engine of a browser-side TI-Nspire link
(`NavNet/`). The host (address 0x6400) talks to the calculator (address 0x6401)
over USB in NavNet packets. Each packet is a 16-byte header followed by up to
255 payload bytes. The engine has three parts:

- **Packet codec** (`NavNet/RawPacket.ts`, module `RawPackets`).
  - `GetRawData` encodes a packet. It writes the magic bytes `0x54 0xFD`, the
    four big-endian 16-bit addresses and service ids, the 16-bit data checksum,
    the length, ACK and sequence bytes and an 8-bit header sum, then the
    payload.
  - `fromHeaderAndData` decodes a packet.
  - `_GetDataChecksum` is the rolling 16-bit checksum.
  - The encoder is modelled as an imperative method over an `array`, proved
    equal to the function `Encode`. The checksum loop is proved equal to a
    left fold, `DataChecksum`.
- **Stream reassembler** (`NspireService.handleInData` and
  `_TryConstructPacket`).
  - Received bytes go into a FIFO. Two loops move them into a header buffer
    (16 bytes), then into a data buffer (`header[12]` bytes). A complete
    packet is decoded and handed to the dispatcher.
  - Module `Reassembly` states one attempt as the function `Extract`.
  - The class `NspireServices.NspireService` holds the real fields and loops.
    Its methods are proved against `Extract`.
- **Dispatcher and OS-transfer state machine** (`_HandlePacket`).
  - Module `Dispatch` states what handling one packet does: the new connection
    state, the echoed replies (these reuse the incoming sequence), the
    originated replies (these take `++_nextSequenceId`) and the error thrown,
    if any.
  - The class's step-by-step `HandlePacket` is proved against this function.
- **Service ids** (`NavNet/ServiceId.ts`, module `ServiceIds`): the six
  enumeration values.

JavaScript semantics are written out where they matter:

- `(x >> 8) & 0xFF` and Uint8Array stores are `HighByte` and `LowByte`, which
  reduce modulo 256.
- A missing payload byte shifts and ors as 0 (`ByteAt`).
- The OS size is the *signed* 32-bit value of four bytes (`Int32BigEndian`).
- A `throw` is an `Error` outcome. Replies sent before the throw stay in the
  outcome and in the transport log.

Where the code departs from what the protocol evidently intends, the model
follows the code:

- **One packet per call.** `handleInData` makes one extraction attempt per
  call, so a second packet that arrives in the same chunk stays queued until
  the next call (`Reassembly.ExtractEncoded` keeps `rest` queued). Chunk
  boundaries carry no meaning in the protocol, so a reader would expect every
  complete packet in the FIFO to be handled at once.
- **Completion can repeat.** The stream and writer are never cleared, so after
  a transfer completes, a later short type-5 chunk announces completion again
  (`Dispatch.CompletionRepeats`). A transfer is meant to complete once.
- **Long payloads are truncated.** Encoding does not reject a payload of more
  than 255 bytes. The length byte keeps `|Data| % 256`
  (`RawPackets.LengthByteExact`), so such a packet is framed wrongly instead
  of being refused.
- **Errors reject `handleInData` after the buffers are reset.** A handler
  error is not caught: it rejects the promise `handleInData` returns, although
  it concerns one packet only. The header and data buffers were already
  emptied. No caller of `handleInData` is part of this model, so what happens
  to later reads is not stated.

Other behaviours worth knowing:

- **No checksum check on decode.** Decoding checks neither checksum, the magic
  bytes nor the length byte (`RawPackets.DecodeReadsOnlyFields`).
- **Unknown InstallOS request types are acknowledged.** They get the
  acknowledgement that precedes the request-type switch, and nothing else
  (`Dispatch.InstallOSOtherType`).
- **Unknown destination services are ignored.** No reply, no error, no change
  of state (`Dispatch.UnknownDestinationIgnored`).

## Model

| member | source | states |
|---|---|---|
| ServiceIds.ServiceId.Value | NavNet/ServiceId.ts:1-9 | each value fits 16 bits and is neither 0x00FE nor 0x00FF, the ad-hoc sources of acknowledgements |
| ServiceIds.FromValue | NavNet/ServiceId.ts:1-9 | a found member has the looked-up value; nothing is found exactly when no member has that value |
| ServiceIds.ExactlySixDistinct | NavNet/ServiceId.ts:3-8 | the enumeration lists exactly six members, every member appears, and no two share a value |
| ServiceIds.ValueInjective | NavNet/ServiceId.ts:3-8 | two members have the same value iff they are the same member, so the switch arms are disjoint |
| ServiceIds.FromValueRoundTrip | NavNet/ServiceId.ts:3-8 | looking up a member's value gives back that member |
| Dispatch.ServiceIdOnWire | NavNet/ServiceId.ts:3-8 | every service id survives the two-byte big-endian wire field |
| RawPackets.Word | NavNet/RawPacket.ts:26-29 | `(hi << 8) \| lo` is a 16-bit value whose high and low bytes are `hi` and `lo` |
| RawPackets.HighByte | NavNet/RawPacket.ts:44-51 | `(x >> 8) & 0xFF` as a byte; `RawPackets.Word` and `RawPackets.WordSplit` state that it is the high byte of a 16-bit value |
| RawPackets.LowByte | NavNet/RawPacket.ts:44-59 | `x & 0xFF` and what a Uint8Array store keeps of `x`; `RawPackets.Word` and `RawPackets.WordSplit` state that it is the low byte of a 16-bit value |
| RawPackets.NewPacket | NavNet/RawPacket.ts:13-21 | the constructor: the six fields as given, `Sequence` 0; `RawPackets.RoundTrip` states what survives the wire |
| RawPackets.WordSplit | NavNet/RawPacket.ts:44-51 | splitting a 16-bit value into its bytes and joining them gives it back |
| RawPackets.ChecksumValue | NavNet/RawPacket.ts:74-90 | the data checksum is below 0x10000 |
| RawPackets.ChecksumStep | NavNet/RawPacket.ts:80-86 | one turn of the checksum loop on 16-bit words; `RawPackets.ChecksumStepWidth` states it agrees with the 32-bit operators |
| RawPackets.ChecksumStep32 | NavNet/RawPacket.ts:80-86 | lines 80-86 transcribed on 32-bit words; `RawPackets.ChecksumStepWidth` states it gives the same bits as `ChecksumStep` |
| RawPackets.ChecksumStepWidth | NavNet/RawPacket.ts:80-86 | for every 16-bit accumulator and byte, the 16-bit step gives the same bits as the source's 32-bit shifts, ands, xors and ors |
| RawPackets.DataChecksum | NavNet/RawPacket.ts:74-90 | the checksum as a left fold from 0; `RawPackets.DataChecksumSnoc`, `RawPackets.DataChecksumVectors` and `RawPackets.GetDataChecksum` state it |
| RawPackets.DataChecksumSnoc | NavNet/RawPacket.ts:78-87 | the checksum is a left fold: one more byte applies one more loop step to the previous checksum |
| RawPackets.DataChecksumVectors | NavNet/RawPacket.ts:74-90 | pinned values: empty payload 0, [0x01] gives 0x0100, [0x12,0x34] gives 0x3412, [0x12,0x34,0x56] gives 0x65A7 |
| RawPackets.GetDataChecksum | NavNet/RawPacket.ts:74-90 | the accumulator loop returns the fold `DataChecksum` of the payload |
| RawPackets.ByteSum | NavNet/RawPacket.ts:60-63 | the byte sum is between 0 and 255 times the length |
| RawPackets.HeaderFields | NavNet/RawPacket.ts:42-59 | header bytes 0 to 14 are fifteen bytes |
| RawPackets.Header | NavNet/RawPacket.ts:37-63 | the header is 16 bytes: fields 0 to 14, then their sum modulo 256 |
| RawPackets.HeaderLayout | NavNet/RawPacket.ts:42-63 | bytes 0-1 are 0x54 0xFD; bytes 2-9 are the big-endian SourceAddress, SourceServiceId, DestinationAddress, DestinationServiceId; bytes 10-11 the big-endian checksum; byte 12 is \|Data\| mod 256, byte 13 the ACK, byte 14 the sequence mod 256; byte 15 the sum of bytes 0-14 mod 256 |
| RawPackets.Encode | NavNet/RawPacket.ts:37-72 | the wire form is 16 + \|Data\| bytes: the header, then the payload verbatim and in order |
| RawPackets.EncodedChecksum | NavNet/RawPacket.ts:57-59 | bytes 10 and 11 read big-endian give back the whole data checksum |
| RawPackets.StoreFields | NavNet/RawPacket.ts:41-54 | the field stores put each value's high or low byte at its offset and touch nothing else |
| RawPackets.SumHeader | NavNet/RawPacket.ts:60-63 | the summing loop leaves byte 15 equal to the sum of bytes 0-14 mod 256 and changes no other byte |
| RawPackets.CopyPayload | NavNet/RawPacket.ts:65-69 | the copying loop makes bytes 16 onwards the payload and leaves the header alone |
| RawPackets.GetRawData | NavNet/RawPacket.ts:37-72 | the imperative encoder returns exactly `Encode(p, sequenceId)` |
| RawPackets.FromHeaderAndData | NavNet/RawPacket.ts:23-35 | decoding takes bytes 2-9 as the four 16-bit fields, byte 13 as ACK, byte 14 as sequence and the payload as given |
| RawPackets.DecodeReadsOnlyFields | NavNet/RawPacket.ts:23-35 | headers that agree on bytes 2-9, 13 and 14 decode alike: magic, checksums and length byte are not checked |
| RawPackets.RoundTrip | NavNet/RawPacket.ts:23-72 | decoding an encoded packet gives back every field, with the sequence reduced to the byte sent, when the fields fit their wire widths |
| RawPackets.LengthByteExact | NavNet/RawPacket.ts:52 | the length byte equals \|Data\| iff the payload has at most 255 bytes |
| Reassembly.FillHeader | NavNet/NspireService.ts:238-246 | the header loop keeps every buffered byte in order, fills the header up to 16 bytes from the front of the FIFO, and stops early only on an empty FIFO |
| Reassembly.FillData | NavNet/NspireService.ts:253-262 | the data loop keeps every buffered byte in order, fills the payload up to `header[12]` bytes, and stops early only on an empty FIFO |
| Reassembly.Extract | NavNet/NspireService.ts:233-272 | one attempt's buffer work; `Reassembly.ExtractConserves` states its contract, `Reassembly.ChunkAbsorbed` and `Reassembly.ChunkCompletes` its behaviour on a chunked frame |
| Reassembly.ExtractConserves | NavNet/NspireService.ts:233-272 | one attempt leaves the buffers within their bounds, loses, duplicates and reorders no byte, hands on only a complete frame (both buffers then empty), and drains the FIFO when it hands on nothing |
| Reassembly.EnqueueKeepsAccount | NavNet/NspireService.ts:34 | appending received bytes to the FIFO keeps the account of bytes received |
| Reassembly.ExtractKeepsAccount | NavNet/NspireService.ts:233-272 | after an attempt, the bytes received are the frames handed on followed by the buffered bytes |
| Reassembly.FrameKeepsAccount | NavNet/NspireService.ts:264-271 | handing on the complete frame at the front keeps that account |
| Reassembly.FillHeaderAll | NavNet/NspireService.ts:238-246 | a FIFO that fits in the missing header bytes is moved into the header whole |
| Reassembly.FillHeaderSplit | NavNet/NspireService.ts:238-246 | a FIFO reaching past the header's end is split exactly there |
| Reassembly.FillDataAll | NavNet/NspireService.ts:253-262 | a FIFO that fits in the missing payload bytes is moved into the data buffer whole |
| Reassembly.FillDataSplit | NavNet/NspireService.ts:253-262 | a FIFO reaching past the payload's end is split exactly there |
| Reassembly.ChunkAbsorbed | NavNet/NspireService.ts:233-276 | however a frame is chunked, a chunk that does not finish it hands on nothing and leaves every byte so far buffered |
| Reassembly.AbsorbedInHeader | NavNet/NspireService.ts:238-248 | ChunkAbsorbed while the header fills |
| Reassembly.AbsorbedAcrossHeader | NavNet/NspireService.ts:238-262 | ChunkAbsorbed for a chunk that completes the header and starts the payload |
| Reassembly.AbsorbedInData | NavNet/NspireService.ts:252-262 | ChunkAbsorbed while the payload fills |
| Reassembly.ChunkCompletes | NavNet/NspireService.ts:233-272 | however a frame is chunked, the chunk with its last byte hands on exactly that frame, empties both buffers and leaves the bytes after it queued |
| Reassembly.CompletedFromHeader | NavNet/NspireService.ts:238-271 | ChunkCompletes when the header was not yet complete |
| Reassembly.CompletedFromData | NavNet/NspireService.ts:252-271 | ChunkCompletes when the header was already complete |
| Reassembly.EncodedIsOneFrame | NavNet/RawPacket.ts:37-72 | an encoded packet with at most 255 payload bytes is exactly one frame for the reassembler |
| Reassembly.ExtractEncoded | NavNet/NspireService.ts:233-273 | an encoded packet fed to idle buffers is handed on and decodes to the original; bytes after it stay queued |
| Dispatch.ByteAt | NavNet/NspireService.ts:57 | a payload byte where there is one, 0 past the end |
| Dispatch.Int32BigEndian | NavNet/NspireService.ts:102-103 | four bytes as a signed 32-bit value: in range, negative iff Data[1] >= 0x80, equal to the unsigned value modulo 2^32 |
| Dispatch.HandlePacket | NavNet/NspireService.ts:38-225 | the dispatcher; its contract is stated by `Dispatch.SequenceDiscipline`, `Dispatch.RepliesAddressed`, `Dispatch.RepliesFitWire`, `Dispatch.EchoedAckSource` and the per-arm lemmas below |
| Dispatch.InstallOSRequest | NavNet/NspireService.ts:75-152 | the InstallOS arm; stated by `Dispatch.InstallOSAcknowledgedFirst`, `Dispatch.InstallOSErrors`, `Dispatch.InstallOSStart`, `Dispatch.InstallOSChunk` and `Dispatch.InstallOSOtherType` |
| Dispatch.OSData | NavNet/NspireService.ts:118-144 | the type-5 branch once a stream exists; stated by `Dispatch.InstallOSChunk` |
| Dispatch.DeviceInformationRequest | NavNet/NspireService.ts:170-217 | the DeviceInformation arm; stated by `Dispatch.DeviceInformationReplies` |
| Dispatch.AckSource | NavNet/NspireService.ts:56 | 0x00FE for sequence 0, else 0x00FF; stated by `Dispatch.EchoedAckSource` |
| Dispatch.Acknowledgement | NavNet/NspireService.ts:79-82 | the echoed acknowledgement (also lines 56-59 and 174-175); stated by `Dispatch.SequenceDiscipline`, `Dispatch.EchoedAckSource`, `Dispatch.DisconnectionAcknowledged` and `Dispatch.InstallOSAcknowledgedFirst` |
| Dispatch.Originated | NavNet/NspireService.ts:112-113 | a reply the host originates, from 0x6400 to 0x6401 with ACK 0 (also lines 129-130, 138-139, 156-158 and 197); `Dispatch.SequenceDiscipline` and `Dispatch.RepliesAddressed` state its fields |
| Dispatch.UnknownDestinationIgnored | NavNet/NspireService.ts:218-220 | a request to any other destination service gets no reply and no error and changes nothing |
| Dispatch.AckPacketIgnored | NavNet/NspireService.ts:43-45 | a packet with ACK 0x0A sends nothing and changes nothing |
| Dispatch.SequenceDiscipline | NavNet/NspireService.ts:38-225 | at most one echoed reply, with the incoming sequence and ACK 0x0A; originated replies carry ACK 0 and the counter's next values; the counter rises by one per originated reply |
| Dispatch.InstallOSNumbered | NavNet/NspireService.ts:75-152 | SequenceDiscipline for the InstallOS arm |
| Dispatch.DeviceInformationNumbered | NavNet/NspireService.ts:170-217 | SequenceDiscipline for the DeviceInformation arm |
| Dispatch.RepliesAddressed | NavNet/NspireService.ts:4-5 | every reply goes from 0x6400 to 0x6401 with a payload that fits the length byte |
| Dispatch.InstallOSRepliesAddressed | NavNet/NspireService.ts:75-152 | RepliesAddressed for the InstallOS arm |
| Dispatch.DeviceInformationRepliesAddressed | NavNet/NspireService.ts:170-217 | RepliesAddressed for the DeviceInformation arm |
| Dispatch.RepliesFitWire | NavNet/NspireService.ts:38-225 | when the request's fields fit their wire widths, so do every reply's: replies encode without loss |
| Dispatch.InstallOSRepliesFitWire | NavNet/NspireService.ts:75-152 | RepliesFitWire for the InstallOS arm |
| Dispatch.DeviceInformationRepliesFitWire | NavNet/NspireService.ts:170-217 | RepliesFitWire for the DeviceInformation arm |
| Dispatch.EchoedAckSource | NavNet/NspireService.ts:56-59 | an echoed reply comes from 0x00FE when the incoming sequence is 0 and from 0x00FF otherwise, except the Login refusal, which comes from NACK |
| Dispatch.DisconnectionAcknowledged | NavNet/NspireService.ts:52-63 | a ServiceDisconnection request gets one acknowledgement to the service named by Data[0..2] (missing bytes read as 0), carrying the request's destination id; nothing else changes |
| Dispatch.AddressAssignmentReply | NavNet/NspireService.ts:153-161 | DeviceAddressAssignment gets one originated reply, from and to 0x4003, with data [0x64, 0x01, 0xFF, 0x00], and the counter advances by one |
| Dispatch.LoginReply | NavNet/NspireService.ts:162-169 | Login is refused with one echoed reply from NACK, ACK 0x0A, data [0x40, 0x50], to the requesting service |
| Dispatch.DeviceInformationReplies | NavNet/NspireService.ts:170-217 | DeviceInformation is acknowledged; the error occurs iff the payload is empty; type 1 gets the 111-byte blob and only the counter moves; other types get nothing more |
| Dispatch.InstallOSAcknowledgedFirst | NavNet/NspireService.ts:75-82 | InstallOS sends its acknowledgement first, with the incoming sequence, ACK 0x0A and data [0x40, 0x80] |
| Dispatch.InstallOSErrors | NavNet/NspireService.ts:84-121 | each InstallOS error occurs iff its condition holds (payload of at most 1 byte; type 3 shorter than 5; type 5 before any stream); an error changes no state and originates nothing |
| Dispatch.InstallOSStart | NavNet/NspireService.ts:94-117 | type 3 sets the size to the signed value of Data[1..5], clears the first-chunk flag, creates the stream (keeping any writer) and sends [0x04] |
| Dispatch.InstallOSChunk | NavNet/NspireService.ts:118-144 | type 5 writes Data[1..], subtracts its length from the size, sends [0xFF, 0x00] from InstallOS only for the first chunk, and closes the writer and announces completion iff the size is used up or the chunk is shorter than 0xFE |
| Dispatch.InstallOSOtherType | NavNet/NspireService.ts:145-151 | other InstallOS request types get the acknowledgement only |
| Dispatch.CompletionRepeats | NavNet/NspireService.ts:118-140 | a 300-byte transfer in two full chunks and a short one announces completion on the second chunk and again on the third |
| Dispatch.RunNumbering | NavNet/NspireService.ts:113 | over any sequence of handled packets, originated replies are numbered consecutively after the counter's start |
| Dispatch.FirstOriginatedIsOne | NavNet/NspireService.ts:17 | from a fresh service the first originated reply carries sequence 1 |
| NspireServices.NspireService.constructor | NavNet/NspireService.ts:12-29 | a fresh service has empty buffers, counter 0, size 0, no stream or writer, and an empty transport log |
| NspireServices.NspireService.SendData | NavNet/NspireService.ts:227-231 | sending appends the packet and its sequence number to the transport log |
| NspireServices.NspireService.HandlePacket | NavNet/NspireService.ts:38-225 | the step-by-step handler reaches the state, sends the replies (in order) and throws the error that `Dispatch.HandlePacket` gives |
| NspireServices.NspireService.HandleInstallOS | NavNet/NspireService.ts:75-152 | the InstallOS arm matches `Dispatch.InstallOSRequest` |
| NspireServices.NspireService.ReceiveOSData | NavNet/NspireService.ts:118-144 | the type-5 branch matches `Dispatch.OSData` |
| NspireServices.NspireService.HandleDeviceInformation | NavNet/NspireService.ts:170-217 | the DeviceInformation arm matches `Dispatch.DeviceInformationRequest` |
| NspireServices.NspireService.FillHeaderBuffer | NavNet/NspireService.ts:238-246 | the header loop leaves the buffers as `Reassembly.FillHeader` says |
| NspireServices.NspireService.FillDataBuffer | NavNet/NspireService.ts:252-262 | the data loop leaves the buffers as `Reassembly.FillData` says |
| NspireServices.NspireService.ExtractFrame | NavNet/NspireService.ts:233-271 | the buffer work of one attempt is `Reassembly.Extract`; the account of bytes received is kept; a frame leaves both buffers empty, no frame leaves the FIFO empty |
| NspireServices.NspireService.TryConstructPacket | NavNet/NspireService.ts:233-276 | one attempt extracts as `Extract` does and handles the decoded packet as `Dispatch.HandlePacket` does; both buffers are reset before the handler runs |
| NspireServices.NspireService.Enqueue | NavNet/NspireService.ts:34 | received bytes are appended to the FIFO in order |
| NspireServices.NspireService.HandleInData | NavNet/NspireService.ts:31-36 | bytes received are appended and one attempt is made: exactly one packet is handled and both buffers are empty, or none is and the FIFO is empty; the account of every byte received is kept |

## Left out

- StreamSaver (`createWriteStream`, `getWriter`, `write`, `close`) is a browser API. It is modelled as the abstract sink `Dispatch.Sink`: a stream-created flag, a writer-created flag, the bytes handed to `write` and a closed flag. A write after `close` is still recorded, and a second `createWriteStream` is not told apart from the first.
- `_device.transferOut` is foreign I/O. The transport is a log of (packet, sequence number) pairs. The bytes each entry puts on the wire are `RawPackets.Encode` of the pair, which `RawPackets.GetRawData` is proved to compute. The class does not run the encoder for each reply.
- `async`/`await` is left out. Processing is strictly sequential, so every call is an ordinary method. A rejected promise is not modelled.
- All `console` logging is left out.
- The external `Queue` class (`NavNet/NspireService.ts:13`) is not part of this model. The FIFO is a `seq<Byte>` field, and `enqueue`, `size` and `dequeue` act on that sequence.
- `webusbti.js` (device enumeration, UI and event wiring) is not part of this model.
- NspireServices.NspireService.Enqueue: the `buffer.forEach &&` guard is left out; the buffer is always a byte sequence.
- Dispatch.Run: the caller of `handleInData` is not part of this model. Run is a device for stating numbering over many packets: it handles them one after another, each as a separate call, and does not claim that a real caller would go on reading after an error.
- The 16-bit fields of a packet are unbounded integers, as JavaScript numbers are. Where a property needs the fields to fit their wire widths, it says so with `FitsWire`.
