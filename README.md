# A verified model of a UDP file-transfer tool

The tool moves files between a client and a server over UDP. A client opens
a session with an INIT message (a download or an upload, Stop-and-Wait or
Selective-Repeat, and a file name or path). The server answers with an
INIT-ACK, and the file then travels in frames carried by one of two ARQ
engines. Every frame ends with a big-endian CRC-32 of the bytes before it.

The model covers the following parts, one Dafny module per source file:

- `Wire` and `Crc` hold the shared byte helpers: Python `bytes` as `seq<byte>`,
  `int.from_bytes` / `to_bytes` big-endian, and `zlib.crc32(b) & 0xFFFFFFFF`
  as `Crc32`.
- `Segments` models the three frame codecs of `lib/utils/segments.py`:
  - the Stop-and-Wait segment;
  - the Init segment;
  - the Selective-Repeat segment.

  Each has its constructor's bit masking, its header byte, `serialize`
  (with the overflow of a length field) and `deserialize`, with every
  rejection path.
- `Packets` models the older `struct`-based Stop-and-Wait packet.
- `InitMessageParser` models the INIT message. `parse` and
  `create_init_message` are methods that walk a cursor or fill a buffer.
  Each is proved equal to a function that states the format.
- `StopAndWaitEngine` models the alternating-bit engine as a class:
  - `send` retries one frozen frame against a queue of ACK events, under an
    attempt budget shared by all sends;
  - `unpack` and `receive_file` are the receiver's transitions.

  The retry loop is proved against a function `RunSend`, and the lemmas
  about it give the delivered, raised and exhausted outcomes.
- `SelectiveRepeatEngine` models the Selective-Repeat engine as written, as
  a class with the sender's three maps and the receiver's reorder buffer:
  - the window check;
  - the timeout sweep;
  - ACK marking by `seq % 256`;
  - `receive` with its drain of the contiguous buffered run.
- `ServerManager` models the peer table of `process_message` and the
  replies the server sends.
- `Transfer`, `DownloaderWorkers`, `UploaderWorkers`, `UploadClientWorkers`
  and `DownloadClientWorkers` model the producer/consumer loops of the
  client. Queues are sequences, the file is a byte sequence, and each call
  to the protocol handler's `send` is a recorded `SendCall`.

A Python exception is an `Err` value of a `Result`. A socket, queue or file
read is an input sequence, and a `sendto` or file write is appended to an
output sequence. The threads of one transfer run one after the other.

## Model

| member | source | states |
|---|---|---|
| Wire.FromBigEndian | lib/utils/segments.py:36 | the big-endian value of n bytes is below 256^n |
| Wire.U16Bytes | lib/utils/segments.py:19 | `to_bytes(2, "big")` of a value below 65536 is two bytes that read back as that value |
| Wire.U32Bytes | lib/utils/segments.py:25 | `to_bytes(4, "big")` of a value below 2^32 is four bytes that read back as that value |
| Wire.U32BytesOfFromBigEndian | lib/utils/segments.py:42 | four bytes read big-endian and written back are the same bytes |
| Wire.TrailersDiffer | lib/utils/segments.py:42-47 | two different 4-byte trailers hold different CRC values |
| Crc.Crc32 | lib/utils/segments.py:24 | the masked checksum is a non-negative int below 2^32 |
| Crc.Sealed | lib/utils/segments.py:21-27 | a sealed frame is the body followed by four bytes holding the body's CRC |
| Crc.LengthFramedLayout | lib/utils/segments.py:15-27 | header, 2-byte length, payload and CRC sit at offsets 0, 1, 3 and 3+n of a 7+n byte frame |
| Crc.SealedPrefix | lib/utils/segments.py:42-47 | a buffer whose four bytes after offset k hold the CRC of the first k starts with the sealed frame of those k bytes |
| Segments.NewStopAndWaitSegment | lib/utils/segments.py:5-9 | keeps the payload and only the low bit of seq, ack and eof (each differs from its argument by an even number) |
| Segments.StopAndWaitHeader | lib/utils/segments.py:11-13 | the header byte is below 8 and its bits 2, 1, 0 are seq, ack and eof |
| Segments.SerializeStopAndWait | lib/utils/segments.py:15-27 | fails with Overflow exactly when the payload has 65536 bytes or more; otherwise the frame is 7+n bytes: header, big-endian length, payload, CRC of the first 3+n bytes |
| Segments.DeserializeStopAndWait | lib/utils/segments.py:30-53 | buffers under 7 bytes are too short, and buffers shorter than 7 + the declared length are incomplete; an accepted buffer declares the payload's length n, its header's low three bits are the flags, its payload is bytes 3..3+n and the four bytes after it hold the CRC of the first 3+n |
| Segments.StopAndWaitDecode | lib/utils/segments.py:30-53 | on a long-enough buffer the result is the segment of the header's bits and bytes 3..3+n exactly when the CRC matches, CrcMismatch otherwise |
| Segments.StopAndWaitRoundTrip | lib/utils/segments.py:15-53 | deserializing a serialized segment gives back the same payload and three flags |
| Segments.StopAndWaitSerializeOfDeserialize | lib/utils/segments.py:30-53 | an accepted buffer whose padding bits are zero starts with the serialization of the segment it decodes to |
| Segments.StopAndWaitIgnoresTrailingBytes | lib/utils/segments.py:38-47 | exactly four CRC bytes are read, so bytes appended to an accepted buffer change nothing |
| Segments.StopAndWaitRejectsDamagedCrc | lib/utils/segments.py:42-47 | a frame whose four CRC bytes are replaced by any other four fails with CrcMismatch |
| Segments.NewInitSegment | lib/utils/segments.py:56-60 | keeps name and path and only the low bit of opcode and protocol |
| Segments.InitHeader | lib/utils/segments.py:62-64 | the header byte is below 4 and its bits 1, 0 are opcode and protocol |
| Segments.SerializeInit | lib/utils/segments.py:66-81 | fails with Overflow exactly when name or path has 256 bytes or more; otherwise header, 1-byte name length, name, 1-byte path length, path, CRC, 7+p+q bytes in all |
| Segments.DeserializeInit | lib/utils/segments.py:84-109 | buffers under 7 bytes are too short; a name length that leaves no path-length byte is an IndexError; a buffer shorter than the declared name, path and CRC is incomplete; an accepted buffer has its name and path at the declared offsets and all remaining bytes read as the CRC of the rest |
| Segments.InitRoundTrip | lib/utils/segments.py:66-109 | with name and path under 256 bytes, deserializing a serialized Init segment gives back opcode, protocol, name and path |
| Segments.InitDecode | lib/utils/segments.py:84-109 | on a buffer long enough for its declared name and path lengths p and q, the result is the segment of the header bits, name and path exactly when the CRC of the first 3+p+q bytes matches all remaining bytes, CrcMismatch otherwise |
| Segments.InitRejectsTrailingBytes | lib/utils/segments.py:98-103 | bytes appended to an Init frame make it fail with CrcMismatch, unless the CRC and the extra bytes are all zero |
| Segments.InitRejectsDamagedCrc | lib/utils/segments.py:98-103 | an Init frame with any other four CRC bytes fails with CrcMismatch |
| Segments.InitCrcMismatch | lib/utils/segments.py:98-103 | a long-enough buffer whose CRC field does not match fails with CrcMismatch |
| Segments.NewSelectiveRepeatSegment | lib/utils/segments.py:112-116 | keeps the payload and seq, ack and window modulo 65536 |
| Segments.SerializeSelectiveRepeat | lib/utils/segments.py:118-130 | fails with Overflow exactly when the payload has 65536 bytes or more; otherwise seq, ack, window, length as 2-byte big-endian fields, payload, CRC, 12+n bytes in all |
| Segments.DeserializeSelectiveRepeat | lib/utils/segments.py:133-154 | buffers under 12 bytes are too short, and buffers shorter than 12 + the declared length are incomplete; an accepted buffer's four fields, payload and whole trailer agree with the result |
| Segments.SelectiveRepeatDecode | lib/utils/segments.py:143-154 | on a long-enough buffer the result is the decoded segment exactly when the CRC matches, CrcMismatch otherwise |
| Segments.SelectiveRepeatRoundTrip | lib/utils/segments.py:118-154 | deserializing a serialized segment gives back all four fields |
| Segments.SelectiveRepeatRejectsTrailingBytes | lib/utils/segments.py:147-152 | bytes appended to a frame make it fail with CrcMismatch, unless the CRC and the extra bytes are all zero |
| Segments.SelectiveRepeatRejectsDamagedCrc | lib/utils/segments.py:147-152 | a frame with any other four CRC bytes fails with CrcMismatch |
| Packets.NewStopAndWaitPacket | lib/utils/packets.py:6-10 | keeps the payload and only the low bit of seq, ack/nak and ack |
| Packets.PacketHeader | lib/utils/packets.py:12-14 | the header byte is below 8 and its bits 2, 1, 0 are seq, ack/nak and ack |
| Packets.SerializePacket | lib/utils/packets.py:16-29 | fails with StructError exactly when the payload has 65536 bytes or more; otherwise header, `!H` length, payload, `!I` CRC |
| Packets.DeserializePacket | lib/utils/packets.py:32-56 | under 7 bytes is too short; any length other than exactly 7 + declared length is a StructError; an accepted packet's payload is all bytes between the length field and the last four |
| Packets.PacketDecode | lib/utils/packets.py:32-56 | on a buffer of exactly 7 + its declared length, the result is the packet of the header bits and payload exactly when the CRC of all but the last four bytes matches them, CrcMismatch otherwise |
| Packets.PacketRoundTrip | lib/utils/packets.py:16-56 | deserializing a serialized packet gives back the payload and the three bits |
| Packets.PacketSerializeOfDeserialize | lib/utils/packets.py:32-56 | an accepted buffer with zero padding bits is the serialization of the packet it decodes to |
| Packets.PacketRejectsExtraBytes | lib/utils/packets.py:39-43 | a serialized packet with any bytes appended fails with StructError |
| Packets.PacketRejectsCutBytes | lib/utils/packets.py:33-43 | a serialized packet cut by one to four bytes fails as too short or with StructError |
| Packets.PacketRejectsDamagedCrc | lib/utils/packets.py:43-49 | a packet with any other four CRC bytes fails with CrcMismatch |
| ProtocolSelection.ProtocolName | lib/utils/static.py:6-9 | `'sw'` exactly for the Stop-and-Wait code, `'sr'` for every other code |
| ProtocolSelection.ProtocolCode | lib/utils/static.py:12-13 | the Stop-and-Wait code exactly for `'sw'`, the Selective-Repeat code for every other string |
| ProtocolSelection.EngineFor | lib/utils/static.py:16-32 | a Stop-and-Wait engine exactly for `'sw'`, Selective-Repeat otherwise |
| ProtocolSelection.NameOfCode | lib/utils/static.py:6-13 | `'sw'` and `'sr'` survive a trip through their codes |
| ProtocolSelection.CodeOfName | lib/utils/static.py:6-13 | both codes survive a trip through their names |
| ProtocolSelection.EngineMatchesName | lib/utils/static.py:12-32 | the engine built agrees with the name of the code the string maps to |
| InitMessageParser.DownloadPath | lib/utils/init_message_parser.py:51-70 | TruncatedDownloadPath exactly when `3 + p >= len - 5` or the path of length q and the CRC do not fit; otherwise bytes 4+p..4+p+q, when that path exists, and DownloadFileNotFound of it when it does not |
| InitMessageParser.UploadName | lib/utils/init_message_parser.py:72-82 | TruncatedUploadFilename exactly when the name of length p and four more bytes do not fit; otherwise bytes 3..3+p |
| InitMessageParser.ParseSpec | lib/utils/init_message_parser.py:27-115 | under 7 bytes, a bad opcode and a bad protocol are each their own error; an accepted message has opcode 1 exactly for a download, protocol name `sw`/`sr` exactly for byte 1/2, last four bytes equal to the CRC of the rest, a download path that exists and is bytes 4+p..4+p+q, an upload name that is bytes 3..3+p; a download fails with TruncatedDownloadPath exactly when its path or the CRC does not fit, an upload with TruncatedUploadFilename exactly when its name and four more bytes do not fit |
| InitMessageParser.Parse | lib/utils/init_message_parser.py:11-115 | the cursor walk returns exactly `ParseSpec`, every failure as a value |
| InitMessageParser.ReadFilePath | lib/utils/init_message_parser.py:50-82 | the cursor walk over the two length-prefixed fields yields the download path or the upload name |
| InitMessageParser.InitMessage | lib/utils/init_message_parser.py:131-156 | fails exactly when the path has 256 bytes or more; otherwise opcode 1/2 for download/upload, protocol 1 for `sw` and 2 otherwise, path in the second field for a download and in the first for an upload, the CRC last, 8+n bytes in all |
| InitMessageParser.CreateInitMessage | lib/utils/init_message_parser.py:118-156 | filling the buffer in place gives exactly `InitMessage` |
| InitMessageParser.ParseOfInitMessage | lib/utils/init_message_parser.py:29-156 | parsing a created message gives back direction, protocol name and path; always for an upload, for a download when the path is non-empty and exists |
| InitMessageParser.ParseAsWritten | lib/utils/init_message_parser.py:99-115 | `parse` as written: it accepts only what `ParseSpec` accepts with protocol byte 2, and refuses an otherwise accepted protocol-1 message with `HandlerTypeError` |
| InitMessageParser.AsWrittenRefusesStopAndWait | lib/utils/init_message_parser.py:99-115 | a created "sw" INIT that `ParseSpec` accepts is refused as written with `HandlerTypeError` |
| InitMessageParser.EmptyDownloadPathRejected | lib/utils/init_message_parser.py:51-56 | a download of the empty path is refused as truncated |
| InitMessageParser.MissingDownloadFileRejected | lib/utils/init_message_parser.py:68-70 | a download of a path that does not exist is refused with that path |
| InitMessageParser.DamagedInitMessageRejected | lib/utils/init_message_parser.py:84-91 | a created message with other last four bytes is refused with a CRC mismatch |
| InitMessageParser.OnlyCrcDiffers | lib/utils/init_message_parser.py:84-91 | of two equal-length messages agreeing before their trailers, if one parses and the trailers differ, the other fails on its CRC |
| InitMessageParser.PathFieldsAgree | lib/utils/init_message_parser.py:50-82 | two equal-length messages agreeing before their trailers read the same header bytes and path fields |
| StopAndWaitEngine.RunSend | lib/protocols/stop_and_wait.py:28-65 | reference definition of `send`'s retry loop over scripted ACK events; its properties are stated by `RunSendTransmits`, `RunSendTakes`, `IgnoredEventsAreRetransmitted`, `DeliveredByMatchingAck`, `RaisedByUndecodableAck`, `ExceededWithoutMatchingAck` and `ExhaustedSenderTransmitsNothing` |
| StopAndWaitEngine.RunSendTransmits | lib/protocols/stop_and_wait.py:28-59 | every transmission of a send is the same datagram; at most one per remaining attempt, at least one while the budget lasts |
| StopAndWaitEngine.RunSendTakes | lib/protocols/stop_and_wait.py:28-65 | send takes a prefix of the ACK queue, one event per transmission at most; it flips the bit and resets the counter exactly when delivered, keeps the bit otherwise, and leaves the counter at the budget when it gives up |
| StopAndWaitEngine.IgnoredEventsAreRetransmitted | lib/protocols/stop_and_wait.py:48-59 | each timeout or ACK naming the other bit costs one attempt and one retransmission, bit unchanged |
| StopAndWaitEngine.DeliveredByMatchingAck | lib/protocols/stop_and_wait.py:43-47 | the first matching ACK within budget delivers: bit flipped, counter 0, one transmission per event up to it |
| StopAndWaitEngine.RaisedByUndecodableAck | lib/protocols/stop_and_wait.py:41-42 | an ACK that does not decode lets the codec's error through with bit and counter as reached |
| StopAndWaitEngine.ExceededWithoutMatchingAck | lib/protocols/stop_and_wait.py:28-65 | with no matching ACK, send transmits once per remaining attempt and raises MaxSendAttemptsExceeded with the bit unchanged |
| StopAndWaitEngine.ExhaustedSenderTransmitsNothing | lib/protocols/stop_and_wait.py:28-65 | the counter is never reset after giving up, so a later send raises without transmitting |
| StopAndWaitEngine.AckFrame | lib/protocols/stop_and_wait.py:100-102 | reference definition of the serialized ACK for one bit; stated by `AckFrameDecodes`, `AckFrameIsMatching` and `StopAndWait.SerializeAck` |
| StopAndWaitEngine.AckFrameDecodes | lib/protocols/stop_and_wait.py:85-102 | the ACK frame for a bit decodes to the empty ACK segment for that bit |
| StopAndWaitEngine.UnpackStep | lib/protocols/stop_and_wait.py:79-104 | succeeds exactly when the data decodes; the segment is the decoded one, and it is a repeat exactly when its seq is not the expected bit |
| StopAndWaitEngine.StopAndWait.constructor | lib/protocols/stop_and_wait.py:9-20 | seq, ack and attempt counter start at 0, the ACK queue empty |
| StopAndWaitEngine.StopAndWait.Send | lib/protocols/stop_and_wait.py:22-65 | builds the frame once with the current bit and eof flag, then follows `RunSend` for bit, counter, queue and sent datagrams; a frame that does not serialize raises and changes nothing |
| StopAndWaitEngine.StopAndWait.Transmit | lib/protocols/stop_and_wait.py:28-65 | the retry loop leaves exactly the state and outcome `RunSend` gives |
| StopAndWaitEngine.StopAndWait.PutBytes | lib/protocols/stop_and_wait.py:67-72 | appends one ACK datagram to the queue |
| StopAndWaitEngine.StopAndWait.Unpack | lib/protocols/stop_and_wait.py:74-104 | returns `UnpackStep` and flips the expected bit exactly on a new segment |
| StopAndWaitEngine.StopAndWait.SerializeAck | lib/protocols/stop_and_wait.py:100-102 | the ACK segment always serializes, to the ACK frame for its bit |
| StopAndWaitEngine.StopAndWait.ReceiveFile | lib/protocols/stop_and_wait.py:106-134 | reports payload, repeat flag and eof flag of the unpacked segment, flips the bit as `unpack` does, and sends the ACK to the peer |
| StopAndWaitEngine.AlternatingBitHandshake | lib/protocols/stop_and_wait.py:82-102 | a segment with the expected bit is new, flips the receiver's bit and is answered with the ACK for that bit |
| StopAndWaitEngine.AckFrameIsMatching | lib/protocols/stop_and_wait.py:43 | the receiver's ACK for bit s ends the sender's wait for bit s |
| StopAndWaitEngine.DuplicateIsAckedAgain | lib/protocols/stop_and_wait.py:92-100 | a retransmission of an accepted segment is a repeat, leaves the bit alone and gets the same ACK as the first copy |
| SelectiveRepeatEngine.Stored | lib/protocols/selective_repeat.py:28-47 | reference definition of what `send` stores for a new frame; stated by `StoredKeepsValid`, `AtMostWindowStored` and `FullWindowStaysFull` |
| SelectiveRepeatEngine.Swept | lib/protocols/selective_repeat.py:49-56 | reference definition of the state `_check_timeouts` leaves; stated by `SweptKeepsValid` and `FullWindowStaysFull` |
| SelectiveRepeatEngine.Resent | lib/protocols/selective_repeat.py:49-56 | reference definition of the datagrams `_check_timeouts` resends; stated by `ResentAreExpired` |
| SelectiveRepeatEngine.Acked | lib/protocols/selective_repeat.py:66-70 | reference definition of the marking of an ACK; stated by `AckMarksOnlyItsEntry`, `AckFrameAcknowledges` and `FullWindowStaysFull` |
| SelectiveRepeatEngine.StoredKeepsValid | lib/protocols/selective_repeat.py:39-47 | storing a frame records it as unacknowledged with the send time under `next_seq_num` and leaves earlier entries alone |
| SelectiveRepeatEngine.SweptKeepsValid | lib/protocols/selective_repeat.py:49-56 | the sweep restamps exactly the expired entries with `now` and changes nothing else |
| SelectiveRepeatEngine.AtMostWindowStored | lib/protocols/selective_repeat.py:28-47 | since the base never moves, the three maps hold exactly the numbers below `next_seq_num`, which never exceeds the window of 4 |
| SelectiveRepeatEngine.FullWindowStaysFull | lib/protocols/selective_repeat.py:28-30 | neither a sweep nor an ACK frees a slot, so a full window stays full |
| SelectiveRepeatEngine.ResentAreExpired | lib/protocols/selective_repeat.py:51-56 | the sweep resends exactly the stored frames of expired entries |
| SelectiveRepeatEngine.AckMarksOnlyItsEntry | lib/protocols/selective_repeat.py:66-70 | an ACK keeps the sender valid, never clears a flag, and newly sets only the entry numbered `a` |
| SelectiveRepeatEngine.DataFrameDecodes | lib/protocols/selective_repeat.py:32-38 | the stored frame decodes to the payload with seq `next_seq_num % 256`, ack 0 and window 4 |
| SelectiveRepeatEngine.AheadIsModulo | lib/protocols/selective_repeat.py:88-92 | stepping the expected number i times is adding i modulo 256 |
| SelectiveRepeatEngine.Drain | lib/protocols/selective_repeat.py:90-92 | reference definition of the drain of the receive buffer; stated by `DrainTakesRun`, `DrainKeeps` and `DrainSplitsKeys` |
| SelectiveRepeatEngine.DrainTakesRun | lib/protocols/selective_repeat.py:90-92 | the drain pops the consecutive run from the expected number on, in order, and stops at the first number not buffered |
| SelectiveRepeatEngine.DrainKeeps | lib/protocols/selective_repeat.py:90-92 | the drain keeps every segment it does not pop, under the same number |
| SelectiveRepeatEngine.DrainSplitsKeys | lib/protocols/selective_repeat.py:90-92 | the numbers popped are exactly those that leave the buffer |
| SelectiveRepeatEngine.AckFrameAcknowledges | lib/protocols/selective_repeat.py:80-81 | the ACK for a segment carries its number, and fed back to the sender marks exactly that entry |
| SelectiveRepeatEngine.Accept | lib/protocols/selective_repeat.py:86-103 | reference definition of one arrival at the receiver; stated by `AcceptKeepsValid`, `AcceptConserves`, `AcceptAdvances` and `AcceptReadyHead` |
| SelectiveRepeatEngine.AcceptKeepsValid | lib/protocols/selective_repeat.py:86-103 | every arrival keeps the expected number below 256 and unbuffered and every buffered segment under its own number |
| SelectiveRepeatEngine.AcceptsKeepValid | lib/protocols/selective_repeat.py:75-103 | a whole `receive` keeps the receiver valid |
| SelectiveRepeatEngine.AcceptConserves | lib/protocols/selective_repeat.py:86-99 | the ready segments are the arrival and the numbers after it; ready plus still buffered is exactly what was buffered plus an arrival from ahead |
| SelectiveRepeatEngine.AcceptAdvances | lib/protocols/selective_repeat.py:86-92 | an arrival moves the expected number on by exactly the number of ready segments |
| SelectiveRepeatEngine.AcceptReadyHead | lib/protocols/selective_repeat.py:86-95 | an arrival makes segments ready only when it carries the expected number, and it is the first of them |
| SelectiveRepeatEngine.RunReceive | lib/protocols/selective_repeat.py:74-103 | reference definition of one `receive` call over scripted datagrams, as written; stated by `AcceptsKeepValid`, `ReceiveReadsPrefix`, `ReceiveAcksEachDatagram` and `ReceiveReturnsExpected` |
| SelectiveRepeatEngine.ReceiveReadsPrefix | lib/protocols/selective_repeat.py:74-95 | one `receive` reads a prefix of its input and leaves the rest unread; a datagram that does not decode ends it with the codec's error and gets no ACK, every other datagram read gets one ACK, and `None` means the input ran out |
| SelectiveRepeatEngine.ReceiveAcksEachDatagram | lib/protocols/selective_repeat.py:74-81 | the i-th ACK answers the i-th datagram read: it decoded, and the ACK carries its sequence number back to its sender |
| SelectiveRepeatEngine.ReceiveReturnsExpected | lib/protocols/selective_repeat.py:86-95 | a returned segment is the last datagram read, decoded, and its number is the one expected after the datagrams before it |
| SelectiveRepeatEngine.DeliveredAsWritten | lib/protocols/selective_repeat.py:86-95 | reference definition of the segments successive `receive` calls hand back as written, only the first of each ready run; stated by `AsWrittenDropsDrainedSegment` |
| SelectiveRepeatEngine.Delivered | lib/protocols/selective_repeat.py:86-92 | reference definition of the intended stream, every ready segment in order; stated by `DeliveredKeepsDrainedSegment`, `DeliveredInOrder` and `DeliveredConserves` |
| SelectiveRepeatEngine.AsWrittenDropsDrainedSegment | lib/protocols/selective_repeat.py:86-95 | arrivals 2, 0, 1, 3 deliver 0, 1, 3 as written: segment 2 is drained but never returned |
| SelectiveRepeatEngine.DeliveredKeepsDrainedSegment | lib/protocols/selective_repeat.py:86-95 | the intended receiver delivers 0, 1, 2, 3 for the same arrivals |
| SelectiveRepeatEngine.DeliveredInOrder | lib/protocols/selective_repeat.py:86-95 | the intended receiver's i-th delivered segment has the number i after the initially expected one, modulo 256 |
| SelectiveRepeatEngine.DeliveredConserves | lib/protocols/selective_repeat.py:86-99 | the intended receiver delivers only numbers that were buffered or arrived |
| SelectiveRepeatEngine.SelectiveRepeat.constructor | lib/protocols/selective_repeat.py:10-25 | base, next and expected number 0 and all maps empty |
| SelectiveRepeatEngine.SelectiveRepeat.Send | lib/protocols/selective_repeat.py:27-47 | a full window only sweeps the timeouts; otherwise the frame is stored and sent and `next_seq_num` moves on by one |
| SelectiveRepeatEngine.SelectiveRepeat.Store | lib/protocols/selective_repeat.py:39-47 | stores, sends and counts on one frame |
| SelectiveRepeatEngine.SelectiveRepeat.CheckTimeouts | lib/protocols/selective_repeat.py:49-56 | restamps and resends the expired entries in key order |
| SelectiveRepeatEngine.SelectiveRepeat.Sweep | lib/protocols/selective_repeat.py:51-56 | the loop's send times and resent frames are those of `Swept` and `Resent` |
| SelectiveRepeatEngine.SelectiveRepeat.ReceiveAck | lib/protocols/selective_repeat.py:62-70 | a datagram that does not decode raises and marks nothing; one that does marks the entries of its ACK number |
| SelectiveRepeatEngine.SelectiveRepeat.MarkAcked | lib/protocols/selective_repeat.py:66-70 | marks the entries of the ACK number |
| SelectiveRepeatEngine.SelectiveRepeat.Mark | lib/protocols/selective_repeat.py:66-70 | the marking loop yields the flags of `Acked` |
| SelectiveRepeatEngine.SelectiveRepeat.DrainBuffer | lib/protocols/selective_repeat.py:90-92 | the inner loop yields exactly `Drain` |
| SelectiveRepeatEngine.SelectiveRepeat.Receive | lib/protocols/selective_repeat.py:74-103 | returns what `RunReceive` returns and leaves its receiver, unread input and ACKs |
| SelectiveRepeatEngine.SelectiveRepeat.AcceptSegment | lib/protocols/selective_repeat.py:86-103 | one arrival's handling yields exactly `Accept` |
| SelectiveRepeatEngine.SelectiveRepeat.ReceiveLoop | lib/protocols/selective_repeat.py:75-103 | the loop of `receive` yields exactly `RunReceive` |
| ServerManager.InitAckEchoes | lib/server/server_manager.py:68-71 | the Init-ACK decodes to an Init segment with the echoed opcode and protocol, and is not the error text |
| ServerManager.Dispatch | lib/server/server_manager.py:30-99 | reference definition of `process_message` as designed; stated by `FinRemovesPeer`, `InitOpensConnection`, `FailedInitChangesNothing`, `KnownPeerIsHanded`, `OnlySenderEntryChanges` and `RepliesGoToSender` |
| ServerManager.DispatchAsWritten | lib/server/server_manager.py:30-99 | reference definition of `process_message` as written, with the three raising lines turned into the error reply; stated by `AsWrittenAnswersInitWithError`, `AsWrittenNeverHands` and `AsWrittenFinKeepsPeer` |
| ServerManager.FinRemovesPeer | lib/server/server_manager.py:44-53 | FIN removes exactly the sender's entry, if any, and sends nothing |
| ServerManager.InitOpensConnection | lib/server/server_manager.py:56-79 | an Init from an unknown peer adds it and sends it an Init-ACK echoing opcode and protocol |
| ServerManager.FailedInitChangesNothing | lib/server/server_manager.py:56-99 | a datagram from an unknown peer that is not an Init leaves the table alone and is answered with the error text |
| ServerManager.KnownPeerIsHanded | lib/server/server_manager.py:80-85 | a datagram from a known peer reaches its handler unchanged, table unchanged, no reply |
| ServerManager.OnlySenderEntryChanges | lib/server/server_manager.py:44-85 | only the sender's entry can change, only FIN removes one, and no entry is replaced |
| ServerManager.RepliesGoToSender | lib/server/server_manager.py:30-99 | at most one reply or hand-over per datagram, always to or from the sender |
| ServerManager.AsWrittenAnswersInitWithError | lib/server/server_manager.py:63-71 | as written, an Init is recorded but answered with the error text |
| ServerManager.AsWrittenNeverHands | lib/server/server_manager.py:84-85 | as written, a known peer's datagram never reaches a handler |
| ServerManager.AsWrittenFinKeepsPeer | lib/server/server_manager.py:49-52 | as written, FIN from a known peer keeps its entry |
| ServerManager.Server.constructor | lib/server/server_manager.py:116 | the server reads Init segments with `DeserializeInit` and starts with an empty table, nothing sent and nothing handed |
| ServerManager.Server.ProcessMessage | lib/server/server_manager.py:30-99 | the table, replies and hand-overs after one datagram are those of `Dispatch` |
| Transfer.IsEofBytes | lib/client/upload_client.py:62 | true exactly for the bytes `EOF` |
| Transfer.ReadErrorMessage | lib/client/uploader.py:60-63 | the encoded error is the 20-byte prefix followed by the exception's text |
| Transfer.Chunks | lib/client/upload_client.py:57-60 | the empty input has no slices; every slice is non-empty and at most n bytes, all but the last exactly n |
| Transfer.SliceEnd | lib/client/upload_client.py:58-59 | a slice starting inside the data ends after it, within the data, at most n bytes on, and exactly n bytes on unless at the end |
| Transfer.ConcatChunks | lib/client/upload_client.py:57-60 | the slices joined give the bytes back |
| DownloaderWorkers.Written | lib/client/downloader.py:37-54 | reference definition of the bytes `data_worker` appends to the file; stated by `WrittenAppend`, `WrittenStopsAtEof` and `DuplicatesNeverWritten` |
| DownloaderWorkers.Taken | lib/client/downloader.py:42-49 | the writer takes items up to and including the first `EOF_MARKER`, or all of them |
| DownloaderWorkers.WrittenAppend | lib/client/downloader.py:42-51 | a queue without `EOF_MARKER` writes its parts one after the other |
| DownloaderWorkers.WrittenStopsAtEof | lib/client/downloader.py:47-49 | nothing after the first `EOF_MARKER` reaches the file |
| DownloaderWorkers.Enqueued | lib/client/downloader.py:69-83 | a payload is queued exactly for a non-repeated segment, `None` otherwise, never `EOF_MARKER` |
| DownloaderWorkers.Reported | lib/client/downloader.py:79-83 | `is_eof` is reported for every decoded datagram, repeated or not, nothing when the worker raises |
| DownloaderWorkers.Queued | lib/client/downloader.py:59-83 | reference definition of the items the protocol workers put on `data_queue`; stated by `NeverQueuesEof` and `DuplicatesNeverWritten` |
| DownloaderWorkers.NeverQueuesEof | lib/client/downloader.py:72-77 | no worker queues `EOF_MARKER`, so the writer takes every item |
| DownloaderWorkers.DuplicatesNeverWritten | lib/client/downloader.py:66-77 | the file receives the payload of every non-repeated segment, once and in order, and nothing of a repeat |
| DownloaderWorkers.ClientRun | lib/client/downloader.py:91-121 | the loop consumes only the events it has, all of them while waiting, at least one before it ends |
| DownloaderWorkers.TimeoutStep | lib/client/downloader.py:106-117 | a timeout queues nothing and counts towards `MAX_ATTEMPTS` |
| DownloaderWorkers.ArrivalStep | lib/client/downloader.py:101-121 | a datagram queues its worker's item and resets the counter; eof finishes, a raise stalls |
| DownloaderWorkers.TimedOutAfterTimeouts | lib/client/downloader.py:106-113 | an abort follows at least `MAX_ATTEMPTS - counter` events, the last `MAX_ATTEMPTS` of them timeouts |
| DownloaderWorkers.TimeoutsAbort | lib/client/downloader.py:106-113 | only timeouts abort after exactly `MAX_ATTEMPTS - counter` of them |
| DownloaderWorkers.FinishesAtFirstEof | lib/client/downloader.py:96-121 | a finished transfer ends at the first datagram reporting end of file, none before it raised |
| DownloaderWorkers.Downloader.constructor | lib/client/downloader.py:16-35 | empty queue, no error, and the file opened in append mode keeps its existing contents |
| DownloaderWorkers.Downloader.DataWorker | lib/client/downloader.py:37-54 | appends `Written` of the queue to the file and takes `Taken` items |
| DownloaderWorkers.Downloader.ProtocolWorker | lib/client/downloader.py:59-83 | queues `Enqueued`, reports `Reported`, records a protocol error exactly when the receive raised |
| DownloaderWorkers.Downloader.TransferForClient | lib/client/downloader.py:91-127 | ends as `ClientRun` says, queues the items of the consumed events, records a timeout or protocol error, and closes the file and sends FIN exactly when finished or aborted |
| UploaderWorkers.ChunkItems | lib/client/uploader.py:50-55 | one queue item per slice, in order |
| UploaderWorkers.ReadStep | lib/client/uploader.py:50-55 | reading one slice queues the first chunk of what is left, the rest following |
| UploaderWorkers.Upload | lib/client/uploader.py:69-99 | the worker takes at most the queued items, all of them when it is left waiting |
| UploaderWorkers.UploadChunks | lib/client/uploader.py:73-86 | slices then `EOF_MARKER` make one data call per slice, in order, then the empty eof call |
| UploaderWorkers.FileItems | lib/client/uploader.py:42-67 | reference definition of the items `data_worker` queues for a readable file; stated by `UploadDeliversFile` |
| UploaderWorkers.UploadDeliversFile | lib/client/uploader.py:50-86 | an upload without failures ends with the eof call, and its data calls carry slices of at most `DATA_SIZE` bytes that join to the file |
| UploaderWorkers.FailureStopsUpload | lib/client/uploader.py:88-93 | a send that raises is the last call made |
| UploaderWorkers.ReadErrorIsSentAsData | lib/client/uploader.py:59-63 | a read error's text is sent as a data call and the worker then waits without the eof call |
| UploaderWorkers.UploadSignalled | lib/client/uploader.py:76-77 | `None` ends the worker without a call |
| UploaderWorkers.UploadReachesEof | lib/client/uploader.py:80-85 | `EOF_MARKER` ends the worker with the empty eof call |
| UploaderWorkers.UploadFailsAt | lib/client/uploader.py:86-93 | a chunk whose call raises ends the worker with that call |
| UploaderWorkers.Uploader.constructor | lib/client/uploader.py:17-40 | empty queue, no calls, no error, completion not set |
| UploaderWorkers.Uploader.Create | lib/client/uploader.py:17-40 | fails with SourceNotFound exactly when the path is empty or names no file |
| UploaderWorkers.Uploader.DataWorker | lib/client/uploader.py:42-67 | queues the file's slices and `EOF_MARKER`, leaving error and completion alone; on a read error it queues the error text as data, records the error and signals completion |
| UploaderWorkers.Uploader.TakeItems | lib/client/uploader.py:73-93 | the loop's calls, items taken and ending are those of `Upload` |
| UploaderWorkers.Uploader.ProtocolWorker | lib/client/uploader.py:69-99 | makes `Upload`'s calls and takes its items, records a protocol error exactly on a failure, and sets completion on every exit but waiting |
| UploadClientWorkers.ItemBytes | lib/client/upload_client.py:53-54 | a `str` item is sent as its encoding, bytes as they are |
| UploadClientWorkers.SendItemRun | lib/client/upload_client.py:51-67 | an item goes on exactly when it is not `EOF`, its calls are its data calls and none raised |
| UploadClientWorkers.ClientUpload | lib/client/upload_client.py:41-80 | the worker takes at most the queued items, all of them when it is left waiting |
| UploadClientWorkers.ItemCalls | lib/client/upload_client.py:57-67 | reference definition of the calls `protocol_worker` makes for one item; stated by `ItemCallsCarryItem`, `EmptyItemSendsNothing` and `EofItemCalls` |
| UploadClientWorkers.ItemCallsCarryItem | lib/client/upload_client.py:57-60 | the data calls of an item carry its bytes in slices of at most `BUFFER_SIZE - 7`, without eof |
| UploadClientWorkers.EmptyItemSendsNothing | lib/client/upload_client.py:58 | an empty item makes no call |
| UploadClientWorkers.EofItemCalls | lib/client/upload_client.py:57-67 | `EOF` is sent as three data bytes and then the empty eof call |
| UploadClientWorkers.SignalStep | lib/client/upload_client.py:48-49 | `None` ends the worker without a call |
| UploadClientWorkers.ClientUploadParts | lib/client/upload_client.py:45-67 | items then `EOF` are sent slice by slice and closed with the eof call |
| UploadClientWorkers.PartsCallsHaveNoEof | lib/client/upload_client.py:57-60 | no data call carries the eof flag |
| UploadClientWorkers.FileItems | lib/client/upload_client.py:11-39 | reference definition of the items `data_worker` queues for a readable file; stated by `UploadClientDeliversFile` and `EofFileLooksEmpty` |
| UploadClientWorkers.UploadClientDeliversFile | lib/client/upload_client.py:11-67 | an upload without failures ends with the eof call, and its data calls carry the file followed by `EOF` |
| UploadClientWorkers.EofFileLooksEmpty | lib/client/upload_client.py:19-67 | a file holding `EOF` is sent with exactly the calls of an empty file |
| UploadClientWorkers.UploadClient.constructor | lib/client/upload_client.py:7-9 | empty queue, no calls, no error, completion not set |
| UploadClientWorkers.UploadClient.DataWorker | lib/client/upload_client.py:11-39 | queues the file's slices and `EOF`, leaving error and completion alone; on a read error it queues the error text as data, records the error and signals completion |
| UploadClientWorkers.UploadClient.SendChunks | lib/client/upload_client.py:57-60 | the chunking loop makes the item's data calls, stopping at the raising one |
| UploadClientWorkers.UploadClient.SendItem | lib/client/upload_client.py:51-67 | one item's calls are those of `SendItemRun` |
| UploadClientWorkers.UploadClient.ProtocolWorker | lib/client/upload_client.py:41-80 | makes `ClientUpload`'s calls and takes its items, records a protocol error exactly on a failure, and sets completion on every exit but waiting |
| DownloadClientWorkers.DrainQueue | lib/client/download_client.py:17-26 | the writer takes at most the queued items, all of them unless it stopped |
| DownloadClientWorkers.DrainStopsAtFirst | lib/client/download_client.py:17-26 | the writer stops at the first `None` or `EOF`, and takes everything exactly when there is none |
| DownloadClientWorkers.DrainAppend | lib/client/download_client.py:17-26 | a queue that does not stop the writer is written whole before what follows |
| DownloadClientWorkers.Receive | lib/client/download_client.py:37-56 | the receiver stops right after putting `EOF`, and otherwise makes every call |
| DownloadClientWorkers.ReceiveStaysFinished | lib/client/download_client.py:45-46 | after `EOF` later receipts change nothing |
| DownloadClientWorkers.Got | lib/client/download_client.py:41-51 | the received blocks are at most the calls made |
| DownloadClientWorkers.DownloadWaitsWithoutEof | lib/client/download_client.py:40-51 | without `EOF` the receiver keeps waiting, skipping raised receives, and the file gets the blocks joined in order |
| DownloadClientWorkers.DownloadStopsAtEof | lib/client/download_client.py:40-46 | the download ends at the first `EOF`, and the file gets exactly the blocks before it |
| DownloadClientWorkers.EofBlockEndsDownload | lib/client/download_client.py:17-46 | a block holding `EOF` ends the download whatever follows |
| DownloadClientWorkers.DownloadClient.constructor | lib/client/download_client.py:7-9 | empty queue, empty file, completion not set |
| DownloadClientWorkers.DownloadClient.DataWorker | lib/client/download_client.py:11-35 | the file holds `DrainQueue`'s bytes when it could be opened and is untouched otherwise; the items drained are taken, and completion is set when the worker stopped |
| DownloadClientWorkers.DownloadClient.ProtocolWorker | lib/client/download_client.py:37-56 | queues `Receive`'s items and reports its calls and whether it finished |

## Left out

- Threads, locks, `threading.Event` waits and the blocking of `Queue.get` are left out. The threads of one transfer run one after the other, and an empty queue ends a worker's loop as still waiting.
- Sockets are left out: `socket.sendto` appends to an output log, and `recvfrom` and `Queue.get(timeout=...)` read scripted input sequences.
- The clock is left out. `time.time()` is an integer `now` in milliseconds, and `TIMEOUT = 0.5` is 500.
- Logging and `verbose`/`quiet` printing are left out.
- Crc.Crc32 is a concrete CRC-32 (polynomial 0xEDB88320). No proof depends on its definition, and no lemma claims it detects bit errors.
- StopAndWaitEngine.StopAndWait.Send: the extra `verbose` argument passed to `serialize` and `deserialize` (lib/protocols/stop_and_wait.py:26, 41) would raise a `TypeError`. The model ignores it and uses the codec's own signature.
- StopAndWaitEngine.StopAndWait.Unpack: the same for lib/protocols/stop_and_wait.py:79-80 and 102.
- ServerManager.Server.ProcessMessage, ServerManager.DispatchAsWritten: the same for `InitSegment.deserialize(data, args.verbose)` and `serialize(args.verbose)` at lib/server/server_manager.py:58 and 71. Taken literally, line 58 raises before the insert at line 66, so no Init from a new peer would be recorded; the as-written model, and the finding on lines 68-71, assume the argument is ignored.
- InitMessageParser.Parse: UTF-8 decoding of the path is not modelled. The path stays bytes, so an invalid UTF-8 path that `parse` refuses is accepted here. File existence is membership in a set of paths.
- InitMessageParser.Parse, InitMessageParser.ParseSpec, InitMessageParser.ParseOfInitMessage: these model `parse` as intended and accept every well-formed "sw" INIT. As written, lib/utils/init_message_parser.py:101-102 builds the Stop-and-Wait handler with three arguments for a four-parameter constructor. The `TypeError` is returned as a failure at lines 114-115, so the source refuses every "sw" INIT. `InitMessageParser.ParseAsWritten` models that; see Findings.
- InitMessageParser.Parse: the protocol handler that `parse` builds and returns inside `ConnectionInfo` is not modelled.
- InitMessageParser.CreateInitMessage: the configured path is taken as already UTF-8 encoded.
- `FileManager` (lib/utils/file_manager.py) is not part of this model. Its `read` takes no size argument and it has no `append`, but the workers call `read(n)` and `append(data)`. The model reads slices of the requested size and appends to a byte sequence.
- UploaderWorkers.Uploader.DataWorker: `file_size()` returning `None` and a failing `open` are one case, "the source cannot be read".
- UploadClientWorkers.UploadClient.DataWorker: the same as `Uploader.DataWorker`.
- DownloadClientWorkers.DownloadClient.DataWorker: a file that cannot be opened makes every write a no-op, which is modelled by `canOpen`. A `str` item raises inside `FileManager.write` and is swallowed there, so nothing of it is written.
- `EOF_MARKER`, `APPEND_MODE`, `STOP_AND_WAIT`, `SELECTIVE_REPEAT`, `HEADER_SIZE_SW`, `DOWNLOAD_OPERATION` and `UPLOAD_OPERATION` are imported by the source but not defined in lib/utils/constants.py.
  - `EOF_MARKER` is a queue item distinct from every byte string.
  - `APPEND_MODE` is modelled by the downloader's file starting from its existing contents.
  - `Constants.STOP_AND_WAIT` and `Constants.SELECTIVE_REPEAT` are 1 and 2, the protocol bytes of the INIT message.
  - `HEADER_SIZE_SW` (lib/protocols/stop_and_wait.py:3,20) only sets the handler's `data_size`, which no modelled operation reads. Slicing uses `Constants.DATA_SIZE`, which is `BUFFER_SIZE - HEADER_SIZE`, 1017.
  - `DOWNLOAD_OPERATION` and `UPLOAD_OPERATION` only set the clients' `op_code` field, which no modelled operation reads, so the model has no value for them. The INIT message's own opcodes are `InitMessageParser.OPCODE_DOWNLOAD` (1) and `OPCODE_UPLOAD` (2).
- `SelectiveRepeat.send_file` and `SelectiveRepeat.receive_file` (lib/protocols/selective_repeat.py:105-140) are not modelled. They are file-driven loops over the modelled operations.
- DownloadClientWorkers.Receive: lib/client/download_client.py:42 calls `receive_file()` with no argument, but both handlers' `receive_file` take one. The Stop-and-Wait one (lib/protocols/stop_and_wait.py:106-134) returns a tuple `(payload, is_repeated, is_eof)`, and the Selective-Repeat one takes a path and returns nothing. The model abstracts each call as an `Option` of a block of bytes.
- DownloaderWorkers.Downloader.ProtocolWorker: lib/client/downloader.py:65-66 passes the datagram and unpacks three values, which fits only the Stop-and-Wait handler. The model takes each result as a `Delivery` of those three values, or as raised.
- `run` and `handle_client_connection` of lib/server/server_manager.py are not modelled. They are the server's socket loop and thread start.
- The connection record the server keeps holds only the Init segment. The real record is built from mismatched arguments; see Findings.
- The engines' handling of the `eof` argument of `SelectiveRepeat.send` is left out, because the Selective-Repeat segment has no eof field and the source drops the argument.
- `Downloader.transfer`, `start_workers`, `terminate` and `Uploader.transfer` are not modelled. They only start or join threads.
- `lib/client/base_client.py` is not modelled: the handshake, `run` and the client's socket.
- The command-line entry points are not modelled.
- `SelectiveRepeatEngine.SelectiveRepeat.Receive` models `receive` as written. It compares sequence numbers as plain integers, with no wrap-around, exactly as the source does.
- SelectiveRepeatEngine.DeliveredConserves states only that nothing is invented. Completeness of the intended receiver is stated per arrival by `AcceptConserves` and as an order by `DeliveredInOrder`.
- SelectiveRepeatEngine.SelectiveRepeat.ReceiveAck models one pass of `receive_ack_loop`. The `while True` loop around it and its `socket.timeout` exit are left out.

## Findings

| source | as written | input that shows it | evidently intended | confidence | as-written member | corrected member |
|---|---|---|---|---|---|---|
| lib/protocols/selective_repeat.py:94-95 | `receive` drains the contiguous buffered run into `entregables` but returns only its first element; the drained segments are lost | segments numbered 2, 0, 1, 3 arriving at a fresh receiver: the caller gets 0, 1, 3 | every drained segment reaches the caller, in sequence order | not executed | SelectiveRepeatEngine.AsWrittenDropsDrainedSegment | SelectiveRepeatEngine.DeliveredInOrder |
| lib/server/server_manager.py:68-71 | the Init-ACK is built with the integer 1 as its file name, and `serialize` takes `len` of it and raises after the peer was recorded (reading the extra `verbose` argument at line 58 as ignored, since taken literally that call raises first) | any valid Init segment from an unknown peer: the peer is recorded but receives the error text | the peer is recorded and receives an Init-ACK echoing opcode and protocol | not executed | ServerManager.AsWrittenAnswersInitWithError | ServerManager.InitOpensConnection |
| lib/server/server_manager.py:84-85 | a connection record has no `operation_handler`, so the hand-over raises | any datagram other than `b"FIN"` from a recorded peer: nothing reaches a handler | the datagram reaches the peer's handler | not executed | ServerManager.AsWrittenNeverHands | ServerManager.KnownPeerIsHanded |
| lib/server/server_manager.py:51 | the record built at line 63 holds `args` in its handler field, and `args.socket` does not exist, so the close raises before the entry is deleted | `b"FIN"` from a recorded peer: the entry stays | the entry is removed | not executed | ServerManager.AsWrittenFinKeepsPeer | ServerManager.FinRemovesPeer |
| lib/utils/init_message_parser.py:101-102 | `parse` calls `StopAndWait` with three arguments, but the constructor at lib/protocols/stop_and_wait.py:9 takes four; the `TypeError` is caught at lines 114-115 and returned as a failure | any well-formed INIT with protocol byte 1: `parse` returns `(False, ...)` | the message parses with a Stop-and-Wait handler | not executed | InitMessageParser.AsWrittenRefusesStopAndWait | InitMessageParser.ParseOfInitMessage |

The as-written server members (`AsWrittenAnswersInitWithError`,
`AsWrittenNeverHands`, `AsWrittenFinKeepsPeer`) are stated on
`DispatchAsWritten`; the corrected members and the class `Server` use
`Dispatch`. `InitMessageParser.ParseAsWritten` models `parse` as written,
and `ParseSpec`, `Parse` and the rest of the model use the intended parser.
The Selective-Repeat class models `receive` as written,
since the caller that consumes the returned segments (`receive_file`) is not
part of this model. The corrected stream `Delivered` is stated beside it.
