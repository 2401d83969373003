# A verified model of mothbus

mothbus is a header-only Modbus library: a PDU codec, Modbus/TCP and Modbus RTU framing, a master
(client) and, in `examples/`, a slave (server) with 200 holding registers. This project models it
in Dafny and proves what the pieces promise, up to whole runs of masters and slave together.

The project is layered like the library. Byte-level behaviour is first given as functions on byte
strings (`Requests`, `Responses`, `Frames`, and the CRC modules) and fixed byte by byte in `Layout`.
The code that works by updating
buffers, cursors and streams is then modelled as classes and methods with loops (`Buffers`,
`Codec`, `Transports`, `TcpStreams`, `RtuStreams`, `Masters`, `Servers`, `Packing`, `Crc16`), each
proved equal to those functions. On top stand a step system (`RemoteSystem`) and the runs of a
connection that is out of step (`OutOfStep`).

Main results:

- **Remote equals local.** A word-level `read_registers` call over the wire returns exactly what
  a local read of the registers would, and leaves the stream empty, if and only if the call is
  `Faithful` (nonzero unit, not 124 or 125 existing registers, no truncated size). Over every run
  of any number of connections, with bytes delivered in chunks of any size and register updates
  interleaved, every call is linearizable (`LinearizationPoint`), reads respect real time across connections, no read is
  torn, idle connections hold no bytes, and every pending call can always be driven to its return.
  These hold on every connection that has made only faithful calls, whatever the others do.
- **Out of step.** After an unfaithful call, bytes stay in the stream and later calls read them as
  their headers. `InStepIff` says exactly when a connection is in step again, `StaysOutOfStep` what
  every run does until then, and `LongReadPoisons` that one read of 124 registers makes at least
  the next 35 calls fail. The slave stays on frame boundaries throughout (`SlaveNeverStops`).
- **The CRC.** The table loop computes the bitwise CRC of section 6.2.2 of MODBUS over Serial Line
  V1.02. It detects every burst of up to 16 bits (17 is shown to be too many), every odd number of
  flips, and, because x has order exactly 32767 modulo the generator, every one, two or three
  flipped bits in a frame of up to 4095 bytes (the bound on bits is shown to be exact).
- **The codec.** Decoding and encoding of the nine request kinds are exact inverses (an
  if-and-only-if over all byte strings), and running out of input means exactly being a strict
  prefix of an encoding.
- **Framing.** The back-patched TCP frame is the one-pass frame whatever the reused buffer held;
  acceptance of counted replies and of echoes is characterised exactly in wire bytes, over TCP and
  over RTU; reads stay on frame boundaries over any run of accepted headers; pipelined requests are
  answered one for one, in order, each from the registers at its turn.

Conventions: a byte is an `int` below 0x100 and a word an `int` below 0x10000, except inside the
CRC modules, which use bit vectors. An error code is the integer inside `error_code`; 0 means
success. A transport is the sequence of bytes that will still arrive; a read that wants more fails
(`Threw`), as Boost.Asio's synchronous read does.

Where the code differs from its documentation or from the evident intent, the model follows the
code:

- The client accepts `length` 2 to 249 only, the slave 2 to 254 (`AwaitFrameIff`, `LongFrameRefused`).
- The 0x06 response reader accepts only 0x0000 and 0xFF00 (`EchoRoundTripIff`, `EchoReported`).
- An exception reply with code 0 counts as success (`AcceptedIff`, `EchoAcceptedIff`,
  `ByteReadSuccessIff`, `ZeroExceptionIsSuccess`).
- The echo readers overwrite the address and value they were given and the master never compares
  them, so the echo of another address, value or quantity counts as success (`EchoAcceptedIff`,
  `ForeignEchoAccepted`).
- `receive_response` on RTU drops the decode result and checks the CRC over whatever the decoder
  passed. So every exception reply, of any code, is reported as success with nothing stored
  (`ExceptionReportedAsSuccess`, `ExceptionReportedAsWritten`). `ClearedIff` and `EchoClearedIff`
  give the exact condition in wire bytes for every burst. A damaged count or function code can make it check, and accept, a shorter frame (`CountFlipAccepted`,
  `CodeFlipAccepted`); with both intact the detection theorems apply (`CorruptedReplyAcceptedIff`).
- On RTU a burst from another slave is abandoned after its first byte; the rest stays on the line
  for the next receive (`LineAfter`).
- The length test of the example slave rejects only lengths below 2 (`NextRequest`).
- In `tcp.h`, `header.message_length` is read as the field `length` and `return h` as
  `return header`; in the example slave, `slave` in the address check is read as `unitID`.

## Model

The rows up to `OutOfStep` are results for all inputs, runs or states; those of `Layout` fix the
bytes on the wire, which the codec laws by themselves would leave open. The last nine, all in
`KnownAnswers` and marked "vector", evaluate the model on listed bytes; they pin byte layouts and
are not results.

| member | source | states |
|---|---|---|
| Packing.MemcpyMsb | include/mothbus/mothbus.h:52-62 | a native copy followed, on little-endian hosts, by the in-place swap of every pair is big-endian encoding on both kinds of host |
| Packing.MakeWords | include/mothbus/adu/master.h:13-16 | the master's `make_uint16` loop decodes the buffer pairwise, most significant byte first |
| Wire.WordsRoundTrip | include/mothbus/adu/master.h:171-182 | decoding the big-endian bytes of any register list gives the list back |
| Wire.BytesRoundTrip | include/mothbus/pdu/reader.h:42-50 | re-encoding the words read from any even number of bytes gives the bytes back |
| CrcTables.TablesHoldShifts | include/mothbus/adu/crc.h:11-58 | for every index the two tables hold the low and high byte of eight shift-and-XOR steps on it |
| CrcTables.TableStep | include/mothbus/adu/crc.h:67-72 | one pass of the table loop is eight bit steps of the register with the byte XORed in |
| Crc16.CRC16 | include/mothbus/adu/crc.h:60-74 | for every message the table-driven loop returns the bitwise CRC that starts at 0xFFFF and XORs 0xA001 when a 1 is shifted out |
| CrcBits.ShiftXor | include/mothbus/adu/crc.h:60-74 | any number of register shifts is linear over XOR |
| CrcBits.ShiftInjective | include/mothbus/adu/crc.h:60-74 | any number of register shifts is injective, hence a bijection of the register |
| CrcDetection.CrcFromIsFeed | include/mothbus/adu/crc.h:60-74 | the register over bytes equals the register fed bit by bit, least significant bit first |
| CrcDetection.SameRegisterIffZeroSyndrome | include/mothbus/adu/crc.h:60-74 | two equally long messages leave the same register exactly when the bits in which they differ have syndrome zero |
| CrcDetection.CrcAffine | include/mothbus/adu/crc.h:60-74 | the CRC of the bytewise XOR of three equally long messages is the XOR of their CRCs |
| CrcDetection.TwoBytesReachEveryRegisterOnce | include/mothbus/adu/crc.h:60-74 | from any register, two pairs of bytes lead to the same register exactly when they are the same pair |
| CrcDetection.AdjacentBytesDetected | include/mothbus/adu/crc.h:60-74 | messages that differ only within two adjacent bytes have different CRCs |
| CrcDetection.ResidueZeroIffCrcAppended | include/mothbus/adu/rtu.h:34-38 | a frame leaves residue zero exactly when its last two bytes are the low then the high CRC byte of the rest |
| CrcDetection.CrcParity | include/mothbus/adu/crc.h:60-74 | the CRC has an odd number of set bits exactly when the message has |
| CrcDetection.OddErrorsDetected | include/mothbus/adu/crc.h:60-74 | every error of an odd number of flipped bits changes the register |
| CrcDetection.ValidFramesHaveEvenWeight | include/mothbus/adu/rtu.h:34-38 | every frame with residue zero has an even number of set bits |
| CrcDetection.BurstsDetected | include/mothbus/adu/crc.h:60-74 | every nonempty error within 16 consecutive bits, at any bit offset, changes the register |
| CrcDetection.SeventeenBitBurstUndetected | include/mothbus/adu/crc.h:60-74 | the bound is tight: the generator as a 17-bit burst goes unnoticed |
| CrcOrder.OrderIs32767 | include/mothbus/adu/crc.h:60-74 | the powers of x modulo the generator return to 1 after 32767 steps and not before |
| CrcOrder.TwoFlipsSyndrome | include/mothbus/adu/crc.h:60-74 | two flipped bits cancel exactly when x to the power of their distance is 1 |
| CrcOrder.FewFlipsDetected | include/mothbus/adu/crc.h:60-74 | every error of one, two or three flipped bits in at most 32767 bits changes the register |
| CrcOrder.TwoFlipsAtTheOrderUndetected | include/mothbus/adu/crc.h:60-74 | the bound is tight: 32768 bits admit an unnoticed pair of flips |
| CrcOrder.CorruptionDetected | include/mothbus/adu/rtu.h:98-106 | a corruption of a valid frame keeps residue zero exactly when its syndrome is zero; bursts, odd and 1 to 3 flips never do |
| Buffers.Buffer.Put | include/mothbus/adu/buffer.h:24-27 | stores one byte at the write cursor, advances it, and leaves every other byte alone |
| Buffers.Buffer.Get | include/mothbus/adu/buffer.h:29-38 | takes the first unread byte, or reports `too_many_bytes_received` and moves nothing; the cursor never passes the end of the input |
| Buffers.Buffer.Receive | include/mothbus/adu/buffer.h:45-54 | bytes received into the prepared region are appended to the unread bytes |
| Codec.ReadWord | include/mothbus/pdu/reader.h:19-28 | reads a word most significant byte first; on a short input all of it is consumed, the error reported and the variable left as it was or with its high byte assigned |
| Codec.ReadByteSpan | include/mothbus/pdu/reader.h:30-40 | fills the span from the input; on a short input exactly the available bytes have been stored |
| Codec.ReadWordSpan | include/mothbus/pdu/reader.h:42-50 | fills a word span; on a short input exactly the available words, the last possibly in half, have been stored |
| Layout.SpanAfter | include/mothbus/pdu/reader.h:42-50 | what each word of a span holds after a read from any bytes: a whole word, a half word or what it held |
| Codec.ReadPlain | include/mothbus/pdu/req_reading_register.h:20-26 | the two-word request readers (0x01 to 0x06) agree with the decoding function in value, error and bytes left |
| Codec.ReadCoilWrite | include/mothbus/pdu/req_writing_multiple_coils.h:26-37 | the 0x0F reader agrees with the decoding function |
| Codec.ReadRegisterWrite | include/mothbus/pdu/req_writing_multiple_registers.h:26-37 | the 0x10 reader agrees with the decoding function, odd byte counts included |
| Codec.ReadRegisterReadWrite | include/mothbus/pdu/req_reading_writing_multiple_registers.h:28-41 | the 0x17 reader agrees with the decoding function |
| Codec.ReadVariant | include/mothbus/pdu.h:90-109 | trying the alternatives in order reads the one with the given code, or yields `not_implemented` and `illegal_function`; a failed read leaves the variant as it was |
| Codec.ReadRequest | include/mothbus/pdu.h:126-132 | reading a request from a buffer agrees with `Decode` in error, variant and bytes left |
| Codec.WriteWord | include/mothbus/pdu/writer.h:25-29 | writes a word most significant byte first |
| Codec.WriteRequest | include/mothbus/pdu/req_reading_writing_multiple_registers.h:44-54 | writing any of the nine requests puts its encoding at the write cursor and changes nothing else |
| Codec.WriteReply | include/mothbus/pdu/resp_reading_register.h:40-46 | writing any response puts its encoding at the write cursor and changes nothing else |
| Codec.ReadHead | include/mothbus/pdu.h:165-182 | the function-code byte decides between exception, mismatch and body as `TakeHead` says |
| Codec.PayloadTarget.Read | include/mothbus/pdu/resp_reading_register.h:26-38 | error, count field, bytes stored in the caller's span and bytes left are those of `ReceivePayload`; the span beyond them is untouched |
| Codec.EchoTarget.Read | include/mothbus/pdu/resp_writing_single_register.h:28-38 | error, both fields of the response object and bytes left are those of `ReceiveEcho`, also when the read fails |
| Requests.DecodeIffEncode | include/mothbus/pdu.h:89-132 | a byte string decodes to a request with some bytes left if and only if the request is consistent and the string is its encoding followed by those bytes |
| Requests.PrefixFree | include/mothbus/pdu.h:126-138 | encodings of consistent requests are injective and prefix-free, within and across kinds |
| Requests.Rejections | include/mothbus/pdu.h:90-132 | decoding fails only with `illegal_function` after one byte, or with `too_many_bytes_received` after all input |
| Requests.StrictPrefixRejected | include/mothbus/pdu.h:126-132 | every strict prefix of an encoded request is rejected with `too_many_bytes_received` |
| Requests.IncompleteIffStrictPrefix | include/mothbus/pdu.h:126-132 | running out of input happens exactly on strict prefixes of encodings of consistent requests |
| Layout.EncodedPlain | include/mothbus/pdu/req_writing_single_register.h:32-38 | the requests 0x01 to 0x06 are function code, address, then quantity or value, each word most significant byte first, for every code |
| Layout.EncodedCoils | include/mothbus/pdu/req_writing_multiple_coils.h:40-50 | the bytes of every 0x0F request |
| Layout.EncodedRegisters | include/mothbus/pdu/req_writing_multiple_registers.h:40-48 | the bytes of every 0x10 request, registers at offset 6 |
| Layout.EncodedReadWrite | include/mothbus/pdu/req_reading_writing_multiple_registers.h:44-54 | the bytes of every 0x17 request, read part before write part, registers at offset 10 |
| Layout.DecodedPlain | include/mothbus/pdu/req_writing_single_register.h:23-29 | what any bytes that start with 0x01 to 0x06 decode to, by offset |
| Layout.DecodedCoils | include/mothbus/pdu/req_writing_multiple_coils.h:26-37 | what any bytes that start with 0x0F decode to, by offset |
| Layout.DecodedRegisters | include/mothbus/pdu/req_writing_multiple_registers.h:26-37 | what any bytes that start with 0x10 decode to, by offset, odd byte counts included |
| Layout.DecodedReadWrite | include/mothbus/pdu/req_reading_writing_multiple_registers.h:28-41 | what any bytes that start with 0x17 decode to, by offset |
| Layout.DecodedUnknown | include/mothbus/pdu.h:89-132 | any other function code is error 1 after one byte |
| Codec.VariantRead | include/mothbus/pdu.h:89-132 | the variant holds the request, `not_implemented` after an unknown function code, and what it held before if the input ended |
| Responses.PayloadRoundTripIff | include/mothbus/pdu/resp_reading_register.h:26-46 | a counted response reads back with what follows left over if and only if it has at most 255 bytes and fits the reader's span |
| Responses.PayloadSound | include/mothbus/pdu/resp_reading_register.h:26-38 | a reported success that is not a zero exception consumed exactly the encoding of what was stored |
| Responses.PayloadAccepted | include/mothbus/pdu/resp_reading_register.h:26-38 | with the right code and all announced bytes present, the read succeeds exactly when the span is large enough |
| Responses.ExceptionRoundTrip | include/mothbus/pdu.h:148-155 | an exception reply carries its code to any reader, whatever response it expected |
| Responses.EchoRoundTripIff | include/mothbus/pdu/resp_writing_single_register.h:28-46 | an echo overwrites both fields with what was written whatever they held, and on/off readers report any other value as `illegal_data_value` |
| Layout.EncodedPayload | include/mothbus/pdu/resp_reading_register.h:40-46 | the bytes of every counted reply, its count modulo 256 |
| Layout.EncodedPair | include/mothbus/pdu/resp_writing_single_register.h:40-46 | the bytes of every echo |
| Layout.EncodedException | include/mothbus/pdu.h:148-155 | an exception reply is the function code of the request with bit 0x80 set, then the exception code |
| Layout.ReceivedPayload | include/mothbus/pdu.h:165-182 | error, count, stored bytes and rest for any bytes read as a counted response, with numeric error codes |
| Layout.ReceivedEcho | include/mothbus/pdu.h:165-182 | error, both fields and rest for any bytes read as an echo |
| Frames.HeaderRoundTrip | include/mothbus/adu/tcp.h:48-66 | parsing the seven header bytes recovers all four fields |
| Frames.DocumentedFramesFit | include/mothbus/adu/tcp.h:19-39 | every request with documented quantities fits in 260 bytes with an untruncated, valid length field |
| Frames.AcceptedIff | include/mothbus/adu/tcp.h:118-157 | for a nonzero unit `read_response` of a counted response succeeds if and only if ids and protocol match, the length is at most 249, and the body is the expected reply or an exception with code 0 |
| Frames.EchoAcceptedIff | include/mothbus/adu/tcp.h:118-157 | the same for the echoes 0x05, 0x06, 0x0F and 0x10, in wire bytes: neither address nor quantity matters, and of the value only whether it is on/off where the reader insists; with what an accepted echo leaves in the object and the stream |
| Layout.FrameBytes | include/mothbus/adu/tcp.h:96-113 | the bytes of every frame |
| Layout.AwaitedBytes | include/mothbus/adu/tcp.h:118-152 | what the two reads obtain from any stream, with the error of each header check and their order |
| Layout.BroadcastReads | include/mothbus/adu/tcp.h:120-122 | a broadcast succeeds, reads nothing and touches neither object nor memory |
| Layout.NoBody | include/mothbus/adu/tcp.h:126-151 | outcome and rest of `read_response` on any stream without an acceptable header and a whole body |
| Layout.WithBody | include/mothbus/adu/tcp.h:151-157 | otherwise the body decides, and exactly header and body are taken |
| Layout.RequestBytes | include/mothbus/adu/tcp.h:181-212 | what the request read of the slave obtains from any stream |
| Frames.AwaitFrameIff | include/mothbus/adu/tcp.h:126-152 | the client takes exactly the body of a matching frame if and only if that body has 1 to 248 bytes |
| Frames.LongFrameRefused | include/mothbus/adu/tcp.h:147-149 | a longer body is refused after the header and stays in the stream |
| Frames.StaysOnFrameBoundaries | include/mothbus/adu/tcp.h:126-156 | over any run of frames with accepted headers, counted and echo reads in any order end exactly at frame boundaries whatever the bodies hold |
| Frames.SlaveRecoversIff | include/mothbus/adu/tcp.h:181-212 | the slave recovers transaction id, unit and request from a frame if and only if the encoding has at most 253 bytes; others are refused |
| TcpStreams.BackPatch | include/mothbus/adu/tcp.h:96-113 | whatever stale bytes the buffer held, placeholder plus in-place patch equals the frame written in one pass |
| TcpStreams.TcpStream.SendRequest | include/mothbus/adu/tcp.h:93-115 | sends exactly one frame under the current transaction id and steps the id modulo 65536 |
| TcpStreams.TcpStream.SendReply | include/mothbus/adu/tcp.h:230-252 | sends exactly one frame under the given ids |
| TcpStreams.TcpStream.Await | include/mothbus/adu/tcp.h:120-152 | the header and body reads consume and yield what `AwaitReply` says |
| TcpStreams.TcpStream.ReadPayload | include/mothbus/adu/tcp.h:117-157 | outcome, caller's memory and bytes left in the stream are those of `ReadPayloadResponse` |
| TcpStreams.TcpStream.ReadEcho | include/mothbus/adu/tcp.h:117-157 | outcome, both fields of the response object and bytes left are those of `ReadEchoResponse` |
| TcpStreams.TcpStream.ReceiveRequest | include/mothbus/adu/tcp.h:162-228 | the two-phase request read hands over ids, error and variant as `ReadRequestFrame` says |
| RtuStreams.CheckIffResidueZero | include/mothbus/adu/rtu.h:98-106 | the receiver's two-byte comparison is exactly the residue-zero test |
| RtuStreams.SentFramesHaveResidueZero | include/mothbus/adu/rtu.h:31-38 | every frame the sender writes is address, request and the two bytes that leave residue zero |
| RtuStreams.RtuStream.SendRequest | include/mothbus/adu/rtu.h:26-46 | sends slave, encoded request and the CRC of both, low byte first |
| RtuStreams.RtuStream.ReceiveResponse | include/mothbus/adu/rtu.h:57-109 | outcome and caller's memory are those of `ReceiveBurst` on the bytes that arrive before silence; a broadcast leaves the line alone, another slave's byte is all that is taken of its burst, otherwise the line is empty afterwards |
| RtuStreams.RtuStream.ReceiveEchoResponse | include/mothbus/adu/rtu.h:57-109 | the same for echoes, with both fields of the response object |
| RtuStreams.ClearedIff | include/mothbus/adu/rtu.h:76-108 | for every burst the error is cleared if and only if the slave byte matches and a part whose length is read off the function-code and count bytes, with the two bytes after it, has residue zero; otherwise it is invalid slave or invalid response; payload is stored exactly when the function code is the expected one and the count fits |
| RtuStreams.EchoClearedIff | include/mothbus/adu/rtu.h:76-108 | the same for echoes, whose value plays no part |
| RtuStreams.NothingReceived | include/mothbus/adu/rtu.h:60-72 | a broadcast succeeds without listening, silence is a timeout, and nothing is stored |
| RtuStreams.ForeignBytesSkipped | include/mothbus/adu/rtu.h:76-81 | receives in a row take a foreign burst apart byte by byte, and the next one reads the rest as its burst |
| RtuStreams.ExceptionReportedAsSuccess | include/mothbus/adu/rtu.h:94-108 | every exception reply, whatever its code, is reported as success with nothing stored |
| RtuStreams.ExceptionReportedAsWritten | include/mothbus/adu/rtu.h:94-108 | a refused write is reported as success as well |
| RtuStreams.EchoDelivered | include/mothbus/adu/rtu.h:94-108 | every echo yields its fields and a cleared error, also a value that the decoder refuses |
| RtuStreams.ReplyDelivered | include/mothbus/adu/rtu.h:57-109 | every well-formed counted reply that fits yields its payload and a cleared error |
| RtuStreams.CorruptedReplyAcceptedIff | include/mothbus/adu/rtu.h:94-106 | with function code and count intact, a corrupted reply is accepted if and only if the slave byte is intact and the flips have syndrome zero; no burst of up to 16 bits, odd number of flips or 1 to 3 flips is accepted |
| RtuStreams.CountFlipAccepted | include/mothbus/adu/rtu.h:94-106 | the count must be intact: for every slave and code some correct reply is still accepted, as a shorter one, after one flipped bit in its count |
| RtuStreams.CodeFlipAccepted | include/mothbus/adu/rtu.h:94-106 | so must the function code: for every slave and code some correct reply is accepted, as an exception and with nothing stored, after bit 0x80 of its code flips |
| Packing.PackedBits | include/mothbus/adu/master.h:98-110 | for zero/one coils, bit k mod 8 of byte k/8 is coil k and every padding bit is 0 |
| Packing.PackedByte | include/mothbus/adu/master.h:94-110 | each packed byte, for coils of any value, is their sum weighted with 1 to 128 modulo 256, and there are exactly as many bytes as needed |
| Packing.CoilSumBits | include/mothbus/adu/master.h:104-107 | for zero/one coils the additions never carry and the bits of the sum are the coils |
| Packing.UnpackRestoresIff | include/mothbus/adu/master.h:98-110 | unpacking restores the list if and only if it consists of zeros and ones |
| Packing.CoilCountFits | include/mothbus/adu/master.h:91-96 | 1 to 1968 coils need at most 246 bytes, so the count fits its byte |
| Packing.PackByte | include/mothbus/adu/master.h:104-107 | the inner loop computes the weighted sum of the coils modulo 256 |
| Packing.Pack | include/mothbus/adu/master.h:98-110 | the nested loops compute `PackCoils` |
| Masters.TcpMaster.ReadBytes | include/mothbus/adu/master.h:43-62 | one request frame is sent; result, `out` and stream are those of the byte read with the count check; a broadcast stores and reads nothing |
| Masters.TcpMaster.ReadWords | include/mothbus/adu/master.h:171-182 | the word-level read fills `out` on success and leaves it unchanged otherwise, as `WordRead` says |
| Masters.TcpMaster.ReadWriteMultipleRegisters | include/mothbus/adu/master.h:236-259 | the 0x17 request is sent and the id stepped; on success the values are the payload prefix followed by zeros |
| Masters.TcpMaster.WriteSingle | include/mothbus/adu/master.h:69-82 | the request frame is sent and the id stepped; success means exactly an acceptable echo, whatever address it carries; a broadcast succeeds without reading |
| Masters.TcpMaster.WriteMultipleCoils | include/mothbus/adu/master.h:89-121 | the frame sent carries the packed coils, their quantity and their byte count; success means exactly an acceptable echo, whatever address and quantity it carries; a broadcast succeeds without reading |
| Masters.TcpMaster.WriteMultipleRegisters | include/mothbus/adu/master.h:209-225 | the frame sent carries the registers, their quantity and their byte count; success as for coils |
| Masters.ByteReadSuccessIff | include/mothbus/adu/master.h:154-170 | for a nonzero unit a byte read succeeds if and only if a reply of exactly that size is on the wire, and then every byte of `out` is the payload byte, or an exception with code 0 is and the size is at most 255, and then `out` is untouched; an acceptable reply of another size is `invalid_response` |
| Masters.WordReadIff | include/mothbus/adu/master.h:171-182 | a word read returns registers under the same condition, and they are the big-endian words on the wire; every other result is given |
| Masters.BroadcastByteRead | include/mothbus/adu/master.h:154-170 | a broadcast byte read succeeds exactly up to 255 bytes and reads and stores nothing |
| Masters.BroadcastWordRead | include/mothbus/adu/master.h:171-182 | a broadcast word read returns zeros, up to 127 registers |
| Masters.ReadWriteSuccessIff | include/mothbus/adu/master.h:249-258 | the 0x17 call succeeds if and only if the reply is acceptable for its span; the count is not compared, so only the payload prefix is guaranteed |
| Masters.ZeroExceptionIsSuccess | include/mothbus/pdu.h:171-176 | an exception reply with code 0 makes a word read succeed with zeros |
| Masters.EchoReported | include/mothbus/adu/master.h:189-202 | an echo frame is reported as success exactly when the reader does not insist on an on/off value or the value is one, so a performed 0x06 write of any other value is reported as an error |
| Masters.ForeignEchoAccepted | include/mothbus/adu/master.h:76-81 | the echo of another address, value or quantity has the same outcome as the right one |
| Masters.CoilsCrossTheWire | include/mothbus/adu/master.h:89-112 | from the master's frame the slave obtains a request that unpacks to the very coils, for every documented zero/one list |
| Servers.Server.Update | examples/tcpserver_coroutine_with_data.cpp:147-152 | the posted update sets every register to the same value |
| Servers.Server.HandleRequest | examples/tcpserver_coroutine_with_data.cpp:39-67 | writes exactly one frame under the request's ids: the registers asked for, or the right exception |
| Servers.ReadAnswered | examples/tcpserver_coroutine_with_data.cpp:44-66 | the bytes of the answer to every 0x03 request: illegal value, illegal address, or the registers |
| Servers.OtherAnswered | examples/tcpserver_coroutine_with_data.cpp:39-42 | every other request is answered with its function code plus 0x80 and illegal function |
| Servers.OtherServed | examples/tcpserver_coroutine_with_data.cpp:39-42 | on the stream such a request yields exactly that frame of nine bytes, whatever follows |
| Servers.Server.HandleMessages | examples/tcpserver_coroutine_with_data.cpp:70-109 | with any updates posted between the passes, the loop writes exactly `Serve` of its input, stops for the stated reason and leaves the registers as the updates set them |
| Servers.ServedBytes | examples/tcpserver_coroutine_with_data.cpp:75-108 | what the loop does with any bytes: complaint, end or answer, with the bytes each takes and writes |
| Servers.LastUpdateCounts | examples/tcpserver_coroutine_with_data.cpp:147-152 | after posted updates every register holds the number of the last one |
| Servers.RegistersFollowUpdates | examples/tcpserver_coroutine_with_data.cpp:147-152 | the registers of each pass are those after all updates posted up to it, each once and in order |
| Servers.PipelinedRequestsAnswered | examples/tcpserver_coroutine_with_data.cpp:75-108 | any number of back-to-back requests get one answer each, in order, under their own ids and from the registers at their own turn |
| Servers.AnswersInTurn | examples/tcpserver_coroutine_with_data.cpp:75-108 | answer number k is computed from the registers after the updates of the first k + 1 passes |
| RemoteCall.ReplyConcluded | include/mothbus/adu/master.h:154-182 | what the client makes of the slave's reply, in every case of size and address |
| RemoteCall.RemoteEqualsLocalIff | include/mothbus/adu/master.h:154-182 | a remote read equals the local read and leaves nothing in the stream if and only if the call is faithful |
| RemoteSystem.InvStep | examples/tcpserver_coroutine_with_data.cpp:70-153 | every step of the system, unfaithful calls included, keeps the invariant that places the one message of each pending call of a clean connection |
| RemoteSystem.EveryCallLinearized | include/mothbus/adu/tcp.h:94-157 | over every run, on a connection whose calls were faithful and whatever calls other connections make, each call returns the local result for the registers at one moment between its start and end, across transaction-id wrap-around |
| RemoteSystem.LinearizationPoint | include/mothbus/adu/tcp.h:94-157 | for every call made in a reachable state and every run to its return, on a connection clean then, the run passes through a state whose registers, read locally, give the returned result |
| RemoteSystem.RecordTellsTheRun | include/mothbus/adu/tcp.h:94-157 | the record of a call carries the updates and returned calls at the very moments it was made and returned |
| RemoteSystem.TransactionIdsCount | include/mothbus/adu/tcp.h:114 | transaction ids count the calls of their connection from 0, modulo 65536 |
| RemoteSystem.CleanIff | include/mothbus/adu/master.h:171-182 | the flag `clean` of a connection says exactly that every call made on it in the run was faithful |
| RemoteSystem.IdleConnectionsAreEmpty | include/mothbus/adu/tcp.h:94-157 | between faithful calls both channels of a connection are empty and the slave waits for a header |
| RemoteSystem.SlaveNeverStops | examples/tcpserver_coroutine_with_data.cpp:75-108 | on the traffic of masters, unfaithful calls included, the message loop never ends and stays on frame boundaries |
| RemoteSystem.NoTornReads | examples/tcpserver_coroutine_with_data.cpp:26-67 | between tasks all registers are equal, and every successful reply on a clean connection carries copies of one value |
| RemoteSystem.ReadsNeverGoBack | examples/tcpserver_coroutine_with_data.cpp:144-153 | a call made after another returned, on any clean connections, sees registers at least as new |
| RemoteSystem.NeverStuck | include/mothbus/adu/tcp.h:94-157 | in every reachable state a pending call of a clean connection has a possible step of its own connection |
| RemoteSystem.EveryStepAdvances | include/mothbus/adu/tcp.h:94-157 | every step of its connection strictly decreases the distance of a pending call to its return |
| RemoteSystem.EveryCallCanReturn | include/mothbus/adu/tcp.h:94-157 | from every reachable state a pending call of a clean connection is driven to its return by its own steps, within the rank |
| RemoteSystem.ServerStepsAreOnePass | examples/tcpserver_coroutine_with_data.cpp:81-107 | the two slave steps of the system are one pass of the message loop |
| RemoteSystem.ClientStepsAreWordRead | include/mothbus/adu/tcp.h:127-156 | the two client steps of the system are the master's word read |
| RemoteSystem.EveryScheduleAllowed | examples/tcpserver_coroutine_with_data.cpp:75-153 | nothing but missing bytes holds a step back |
| RemoteSystem.ServerHeaderBytes | examples/tcpserver_coroutine_with_data.cpp:81-94 | the header step of the slave on any seven bytes |
| RemoteSystem.ServerBodyStops | examples/tcpserver_coroutine_with_data.cpp:97-102 | a body that does not decode ends the loop |
| RemoteSystem.ClientHeaderBytes | include/mothbus/adu/tcp.h:127-149 | the header step of the client on any seven bytes, with the error that ends the call |
| RemoteSystem.BroadcastStep | include/mothbus/adu/tcp.h:120-122 | a broadcast call returns zeros at once |
| RemoteSystem.UpdateStepIsPosted | examples/tcpserver_coroutine_with_data.cpp:147-152 | the update step is the posted update of the slave and changes nothing else |
| OutOfStep.RefusedCall | include/mothbus/adu/tcp.h:126-149 | a call that does not find its header at the front fails, takes seven bytes and leaves its own reply behind |
| OutOfStep.InStepIff | include/mothbus/adu/tcp.h:126-157 | whatever was unread before, a connection is in step after a call if and only if the bytes found start with a matching header whose length covers all of them |
| OutOfStep.AfterBroadcast | include/mothbus/adu/tcp.h:120-122 | a broadcast leaves its reply in the stream, and the next call always fails on the transaction id |
| OutOfStep.AfterLongRead | include/mothbus/adu/tcp.h:147-149 | a read of 124 or 125 existing registers fails and leaves the body of its reply in the stream |
| OutOfStep.StaysOutOfStep | include/mothbus/adu/tcp.h:126-149 | over any run in which no call finds its header, every call fails and exactly the bodies of all replies are added to the unread bytes |
| OutOfStep.LongReadPoisons | include/mothbus/adu/tcp.h:126-149 | after one read of 124 equal registers at least the next 35 calls fail (36 after 125), whatever they ask for |
| KnownAnswers.CrcVector | test/crc.cpp:4-11 | vector: the CRC of the test message is 0x60B8 |
| KnownAnswers.HoldingRequestVector | test/pdu.cpp:45-66 | vector: the test request encodes and decodes as listed |
| KnownAnswers.HoldingResponseVector | test/pdu.cpp:68-99 | vector: the test response encodes and decodes as listed |
| KnownAnswers.TcpVector | test/tcp.cpp:49-58 | vector: the test exchange yields register 0x022B |
| KnownAnswers.WriteCoilsExample | include/mothbus/pdu/req_writing_multiple_coils.h:40-50 | vector: the example request of section 6.11 of the MODBUS Application Protocol Specification V1.1b3 |
| KnownAnswers.WriteRegistersExample | include/mothbus/pdu/req_writing_multiple_registers.h:40-48 | vector: the example request of section 6.12 |
| KnownAnswers.ReadWriteRegistersExample | include/mothbus/pdu/req_reading_writing_multiple_registers.h:44-54 | vector: the example request of section 6.17 |
| KnownAnswers.CoilExample | include/mothbus/adu/master.h:98-110 | vector: the ten coils of the example of section 6.11 pack to CD 01 |
| KnownAnswers.SingleRegisterEchoRefused | include/mothbus/pdu/resp_writing_single_register.h:33-35 | vector: the 0x06 reader refuses the correct echo of the value 1 |

## Left out

- Boost.Asio itself (timers, cancellation, `io_context.run`, partial transport errors): a transport delivers its bytes in order or ends; on RTU the burst before silence is given and fits the 320-byte buffer.
- Error message texts and category objects: only the integer codes are kept; the RTU timeout is a separate outcome.
- `examples/tcpserver.cpp`, `examples/tcpserver_coroutine.cpp`, the command-line client, acceptors and signal handling: the same loop with simpler handlers, or user interface.
- Bodies longer than the slave's 320-byte buffer: the example's length test lets them through; the model stops there with `Oversized`, since masters never send them.
- The master over RTU: the stream below it is modelled, its calls only over TCP.
- Masters.TcpMaster.WriteSingle: the boolean-to-0xFF00 mapping of `write_single_coil` is left to its caller, which passes the word.
- RemoteSystem.EveryCallLinearized: runs are made of 0x03 calls; this slave answers every other kind with `illegal_function`, which Servers.PipelinedRequestsAnswered covers for all nine. On connections with an unfaithful call it promises nothing; the OutOfStep lemmas say what those calls return.
