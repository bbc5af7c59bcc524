# Verification of the octopus message gateway

The gateway passes binary messages between mobile users, devices and servers. This project models its
codecs, its stream framers, its queue of comet servers and its replacement of user sessions, and proves
what they promise for all inputs and all runs.

- **Messages** (`Messages`, on top of `MsgFormat`, `MsgKeys`, `Aes`, `Crc`). The message object parses its
  received array in place: it unmasks a range with mask bytes of the same array, cuts slices out of the
  array, and masks the range again when it returns. Each method is proved equal to a function on values,
  for every byte string and every earlier state of the object, and leaves the array as it was on every
  path. `MsgWire` says byte by byte what these functions put on the wire and which byte strings they take, and
  proves the round trip about the sender's own values; `MsgTheorems` proves the steps to it, sending again, and
  the guid, and `MsgCorruption` proves which damaged frames are rejected. AES is any keyed family of permutations of
  16-byte blocks, so nothing rests on its strength.
- **Checksum** (`Crc`, `CrcAlgebra`). The shift register is the remainder of polynomial division by
  x^8+x^5+x^4+1, from which linearity and the detection of bursts follow.
- **WebSocket** (`WsFrames`, `WsStream`, `WsConn`). The frame header and payload codec of sections 5.2 and
  5.3 of RFC 6455, and the connection that reads frames in chunks of any size, answers pings and closes on
  protocol errors. `ToCome` is everything that a connection will still deliver and write; every `Read` takes
  a piece of it and leaves the rest, for every byte string, well-formed or not.
- **Queue** (`Queues`, `Registry`). The doubly linked list refines a sequence, and the refresh from the
  registry ends in the same queue in whatever order a map is iterated.
- **Streams** (`DeviceFrames`, `Sentinels`). Two framers over TCP, one of which finds its frames by an
  8-byte flag in a stream with noise and with reads that may be cut short.
- **Sessions** (`UserSessions`, `DeviceSessions`). Logins, forced offlines and logouts as interleaved
  steps, some of them outside the lock; and the window of packet numbers.
- **Configuration** (`Ld2Config`). A binary record whose fields are slices of the buffer that is turned
  around in place.

Six properties that one might expect do not hold of the code. Each has its exact condition:

- a message that is sent twice is received again only at key level 0, and there only if its session id and
  text have checksum 0; at levels 1 and 3 the second frame is accepted as long as it fits, and gives back
  something else (`MsgTheorems.SecondSend`, with an input in `MsgTheorems.SecondSendRefused`);
- a guid survives only if it has 1 to 15 bytes, or 16 of which the last is 0 (`MsgTheorems.GuidTransport`, with
  an input in `MsgTheorems.FullGuidLost`);
- a frame behind noise is found however short the reads are if and only if the noise is robust
  (`DeviceFrames.AlwaysBehindNoise`), and with reads that are never cut short if and only if the noise settles
  (`DeviceFrames.FoundBehindNoise`); both conditions are told from the noise alone, and inputs are in
  `DeviceFrames.SettledNoiseMissed` and `DeviceFrames.FlagByteHidesFrame`;
- a configuration survives only if it is storable, or canonical (`Ld2Config.ReadOfWritten`,
  `Ld2Config.WrittenOfRead`, with inputs in `Ld2Config.LongActionLost` and `Ld2Config.FourthByteLost`);
- the session stored under a user's id is gone exactly when its id was taken away, and a removal leaves the
  session's own entry exactly when it read the lost id (`UserSessions.DeadEntries`, `UserSessions.RemovalLeavesEntry`, with a run in
  `UserSessions.ForcedEntryStays`);
- section 5.5.3 of RFC 6455 allows unsolicited pongs, but the connection ends with an error on one, and only
  then: exactly when the first frame that is not well-formed is a pong that keeps the masking rule
  (`WsStream.StreamUntilIllFormed`).

`dafny verify dfyconfig.toml` checks everything.

## Model

| member | source | states |
|---|---|---|
| Crc.Crc | src/octopus/common/common.go:3-16 | the nested loops compute the checksum function of the first n bytes, about which the rows below are proved |
| CrcAlgebra.CrcIsRemainder | src/octopus/common/common.go:3-16 | a byte is the checksum of a message if and only if it is the remainder of the message times x^8 divided by x^8+x^5+x^4+1 |
| CrcAlgebra.CrcDetectsBurst | src/octopus/common/common.go:3-16 | two messages of one length that differ in a nonempty burst of at most 8 consecutive bits have different checksums |
| Crc.CrcLinear | src/octopus/common/common.go:3-16 | the checksum of the XOR of two messages of one length is the XOR of their checksums |
| Crc.CrcResidue | src/octopus/common/common.go:3-16 | a message followed by a byte has checksum 0 if and only if the byte is its checksum |
| Crc.CrcSingleByte | src/octopus/common/common.go:6-12 | changing one byte of a message changes its checksum |
| Aes.Encrypt | src/octopus/common/aes/aes.go:9-21 | filling the result block by block gives the padded text mapped through the block cipher |
| Aes.Decrypt | src/octopus/common/aes/aes.go:33-63 | decrypting block by block and taking the padding off, with the same error for bad padding |
| Aes.EncryptNp | src/octopus/common/aes/aes.go:65-76 | whole blocks are encrypted, the bytes of an incomplete last block become zero |
| Aes.DecryptNp | src/octopus/common/aes/aes.go:77-88 | whole blocks are decrypted, the bytes of an incomplete last block become zero |
| Aes.DecryptOfEncrypt | src/octopus/common/aes/aes.go:9-63 | decryption undoes encryption if and only if the text is not empty; the ciphertext has the next larger multiple of 16 bytes (padding of section 6.3 of RFC 5652) |
| Aes.DecryptNpOfEncryptNp | src/octopus/common/aes/aes.go:65-88 | without padding, a text of any length comes back as its whole blocks followed by zeros |
| Aes.UnpadOfPad | src/octopus/common/aes/aes.go:50-63 | the padding is taken off again exactly, unless the text is empty |
| Aes.PaddedBytes | src/octopus/common/aes/aes.go:50-54 | the text followed by 1 to 16 bytes up to the next multiple of 16, each holding their number |
| Aes.MappedBlock | src/octopus/common/aes/aes.go:15-19 | block i of the result is block i of the input put through the cipher with the key, and an incomplete last block becomes zero |
| Aes.EncryptedBlock | src/octopus/common/aes/aes.go:9-21 | encryption succeeds exactly for keys of 16, 24 and 32 bytes, and enciphers each block of the padded text by itself |
| Aes.DecryptedBlock | src/octopus/common/aes/aes.go:33-63 | decryption deciphers each block by itself and takes off as many bytes as the last says, unless that is over 16 or leaves nothing |
| MsgKeys.MaskContent | src/octopus/msgs/msg.go:566-574 | the range of the array is XORed with the rotated mask that lies outside it, with the 16-bit loop counter; all other bytes stay |
| MsgKeys.MaskInvolution | src/octopus/msgs/msg.go:566-574 | masking the range a second time restores the array |
| MsgKeys.MaskedByte | src/octopus/msgs/msg.go:566-574 | payload byte k is XORed with the mask byte at k plus the first mask byte modulo 4, for as many bytes as 16 bits count |
| MsgKeys.RandomKeyGet | src/octopus/msgs/msg.go:545-565 | the loops derive the key that the key function gives for sequence, id and time |
| MsgKeys.KeyByte | src/octopus/msgs/msg.go:552-563 | byte n of the key, for each of one to four rounds, from the bytes of time and id, rotated by the XOR of the time bytes |
| MsgKeys.SeedBytes | src/octopus/msgs/msg.go:555-558 | before mixing, the key is time, id and twice the sequence number in little-endian order |
| MsgKeys.FourRounds | src/octopus/msgs/msg.go:559-563 | at four rounds the time bytes mixed in cancel to their XOR |
| MsgKeys.KeyOfOnes | src/octopus/msgs/msg.go:545-565 | the key for sequence 1, id 1 and time 1 |
| MsgKeys.KeysDifferBySequence | src/octopus/msgs/msg.go:545-565 | for one sender and time, different sequence numbers have different keys |
| MsgWire.RefusedMeans | src/octopus/msgs/msg.go:265-277 | the first checks of all parsers, in their order, and the error of each |
| MsgWire.RefusedByAll | src/octopus/msgs/msg.go:124-135 | what fails them sets nothing but the opcode |
| MsgWire.ClearByte | src/octopus/msgs/msg.go:295-310 | which bytes are unmasked, and with which byte of the mask |
| MsgWire.FrameHeaderMeans | src/octopus/msgs/msg.go:124-177 | every field of the frame header from the bytes it is read from, for every byte string |
| MsgWire.HeaderMeans | src/octopus/msgs/msg.go:178-263 | level, message id and guid for every byte string that passes the first checks; an error exactly for a guid without a secret |
| MsgWire.AcceptedExactly | src/octopus/msgs/msg.go:264-405 | a byte string is accepted if and only if length, header checksum and, at its level, padding, size and checksum of the body are right; every field from its bytes |
| MsgWire.ErrorsMean | src/octopus/msgs/msg.go:336-403 | the error returned is that of the first check that fails |
| MsgWire.StoredExactly | src/octopus/msgs/msg.go:346-400 | session id and text of an accepted frame are the bytes behind the data header, or what these decrypt to |
| MsgWire.SlicesKept | src/octopus/msgs/msg.go:317-321 | the guid and ciphertext slices that an accepted frame leaves |
| MsgWire.BodyChecksumHolds | src/octopus/msgs/msg.go:349-392 | in every accepted frame but at level 2, the body checksum is that of the delivered session id and text |
| MsgWire.BodyChecksumChanged | src/octopus/msgs/msg.go:349-392 | changing only that checksum in an accepted frame makes it rejected, at levels 0, 1 and 3 |
| MsgWire.BuiltHeaders | src/octopus/msgs/msg.go:408-465 | every byte of both headers and both checksums from the sender's own fields, and the fields that building fills in |
| MsgWire.BuiltBody | src/octopus/msgs/msg.go:469-528 | the payload is session id and text, or left-over buffer, session id and text encrypted with the derived key, mixed with the secret at level 3 |
| MsgWire.GuidOnWire | src/octopus/msgs/msg.go:501-517 | the guid in a frame is its first encrypted block at level 3, and zeros otherwise |
| MsgWire.MaskedOnWire | src/octopus/msgs/msg.go:534-541 | which bytes of the frame are masked, and with which byte |
| MsgWire.RoundTrip | src/octopus/msgs/msg.go:264-543 | with any accepted opcode, masked or not, the sender's own fields, the session id cut or filled to 8 bytes and the text arrive if and only if: level 0 and the text has under 65536 bytes and the left-over buffer checksum 0; or levels 1 and 3, nothing left over, and text and session id under 65536 bytes |
| MsgWire.HexAt | src/octopus/msgs/msg.go:171-175 | the names of source and destination are the hexadecimal digits of their bytes |
| Bytes.LittleAt | src/octopus/msgs/msg.go:433-443 | byte i of a number in little-endian order |
| Messages.Msg.FrameHeader | src/octopus/msgs/msg.go:124-177 | on every byte string, the fields and error of the frame header function; the received bytes are unchanged on every path |
| Messages.Msg.Header | src/octopus/msgs/msg.go:178-263 | the same for header and guid: fields, error and guid for every byte string and every earlier state of the object, received bytes unchanged |
| Messages.Msg.Binary2Msg | src/octopus/msgs/msg.go:264-405 | the same for the whole message, with session id, text and ciphertext as slices of the array or decrypted copies; received bytes unchanged; the guid slice shows bytes that are masked again |
| Messages.Msg.Msg2Binary | src/octopus/msgs/msg.go:408-543 | the frame in a new array, all fields set while building, the grown checksum buffer; at level 3 without secret an error, at other levels no frame |
| Messages.Msg.ToggleMask | src/octopus/msgs/msg.go:153-169 | XORs the masked range of the frame, which reaches byte 40 with a guid and 32 without |
| Messages.Msg.OpenGuid | src/octopus/msgs/msg.go:239-253 | the guid block decrypted with the derived key mixed with the secret; nil when its padding is bad |
| Messages.Msg.DeriveKey | src/octopus/msgs/msg.go:502-508 | the key of level 1 or 3 from the fields that are being sent |
| MsgTheorems.RoundTripPlain | src/octopus/msgs/msg.go:346-354 | level 0, any opcode, masked or not: the frame built is accepted if and only if the text has under 65536 bytes and the left-over checksum buffer has checksum 0; whatever is accepted gives back the fields of the built message, the session id and the text |
| MsgTheorems.RoundTripSealed | src/octopus/msgs/msg.go:355-400 | levels 1 and 3: accepted if and only if left-over checksum buffer, session id and text have under 65536 bytes together; fields, session id and text come back if and only if, besides, the checksum buffer was empty |
| MsgTheorems.SecondSend | src/octopus/msgs/msg.go:470-528 | sending the same object again: at level 0 accepted, and complete, if and only if the text fits and session id and text have checksum 0; at levels 1 and 3 accepted if and only if session id and text, taken twice, have under 65536 bytes, and never what was sent |
| MsgTheorems.SecondSendRefused | src/octopus/msgs/msg.go:470-479 | a one-byte message whose first frame is accepted and whose second is not |
| MsgTheorems.GuidTransport | src/octopus/msgs/msg.go:228-258 | opcode 3 at level 3: the guid comes back through key, padding and the copy of one block if and only if it has 1 to 15 bytes, or 16 with a last byte 0 |
| MsgTheorems.FullGuidLost | src/octopus/msgs/msg.go:509-517 | a guid of sixteen bytes 1 is lost in the copy of one block |
| MsgTheorems.FrameByteDecodes | src/octopus/msgs/msg.go:416-429 | the flags, version and opcode packed into the first byte are read back, cut to their widths |
| MsgTheorems.DataByteDecodes | src/octopus/msgs/msg.go:447-461 | the flags, format, level and encryption type packed into one byte are read back, cut to their widths |
| MsgTheorems.ClearOfMasked | src/octopus/msgs/msg.go:534-541 | unmasking on reception gives the bytes before masking |
| MsgCorruption.SingleByteCorruption | src/octopus/msgs/msg.go:335-354 | no frame is accepted that differs from an accepted one in one byte outside the mask in use that keeps mask flag and guid layout, at any key level for the header and at level 0 for the body |
| MsgCorruption.PlainFrameCorruption | src/octopus/msgs/msg.go:335-354 | an accepted unmasked frame without guid at level 0 has no accepted neighbour differing in one byte after the first |
| MsgCorruption.HeaderBurstCorruption | src/octopus/msgs/msg.go:342-345 | a burst of at most 8 bit errors in an unmasked header is always rejected, at every key level |
| Ld2Config.CFGLD2.B2O | src/octopus/msgs/ld2cfg.go:34-59 | for every buffer, either the fields of the parsing function with slices of the buffer, or a stop by indexing past the end exactly when the buffer is incomplete; action fields stay when the buffer has none |
| Ld2Config.CFGLD2.O2B | src/octopus/msgs/ld2cfg.go:60-83 | a new buffer with the printed configuration; no other field changes, not even the checksum |
| Ld2Config.CFGLD2.RvsDT | src/octopus/msgs/ld2cfg.go:24-33 | the buffer is turned in place, nothing on failure; the aliasing device type then shows the same bytes as the copied reverse |
| Ld2Config.PrintedBytes | src/octopus/msgs/ld2cfg.go:60-83 | every byte that is written, from the fields |
| Ld2Config.ParsedBytes | src/octopus/msgs/ld2cfg.go:34-59 | every field that is read, from the bytes, and when reading stays within them |
| Ld2Config.ReadOfWritten | src/octopus/msgs/ld2cfg.go:34-83 | a configuration written and read again is the same if and only if its fields have their widths and the action it has makes the length modulo 256 exceed the length without it |
| Ld2Config.LongActionLost | src/octopus/msgs/ld2cfg.go:35-57 | an action of 246 bytes is not read back |
| Ld2Config.WrittenChecksum | src/octopus/msgs/ld2cfg.go:80-82 | what is read back also has the alarm count, the reversed type and a checksum that verifies |
| Ld2Config.WrittenOfRead | src/octopus/msgs/ld2cfg.go:34-83 | a complete buffer read and written again is the same if and only if its checksum is right, its fourth byte is 0, and its action length is not 0 or it ends with the alarms |
| Ld2Config.FourthByteLost | src/octopus/msgs/ld2cfg.go:69-70 | a buffer of 8 bytes whose fourth is 1 is not written as it was read |
| Ld2Config.TurnedTwice | src/octopus/msgs/ld2cfg.go:24-33 | turning twice restores the buffer; one turn reverses the device type and swaps each alarm |
| Ld2Config.OrWithLowerHalf | src/octopus/msgs/ld2cfg.go:64-67 | OR of the packed flags with the alarm count: addition for counts below 16, and the count modulo 16 in the lower half for all |
| WsFrames.ReadHeaderOfEncode | src/cloud-base/websocket/hybi.go:120-242 | the header written for any frame with a payload under 2^63 bytes is read back, in all three length classes, whatever follows it |
| WsFrames.FrameOnWire | src/cloud-base/websocket/hybi.go:187-242 | every byte of a frame: flags and opcode, the shortest length form in network order, the key, and payload byte i XORed with key byte i modulo 4 |
| WsFrames.HeaderOnWire | src/cloud-base/websocket/hybi.go:120-178 | every field of a header and its size from any bytes, longer length forms than needed and negative lengths included |
| WsFrames.LengthDecodes | src/cloud-base/websocket/hybi.go:206-223 | the 7-bit, 16-bit and 64-bit length fields read back as the length |
| WsFrames.ToggleConcat | src/cloud-base/websocket/hybi.go:87-92 | unmasking in two pieces is unmasking in one when the mask position carries over |
| WsFrames.ToggledByte | src/cloud-base/websocket/hybi.go:87-92 | byte i is XORed with the key byte of its place in the payload modulo 4 |
| WsFrames.ZerosShowKey | src/cloud-base/websocket/hybi.go:231-233 | a payload of zeros shows the key over and over |
| WsFrames.ToggleTwice | src/cloud-base/websocket/hybi.go:231-233 | unmasking undoes masking at the same mask position |
| WsConn.Sink.WriteFrame | src/cloud-base/websocket/hybi.go:187-242 | the bytes written are the encoded frame, ending in the payload with byte i XORed with key byte i modulo 4, or none for a masking key that is not 4 bytes long |
| WsConn.NewFrameReader | src/cloud-base/websocket/hybi.go:120-178 | reading byte by byte gives the header function on the incoming bytes, or the end of the input |
| WsConn.FrameReader.Read | src/cloud-base/websocket/hybi.go:82-94 | reads at most the rest of the payload, XORs byte i in the caller's buffer with the key byte of its place modulo 4, and moves the mask position on |
| WsConn.Conn.HandleFrame | src/cloud-base/websocket/hybi.go:268-310 | masking rules, close, ping with its pong, pong and the remembered type, as the next frame function says |
| WsConn.Conn.AnswerPing | src/cloud-base/websocket/hybi.go:294-305 | the pong carries the first 125 bytes of the ping; the rest of its payload is skipped |
| WsConn.RepliesOnWire | src/cloud-base/websocket/hybi.go:312-330 | the frames of a pong and of closing for a protocol error, masked exactly on the client side |
| WsConn.Conn.Read | src/cloud-base/websocket/websocket.go:174-200 | what was to come is the bytes delivered and frames written now followed by what is still to come, for every input, buffer size and chunking |
| WsConn.Conn.Receive | src/cloud-base/websocket/websocket.go:307-342 | exactly the payload of the next data frame, after dropping the unread rest of a partly read one |
| WsConn.Conn.Write | src/cloud-base/websocket/websocket.go:202-218 | one final binary frame with the data, masked exactly on the client side |
| WsConn.Conn.Send | src/cloud-base/websocket/websocket.go:290-304 | the same for a frame of the type of the marshalled value |
| WsConn.ReadToEnd | src/cloud-base/websocket/websocket.go:174-200 | reads with buffers of any sizes together deliver and write exactly what was to come |
| WsConn.WholeConnection | src/cloud-base/websocket/websocket.go:174-200 | on well-formed frames that is all data payloads, one pong for each ping, then the end |
| WsStream.FollowWire | src/cloud-base/websocket/websocket.go:174-200 | frames in front of any bytes add their data payloads and pongs, in order, to what those bytes give |
| WsStream.WholeStream | src/cloud-base/websocket/websocket.go:174-200 | a stream of well-formed frames gives all data payloads and one pong for each ping, in order |
| WsStream.NextOfEncode | src/cloud-base/websocket/hybi.go:287-309 | the next frame with data behind pings: its payload whole, with the remembered type for a continuation |
| WsStream.FrameDecides | src/cloud-base/websocket/hybi.go:268-310 | what each frame does, by its number: the masking rule of both ends with close status 1002, opcodes 8, 9 with up to 125 bytes, 10, 0 and the rest |
| WsStream.LastTypeMeans | src/cloud-base/websocket/hybi.go:288-291 | the remembered type is the opcode of the last text or binary frame |
| WsStream.OtherEndReceives | src/cloud-base/websocket/hybi.go:269-283 | a server that enforces masking receives each message of a client's masked frames, and a client those of a server's unmasked ones |
| WsStream.StreamUntilClose | src/cloud-base/websocket/hybi.go:292-293 | nothing after a close frame is delivered or answered |
| WsStream.StreamUntilPong | src/cloud-base/websocket/hybi.go:306-307 | an unsolicited pong ends the data with an error |
| WsStream.StreamUntilBadMask | src/cloud-base/websocket/hybi.go:269-283 | a frame that breaks the masking rule ends the data, and is answered with one close frame for a protocol error |
| WsStream.StreamUntilIllFormed | src/cloud-base/websocket/hybi.go:268-310 | the data ends with the error if and only if the first frame that is not well-formed is a pong that keeps the masking rule |
| WsStream.AnyStream | src/cloud-base/websocket/hybi.go:268-310 | any list of frames gives the data and pongs of the well-formed frames at its front, and the first other frame alone decides the end and the closing frame |
| WsStream.InboxOfWire | src/cloud-base/websocket/websocket.go:307-342 | from well-formed frames exactly the payloads of the data frames are received, one at a time, in order and with their types, and each ping is answered |
| WsConn.ReceiveToEnd | src/cloud-base/websocket/websocket.go:307-342 | receiving again and again returns exactly those messages, for every input, after dropping the rest of a partly read frame |
| Queues.Queue.Put | src/octopus/common/queue.go:43-51 | appends when there is room and otherwise leaves the queue as it is |
| Queues.Queue.LinkLast | src/octopus/common/queue.go:52-67 | links the node behind the tail and keeps all links, ends and the count consistent |
| Queues.Queue.Poll | src/octopus/common/queue.go:68-70 | takes the first value out and returns it; nil and no change on an empty queue |
| Queues.Queue.UnlinkFirst | src/octopus/common/queue.go:76-95 | the rest of the list stays linked, also when it becomes empty |
| Queues.Queue.UnlinkLast | src/octopus/common/queue.go:130-149 | the front of the list stays linked, also when it becomes empty |
| Queues.Queue.Unlink | src/octopus/common/queue.go:110-128 | takes out exactly the given node: alone, first, last or in between |
| Queues.Queue.Remove | src/octopus/common/queue.go:96-109 | removes the first equal value and says whether there was one; nil is never removed |
| Queues.Queue.Contains | src/octopus/common/queue.go:150-162 | true exactly for stored values other than nil |
| Queues.Queue.Size | src/octopus/common/queue.go:192-194 | the counter is the number of stored values |
| Queues.Queue.Retrain | src/octopus/common/queue.go:176-190 | removes the first occurrence of each stored value that the list lacks, in any iteration order |
| Queues.WithoutOneFirst | src/octopus/common/queue.go:186-188 | removing one of the values first leads to the same sequence, so the iteration order does not matter |
| Queues.WithoutEachOfDistinct | src/octopus/common/queue.go:176-190 | without duplicates, retraining is filtering, and leaves no duplicates |
| Queues.FirstInFirstOut | src/octopus/common/queue.go:43-95 | over any run without removals, polled values followed by stored ones are the first stored followed by those put |
| Queues.Conservation | src/octopus/common/queue.go:43-149 | over any run, every copy of a value put or stored leaves by one poll or one removal or is still stored |
| Registry.UpdatingCometQue | src/octopus/proxy/zoo.go:69-127 | the loop over the nodes and the retraining give the refreshed queue, unless the queue is full and it blocks |
| Registry.Enlist | src/octopus/proxy/zoo.go:72-122 | one node: unreadable or malformed data does nothing, an unknown protocol puts an empty string |
| Registry.OfferOfFields | src/octopus/proxy/zoo.go:78-105 | seven fields joined by commas are a udp or tcp url by their last field and first field, and any other number of fields is none |
| Registry.RefreshTheorem | src/octopus/proxy/zoo.go:69-127 | from a queue without duplicates: no duplicates, exactly the advertised urls, survivors in their order at the front, and as many values as different urls |
| Registry.LastRefreshDecides | src/octopus/proxy/zoo.go:56-67 | over any history of refreshes the queue agrees with the last state of the registry |
| Registry.SplitOfJoin | src/octopus/proxy/zoo.go:78 | splitting at commas recovers the pieces that were joined |
| Streams.ReadFull | src/octopus/srv/ws.go:358 | a full buffer, or everything that is left and a failure |
| DeviceFrames.TcpWriter | src/octopus/srv/ws.go:231-248 | the bytes written are the packets framed one after the other, with lengths cut to 16 bits; a failing write ends the loop within its frame |
| DeviceFrames.FrameBytes | src/octopus/srv/ws.go:234-240 | the bytes of a frame: flag, length modulo 65536 with its lower byte first, packet |
| DeviceFrames.AfterFlagMeans | src/octopus/srv/ws.go:388-400 | what is made of the bytes behind a flag, a frame that is cut off included |
| DeviceFrames.ReadFrame | src/octopus/srv/ws.go:354-401 | success means that the bytes taken end in flag, length and frame, even after short reads; failure means that the stream is used up, and returns what there is of a frame behind some flag, with zeros at its end; with whole reads, or when the scan has only one outcome, the result is the reading function's |
| DeviceFrames.FindFlag | src/octopus/srv/ws.go:355-383 | the scan takes at least one byte per turn and stops only behind real flag bytes of the stream; with whole reads, or when every choice of reads ends alike, it stops where the scan function says |
| DeviceFrames.FlagIsReal | src/octopus/srv/ws.go:371-380 | a window that shows the flag contains no zero left by a short read |
| DeviceFrames.FoundBehindNoise | src/octopus/srv/ws.go:365-383 | with whole reads the scan stops at the flag behind the noise if and only if the noise settles |
| DeviceFrames.FlagByteHidesFrame | src/octopus/srv/ws.go:365-383 | with whole reads, one byte 0xfa in front of a flag makes the scan miss it |
| DeviceFrames.FrameBehindNoise | src/octopus/srv/ws.go:388-400 | with whole reads, a frame behind settled noise is read back, cut to its length modulo 65536, and exactly the rest is left |
| DeviceFrames.AlwaysBehindNoise | src/octopus/srv/ws.go:365-383 | every choice of read sizes stops at the flag behind the noise if and only if the noise is robust |
| DeviceFrames.FlagBroken | src/octopus/srv/ws.go:371-380 | when the 8 bytes before a place are no longer the flag, because a short read put zeros there, some choice of reads does not stop at that place |
| DeviceFrames.RobustIsCertain | src/octopus/srv/ws.go:365-383 | behind robust noise the scan has one outcome, the flag behind the noise; robust noise settles |
| DeviceFrames.PlainNoiseIsRobust | src/octopus/srv/ws.go:365-383 | noise without the byte 0xfa is robust |
| DeviceFrames.SettledNoiseMissed | src/octopus/srv/ws.go:371-380 | noise of 0xfa and 0 settles, but a short read loses the frame behind it |
| DeviceFrames.Serve | src/octopus/srv/ws.go:316-352 | a list of packets under 65536 bytes between robust noise is received exactly, in chunks of any size |
| DeviceFrames.FramedIsStream | src/octopus/srv/ws.go:231-248 | what the writer writes is the stream of its packets without noise |
| DeviceFrames.Transfer | src/octopus/srv/ws.go:231-401 | packets under 65536 bytes that are all written are received as they are, in chunks of any size |
| Sentinels.SentinelMgr.Forward | src/octopus/srv/sentinel.go:107-151 | what each peer has been sent grows by the packets for the ids routed to it, and the bytes on each connection encode it |
| Sentinels.SentinelMgr.Ping | src/octopus/srv/sentinel.go:74 | four zero bytes go to one peer |
| Sentinels.EventOnWire | src/octopus/srv/sentinel.go:117-125 | the bytes of a packet: length of id and message, id, message, lower bytes first |
| Sentinels.HeadMeans | src/octopus/srv/sentinel.go:206-226 | what the monitor makes of the front of any bytes, by the length there |
| Sentinels.SentForId | src/octopus/srv/sentinel.go:110-129 | a peer gets one packet for an id whose route is its address, or that has no route when its address is empty |
| Sentinels.ForwardedTo | src/octopus/srv/sentinel.go:107-151 | each peer gets the message once for each id routed to it, in order |
| Sentinels.TooLong | src/octopus/srv/sentinel.go:118-122 | nobody gets a message of more than 1016 bytes |
| Sentinels.Monitor | src/octopus/srv/sentinel.go:203-227 | the loop delivers what the monitor function says for every byte stream, including the stop on a payload under 8 bytes |
| Sentinels.StreamArrives | src/octopus/srv/sentinel.go:203-227 | the packets sent arrive in order whatever keepalives lie between them |
| Sentinels.PartArrives | src/octopus/srv/sentinel.go:203-227 | at every moment the monitor has delivered a first part of the packets sent, and has not stopped on a short payload |
| Sentinels.MoreBytes | src/octopus/srv/sentinel.go:203-227 | for any two byte strings, more input only adds deliveries |
| Sentinels.PeerReceives | src/octopus/srv/sentinel.go:107-151 | after any run of forwards and keepalives, a peer's monitor delivers exactly what it was sent |
| UserSessions.UsrSessionPool.AddSession | src/octopus/srv/ms.go:90-105 | the stored session of the user, if any, is closed and gets id -1; no other session changes; the new one is stored under the id it has by then |
| UserSessions.UsrSessionPool.RemoveSession | src/octopus/srv/ms.go:107-114 | closes the session and deletes the entry under its current id |
| UserSessions.UsrSessionPool.Logout | src/octopus/srv/mws.go:403-408 | removes a session that still has a positive id, and leaves the pool alone otherwise |
| UserSessions.UsrSessionPool.ForceUserOffline | src/octopus/srv/rds.go:316-361 | takes the id from the stored session of the user and closes it, or only closes it when no mobile is registered; says when the client is told first and which order goes to the other servers |
| UserSessions.EveryRunIsSafe | src/octopus/srv/ms.go:90-114 | in every interleaving, an added session that is not removed and has a positive id is the one stored under it, and no later login has that id |
| UserSessions.LogoutSparesOthers | src/octopus/srv/mws.go:403-408 | in every interleaving, the removal deletes no other session's entry under a positive id, whatever was added since its check |
| UserSessions.AtMostOneLive | src/octopus/srv/ms.go:90-105 | in every interleaving, at most one live session per user |
| UserSessions.ReplacedIsClosed | src/octopus/srv/ms.go:93-98 | in every interleaving, a session that a later login of the same user replaced is closed |
| UserSessions.RemovedIsClosed | src/octopus/srv/ms.go:110-112 | in every interleaving, every removed session is closed |
| UserSessions.DeadEntries | src/octopus/srv/rds.go:323-347 | in every interleaving, the session stored under a positive id is dead if and only if its id was taken away |
| UserSessions.RemovalLeavesEntry | src/octopus/srv/ms.go:107-114 | in every interleaving, a removal leaves the session's own entry in the pool if and only if the id that it read had been taken away |
| UserSessions.EntryChanges | src/octopus/srv/ms.go:90-114 | in every interleaving, an entry under a positive id is changed by a login of the same user and by the removal that read the id, and by nothing else |
| UserSessions.ForcedEntryStays | src/octopus/srv/rds.go:323-329 | a run after which the entry of a session that was forced offline stays in the pool, because its logout does nothing |
| UserSessions.AddUninterrupted | src/octopus/srv/ms.go:90-105 | the three steps of a login, taken in a row, have the effect of the method |
| UserSessions.LogoutUninterrupted | src/octopus/srv/mws.go:403-408 | the four steps of a logout, taken in a row, have the effect of the method |
| UserSessions.ForceUninterrupted | src/octopus/srv/rds.go:323-329 | the three steps of forcing a user offline, taken in a row, have the effect of the method |
| DeviceSessions.DevSession.VerifyPack | src/octopus/srv/devsess.go:128-137 | accepts a greater number, or one under 10 when the last is over 65530, and remembers only accepted ones |
| DeviceSessions.LaterNumbersAccepted | src/octopus/srv/devsess.go:128-137 | every later number of a round is accepted however many were lost, and behind the last five numbers each of the first ten |
| DeviceSessions.AcceptedIncrease | src/octopus/srv/devsess.go:128-137 | over any run, the accepted numbers are the remainders of strictly increasing naturals, and a new start moves on by 1 to 14 |
| DeviceSessions.AcceptedOnce | src/octopus/srv/devsess.go:128-137 | between new starts the accepted numbers increase, so none is accepted twice |
| DeviceSessions.SomeNumberAccepted | src/octopus/srv/devsess.go:128-137 | every state accepts some number |

## Left out

- Messages.Msg.Msg2Binary: masking at a key level that builds no frame is excluded, because the code then slices an empty array and stops; the time filled in from the clock when it is 0 is an input; the padding of what it encrypts may write into spare capacity of the arrays of guid and checksum buffer, which arrays here do not have.
- Messages.Msg.Binary2Msg: the shared secret is a value of at least 16 bytes when there is one, because the code indexes its first 16 bytes; reading `FHGuid` after it is only described, as masked bytes.
- MsgCorruption.SingleByteCorruption: changes of the mask bytes of a masked frame, of the mask flag, and between layouts with and without guid are not covered; these move what the checksums see.
- The numeric fields of the frame header and the data header are one record that the methods update, where the source has a field for each; 64-bit ids are bit patterns without sign.
- Ld2Config.CFGLD2.B2O: slicing past the length of a buffer into its spare capacity is treated as indexing past its end; the fields are unspecified when it stops.
- Queues.Queue.Put: waiting for room is not modelled; one attempt says whether there was room.
- Queues.Queue.Retrain: runs on its own, although the source takes the lock only for each removal.
- Registry.UpdatingCometQue: what is read for each node is an input; blocking on a full queue is reported instead.
- Sentinels.SentinelMgr.Forward: writes do not fail, so repeating a write on a new connection is not modelled; connections are the bytes written to them.
- UserSessions.UsrSessionPool.ForceUserOffline: the lookup of the registered mobile is an input, and the result of telling the client is ignored, as in the source.
- WsConn.Conn.Read: I/O errors other than the end of the input, deadlines and locks are not modelled; a masking key drawn at random is any four bytes.
- WsConn.Conn.Receive: decoding the payload into Go values is not modelled.
- The Next cursor of the queue: it may rest on a node that was taken out and links to itself, so it keeps no invariant with the list.
- The internals of AES, MD5 and HTTP authentication, Redis, Kafka, MySQL and ZooKeeper.
- The WebSocket handshake and the copy of the frame code under src/octopus/websocket.
- The device indexes and the kill handshake of devbusi.go, whose lookup and registration are separate critical sections.
- Marshalling of status bodies, DealingCipher, DES padding, hlist, status counters and demo programs: easy, or not used by the parts above.
