# ESP32 LoRa datalogger: reliable file delivery, pairing and utilities

A Dafny model of the core of the ESP32 LoRa datalogger firmware:

- **Message layouts** (`messages.dfy`, module `Messages`): the packed structs of
  `include/lora_init.h` (FILE_META, FILE_BODY, FILE_END, ACK, REJ and the pairing struct) as byte frames. The tag byte
  is the ordinal of `MessageType`, and `uint32_t` fields are little-endian. There are encode/decode round trips in
  both directions.
- **C-string and number helpers** (`text.dfy`, module `Text`): NUL-padded buffers, `strncpy`,
  `%d`/`%0Nd` formatting, `println` and `parseInt`, and the 32-bit wrap-around of `size_t`/`uint32_t`/`int`.
- **Acknowledgement and retry** (`delivery.dfy`, module `Delivery`): `waitForAck` with the
  `ack_count`/`rej_count` counters bumped by the receive context, and the `MAX_ATTEMPS` retry loop.
  The peer's answers are an input sequence of ACK / REJ / silence, one per transmission.
- **Sender** (`file_sender.dfy`, module `FileSender`): `getMetaFilename` and `sendFile` in both modes.
  - Mode 0 sends the whole file.
  - Mode 1 is the sync pass. It resumes from the offset stored in the `.meta` file and writes the new offset back.
  - The `Sender` class keeps the node's globals and runs the retry loops as `while` loops. Each loop is proved
    against the functional specification `SendFileSpec`.
- **Receiver** (`file_receiver.dfy`, module `FileReceiver`): `handle_file_meta`,
  `handle_file_body` and `handle_file_end`. They are pure transition functions, and the `Receiver` class updates
  the globals in place.
- **End to end** (`transfer.dfy`, module `Transfer`): the frames a node's `sendFile` transmits,
  handled in order by the gateway, rebuild the node's file on the gateway's card.
- **Pairing**:
  - the node's `autoPairing` state machine and `OnDataRecvNode` (`pairing_node.dfy`);
  - the older gateway of `src/lora_init.cpp` with its ten-slot peer table (`legacy_gateway.dfy`);
  - the newer key-checking gateway of `src/lora_gateway.cpp` (`gateway.dfy`).

  The two gateways define the same `OnDataRecvGateway`, so they are modelled as alternatives.
- **Utilities** (`screen.dfy`, `clock.dfy`):
  - the OLED log of `oled_print`: eight rows of 21 characters and a `static` row counter. Its scroll loop works in
    place on an `array`;
  - the two `oled_print` overloads;
  - `tmToDateTime`;
  - `get_current_time`, which prints a log time stamp or a file-name stamp rounded down to the quarter hour.

Everything outside the processor is an input:
- the SD card is a map from path to bytes, plus the set of paths that cannot be opened for writing;
- the radio is the list of frames sent, with the replies as an input sequence;
- `millis()` and the real-time clock reading are parameters.

## Model

| member | source | states |
|---|---|---|
| Text.ParsePrintedLine | src/lora_file_transfer.cpp:45-48 | `parseInt` reads back any number that `println` wrote, negative ones included |
| Text.StrNCopy | src/lora_file_transfer.cpp:275 | `strncpy` into an n-byte field writes the first n characters of the C string and fills every remaining byte with NUL |
| Messages.TagsFollowDeclarationOrder | include/lora_init.h:95-98 | the tag of each message type is its position in the `MessageType` enum, and distinct types get distinct tags |
| Messages.U32RoundTrip | include/lora_init.h:20 | a `uint32_t` field read back from its four little-endian bytes is the value written |
| Messages.U32Bytes | include/lora_init.h:91 | any four bytes are the encoding of the `uint32_t` they decode to |
| Messages.DecodeEncode | include/lora_init.h:16-43 | a well-formed struct copied out of its frame is the struct sent, whatever bytes follow the layout |
| Messages.EncodeDecode | include/lora_init.h:87-93 | any frame that decodes is exactly the encoding of its decoded struct, up to the layout's size |
| Messages.ShortFramesDifferOnlyInTag | include/lora_init.h:23-43 | ACK, REJ and FILE_END frames are a tag followed by the address, with three different tags |
| Delivery.ExchangeBounded | src/lora_file_transfer.cpp:132-155 | one retry loop transmits only its own frame, at least once and at most `MAX_ATTEMPS` times, and consumes one reply per transmission |
| Delivery.StaleAckMasksReply | src/lora_file_transfer.cpp:224-238 | a pending ACK from an earlier loop makes the next loop succeed after one frame, whatever the reply to it |
| Delivery.FirstAnswer | src/lora_file_transfer.cpp:224-238 | the first non-silent reply within n attempts, with every earlier one silent, or none |
| Delivery.CleanExchange | src/lora_file_transfer.cpp:161-187 | with clean counters a loop succeeds exactly when the first answer is an ACK; a REJ ends it at once; all timeouts means `MAX_ATTEMPS` frames; the counters are clean afterwards |
| FileSender.LastIndexOf | src/lora_file_transfer.cpp:22 | `lastIndexOf`: the last position of the character, or -1 when it does not occur |
| FileSender.MetaFilename | src/lora_file_transfer.cpp:20-27 | the name up to its last dot, unless that dot is first or missing, followed by ".meta" |
| FileSender.ChunkLen | src/lora_file_transfer.cpp:68 | one read returns between 1 and CHUNK_SIZE bytes while any are left |
| FileSender.Chunks | src/lora_file_transfer.cpp:68-75 | the reads of a file are pieces of 1..200 bytes, all full but the last, that concatenate to the file |
| FileSender.ChunkFramesCarryChunks | src/lora_file_transfer.cpp:86-93 | the i-th FILE_BODY frame carries the i-th chunk as its first `len` bytes, with the sender's address |
| FileSender.ChunksSentInOrder | src/lora_file_transfer.cpp:66-93 | chunks go out in file order, none skipped, each repeated at most `MAX_ATTEMPS` times; on success all were sent and a failing chunk is the last one transmitted |
| FileSender.ChunksAllAcked | src/lora_file_transfer.cpp:66-78 | when every frame is acknowledged, exactly one frame per chunk is sent and the loop succeeds |
| FileSender.MetaFrame | src/lora_file_transfer.cpp:123-130 | FILE_META carries at most 39 characters of the name, NUL terminated, and the size as `uint32_t` |
| FileSender.ExpandMembers | src/lora_file_transfer.cpp:161-187 | every frame a series of retry loops transmits is one of their frames |
| FileSender.ExpandLength | src/lora_file_transfer.cpp:161-187 | loops that each transmit at least once send at least one frame per loop |
| FileSender.ResumeOffsetOfRecord | src/lora_file_transfer.cpp:99-107 | the offset read from the `.meta` file is the one the last sync pass wrote, as `size_t` |
| FileSender.SendFileAllAcked | src/lora_file_transfer.cpp:30-118 | with every frame acknowledged, `sendFile` succeeds and sends FILE_META, one FILE_BODY per chunk and FILE_END; in a first sync pass the `.meta` file then holds the file size |
| FileSender.SendBodyOffset | src/lora_file_transfer.cpp:80-109 | a chunk that is not acknowledged fails the pass with the card unchanged; success or any change to the card means the chunk loop succeeded on every chunk from the start offset and the end position was stored |
| FileSender.SyncOffsetOnlyAfterAllChunks | src/lora_file_transfer.cpp:30-118 | once FILE_META is acknowledged, a failed chunk fails the pass with the `.meta` file as it was; success, or any change beyond creating the `.meta` file, means FILE_META and every chunk from the resume point were acknowledged and the end position was stored |
| FileSender.SendBodyUnwritable | src/lora_file_transfer.cpp:95-104 | when the `.meta` file cannot be rewritten, the pass fails and sends no FILE_END |
| FileSender.UnwritableOffsetSkipsEnd | src/lora_file_transfer.cpp:30-118 | a sync pass with an existing but unwritable `.meta` file never sends FILE_END and leaves the card as it was |
| FileSender.SyncResumesAtEnd | src/lora_file_transfer.cpp:34-109 | after a completed sync pass the next one starts at the old end of file, so only bytes appended since are sent |
| FileSender.ResumeFromRecord | src/lora_file_transfer.cpp:95-107 | after the write-back, the data file is unchanged and its resume offset is its size |
| FileSender.Sender.SendLoraMessage | include/lora_init.h:102-103 | a transmission appends the frame, and the peer's answer, if any, bumps `ack_count` or `rej_count` |
| FileSender.Sender.WaitForAck | src/lora_file_transfer.cpp:224-238 | a pending ACK is taken first, then a pending REJ, otherwise TIMEOUT with nothing consumed |
| FileSender.Sender.SendWithRetries | src/lora_file_transfer.cpp:132-155 | the retry loop's result and link state are those of the `Exchange` specification |
| FileSender.Sender.SendMetadata | src/lora_file_transfer.cpp:123-156 | `sendMetadata` is one retry loop on the FILE_META frame |
| FileSender.Sender.SendChunk | src/lora_file_transfer.cpp:161-187 | `sendChunk` is one retry loop on the current FILE_BODY buffer |
| FileSender.Sender.SendEndOfTransfer | src/lora_file_transfer.cpp:192-219 | `sendEndOfTransfer` is one retry loop on FILE_END |
| FileSender.Sender.SendChunksFrom | src/lora_file_transfer.cpp:83-95 | the read loop from the seek position matches `SendChunks`, and on success the position is the end of file |
| FileSender.Sender.FinishFile | src/lora_file_transfer.cpp:64-118 | after an acknowledged FILE_META, the chunk loop, the mode-1 offset write-back and FILE_END leave the state given by `SendBody`, or by `SendEnd` for other modes |
| FileSender.Sender.SendFile | src/lora_file_transfer.cpp:30-118 | `sendFile` returns and leaves the state given by `SendFileSpec` |
| FileSender.Sender.constructor | include/lora_init.h:102-103 | the counters start at zero and the body buffer is zeroed |
| FileReceiver.DestinationPath | src/lora_file_transfer.cpp:273-290 | the session path is "/node/", the device name, then the file name (at most 40 characters, read as a C string) with a leading "/data" dropped |
| FileReceiver.OnMeta | src/lora_file_transfer.cpp:252-314 | busy: REJ and nothing else changes; idle: the path is set; if the file opens it is created when missing, the frame is ACKed and the received count is reset |
| FileReceiver.OnBody | src/lora_file_transfer.cpp:320-365 | no session: REJ; the file cannot open: nothing; otherwise the accepted bytes are appended, both counters advance as `uint32_t`, and the frame is ACKed |
| FileReceiver.OnEnd | src/lora_file_transfer.cpp:370-390 | the session closes, the frame is ACKed, and nothing else changes |
| FileReceiver.MetaRepliesToSender | src/lora_file_transfer.cpp:252-314 | FILE_META gets at most one reply, addressed to its sender, and it is an ACK exactly when the receiver was idle |
| FileReceiver.MetaOpenFailureWedges | src/lora_file_transfer.cpp:285-299 | as written, a failed open leaves the receiver busy with no reply, so a retried FILE_META gets REJ and bodies are dropped |
| FileReceiver.OnMetaFixed | src/lora_file_transfer.cpp:285-299 | corrected: a session opens exactly when the receiver was busy or the destination can be opened |
| FileReceiver.FixedMetaSessionIffAck | src/lora_file_transfer.cpp:285-313 | corrected: a session is open exactly when FILE_META was ACKed, and only the failed open differs from the code as written |
| FileReceiver.Receiver.HandleFileMeta | src/lora_file_transfer.cpp:252-314 | the handler updates the globals as `OnMeta` says |
| FileReceiver.Receiver.HandleFileBody | src/lora_file_transfer.cpp:320-365 | the handler updates the globals as `OnBody` says |
| FileReceiver.Receiver.HandleFileEnd | src/lora_file_transfer.cpp:370-390 | the handler returns 0 and updates the globals as `OnEnd` says |
| FileReceiver.Receiver.constructor | src/lora_file_transfer.cpp:244-247 | an idle receiver with zero counters |
| Transfer.ReceiveAppend | src/lora_file_transfer.cpp:252-390 | handling two runs of frames is handling their concatenation |
| Transfer.BodiesAppendFile | src/lora_file_transfer.cpp:320-365 | a file's chunk frames, handled in an open session, append exactly the file's bytes, count them, and are each ACKed |
| Transfer.SessionRebuildsFile | src/lora_file_transfer.cpp:252-390 | FILE_META, the chunk frames and FILE_END leave the destination extended by the file, the session closed, and one ACK per frame |
| Transfer.WholeFileArrives | src/lora_file_transfer.cpp:30-118 | a mode-0 transfer over an acknowledging link delivers exactly the node's file to an idle gateway whose destination can be opened |
| Transfer.DestinationOfName | src/lora_file_transfer.cpp:273-290 | the gateway files a transfer under "/node/" + device name + the first 39 characters of the node's file name, less a leading "/data" |
| PairingNode.Elapsed | src/lora_init.cpp:276 | `unsigned long` subtraction: the real elapsed time when no wrap-around occurred |
| PairingNode.AutoPairing | src/lora_init.cpp:256-290 | paired or not-paired nodes do nothing |
| PairingNode.RequestSendsOneFrame | src/lora_init.cpp:258-271 | a request step sends one pairing frame with BOARD_ID, records the time and waits |
| PairingNode.RetryOnlyAfterTimeout | src/lora_init.cpp:273-282 | while waiting, the node asks again exactly when more than 5000 ms have passed, and sends nothing meanwhile |
| PairingNode.PairedIffServerFrame | src/lora_init.cpp:238-252 | a node is paired exactly when it was, or when a pairing frame with id 0 arrives |
| PairingNode.PairedStaysPaired | src/lora_init.cpp:256-290 | once paired, a node stays paired and transmits no more pairing frames |
| PairingNode.PairedOnlyByServer | src/lora_init.cpp:218-290 | without a gateway pairing frame (id 0) a node never becomes paired |
| PairingNode.Node.SlaveInit | src/lora_init.cpp:327-330 | `lora_slave_init` moves the node to PAIR_REQUEST |
| PairingNode.Node.AutoPairingStep | src/lora_init.cpp:256-290 | the step updates the globals as `AutoPairing` says and returns the new status |
| PairingNode.Node.OnDataRecvNode | src/lora_init.cpp:218-254 | the handler updates the globals as `OnFrame` says |
| PairingNode.Node.constructor | src/lora_init.cpp:188-203 | the static initial values of the node's pairing globals |
| LegacyGateway.AddPeer | src/lora_init.cpp:87-96 | with room, the address goes into the next slot and the rest are unchanged; a full table refuses it |
| LegacyGateway.NoDuplicateCheck | src/lora_init.cpp:87-96 | the same address added twice takes two slots |
| LegacyGateway.AnswersNodeRequests | src/lora_init.cpp:124-150 | a node request is answered once by the same frame with id 0, and peer 0 is recorded if there is room; other frames get no answer |
| LegacyGateway.OnlyZeroRegistered | src/lora_init.cpp:124-150 | every peer this gateway ever registers is 0, because the id is cleared before it is stored |
| LegacyGateway.OnFrames | src/lora_init.cpp:98-151 | the peer table stays within its ten slots |
| LegacyGateway.HandshakePairsNode | src/lora_init.cpp:124-150 | a node's request answered by this gateway pairs the node, which then sends nothing more |
| LegacyGateway.Gateway.AddPeerGateway | src/lora_init.cpp:87-96 | the array update matches `AddPeer` |
| LegacyGateway.Gateway.OnDataRecvGateway | src/lora_init.cpp:98-151 | the handler updates the globals as `OnFrame` says |
| LegacyGateway.Gateway.constructor | src/lora_init.cpp:81-84 | an empty, zeroed peer table |
| Gateway.OnFrame | src/lora_gateway.cpp:9-61 | each frame causes at most one echo and one registration together, and the echo carries the network key and its origin address |
| Gateway.PairingKeyDecides | src/lora_gateway.cpp:26-54 | a pairing request with the right key is echoed unchanged and registers its origin with its device name; with another key nothing happens |
| Gateway.OtherFramesSilent | src/lora_gateway.cpp:56-60 | other frames send and register nothing; a FILE_META is only kept, as the same message |
| Gateway.OneRegistrationPerEcho | src/lora_gateway.cpp:9-61 | over any frames, the echoes equal the registrations in number, and each registration names its echo's origin |
| Gateway.GatewayNode.OnDataRecvGateway | src/lora_gateway.cpp:9-61 | the handler updates the globals as `OnFrame` says |
| Gateway.GatewayNode.constructor | src/lora_gateway.cpp:5-7 | zeroed globals for a network key |
| Screen.StrCopy | src/utils.cpp:362 | `strcpy` copies the C string and its NUL and leaves the rest of the destination alone |
| Screen.CopyRow | src/utils.cpp:361-363 | a copied row keeps its shape and takes the next row's text |
| Screen.NewRow | src/utils.cpp:368-369 | the new row is NUL terminated and holds the first 20 characters of the text |
| Screen.Line | src/utils.cpp:368-369 | the line shown is a prefix of the text, at most 20 characters, and the whole text when it fits |
| Screen.Scroll | src/utils.cpp:355-383 | from at most eight lines, the screen holds the last eight of the old lines plus the new one, cut to 20 characters; below eight nothing scrolls off |
| Screen.ShowsLastLines | src/utils.cpp:355-383 | after any series of prints, the screen shows the last eight lines, each cut to 20 characters |
| Screen.Display.Print | src/utils.cpp:355-383 | `oled_print` updates the rows as `Scroll` says, and the panel shows exactly the rows in use |
| Screen.Display.ScrollUp | src/utils.cpp:359-365 | the in-place scroll loop drops the oldest row and keeps the other seven in order |
| Screen.Display.Redraw | src/utils.cpp:375-378 | the redraw loop draws rows 0 to the counter, one line each |
| Screen.Display.PrintByte | src/utils.cpp:386-390 | `oled_print(uint8_t)` shows the value in decimal, which always fits and reads back as the value |
| Screen.Display.constructor | src/utils.cpp:331-353 | the rows are empty and the panel shows "booted" |
| Clock.TmToDateTime | src/utils.cpp:95-98 | `tmToDateTime` gives a valid calendar reading from 1900 on |
| Clock.DateTimeToTm | src/utils.cpp:95-98 | the inverse of `tmToDateTime` on readings from 1900 on |
| Clock.QuarterOf | src/utils.cpp:161-162 | the minute rounded down to a multiple of 15, within 15 of the minute |
| Clock.TimestampReadsBack | src/utils.cpp:156-158 | the log stamp has 19 characters, with separators at fixed places, and each field reads back |
| Clock.FileStampReadsBack | src/utils.cpp:160-164 | the file stamp has 16 characters and reads back as the date, the hour and the quarter hour |
| Clock.SameFileIffSameQuarter | src/utils.cpp:160-164 | two readings get the same file stamp exactly when they share date, hour and quarter hour |
| Clock.TimestampInjective | src/utils.cpp:156-158 | two valid readings get the same log stamp exactly when they are equal |
| Clock.GetCurrentTime | src/utils.cpp:151-168 | the stamp fits the 20-byte buffer, and for four-digit years is the full file or log stamp with each field readable |

## Left out

- Radio hardware, interrupts, FreeRTOS tasks, the mutex and `vTaskDelay` are not modelled. The receive context is
  modelled as answering each transmission before `waitForAck` looks. `waitForAck`'s polling over ACK_TIMEOUT is one
  poll: a reply arrives within the timeout or not at all.
- `sendLoraMessage` itself is not part of the shown files. A transmission is an append to the list of frames sent.
- The SD library is abstracted:
  - the card is a map plus a set of unwritable paths;
  - `FILE_WRITE` replaces the content of the `.meta` file;
  - a read never returns fewer bytes than are left.
- The data file is not closed when a chunk fails in `sendFile`. Open handles are not modelled.
- `file.seek` past the end of the file is modelled as reading nothing, with `position()` staying at the seek offset.
- The DATA_VM/ADC/I2C/SAA, TIME_SYNC and POLL branches of the receive handlers are not modelled: their payloads are
  floating point and JSON outside the file-transfer and pairing core.
- The peer registry of `lora_peer.h` is not part of this model:
  - `getDeviceNameByMac` is a parameter of the receiver;
  - the new gateway's `addPeerGateway(mac, name)` calls are recorded in order.
- The older pairing code uses a `struct_pairing.id` field that the shown header does not declare. Its frame is
  modelled as a tag, an id and the remaining bytes.
- The real-time clock and NTP are not modelled. The clock's reading is a parameter of `get_current_time`, and
  RTClib's internal storage (a one-byte year offset) is not modelled.
- The display's pixels, font and I2C transfer are not modelled. The panel is the list of lines drawn. The
  `oled_print` calls inside the handlers only log and are not modelled.
- Messages.Decode: a FILE_BODY whose `len` exceeds CHUNK_SIZE decodes to nothing, because the model requires that
  bound of a well-formed frame. The C code would write past the payload.
- FileSender.MetaFilename: a name that already ends in ".meta" with no other dot maps to itself. SyncResumesAtEnd
  requires the two names to differ.
- PairingNode.AutoPairing: its contract states only the states in which it does nothing. The request and retry
  steps are stated by RequestSendsOneFrame and RetryOnlyAfterTimeout.

## Findings

| source | as written | input that shows it | evidently intended | confidence | as-written member | corrected member |
|---|---|---|---|---|---|---|
| src/lora_file_transfer.cpp:285-299 | `current_file_path` is set before `SD.open`, and a failed open returns without a reply | an idle gateway gets a FILE_META whose destination path cannot be opened | set the session path only after the file opens (or answer REJ), so that the sender's retry can succeed | not executed | FileReceiver.MetaOpenFailureWedges | FileReceiver.OnMetaFixed |
