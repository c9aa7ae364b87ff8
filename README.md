# SendDistance radio ranging, modelled in Dafny

This project models the two build variants of the SendDistance radio test:
- the **Operator**, `TestRadioTx.c`;
- the **Coordinator**, `TestRadioRx.c`.

Together they run a four-message ranging exchange over a byte-level wire
format. A frame is `'E','W',':',type` and, for RangeCalc only, a 2-byte
little-endian value.

- `wire.dfy` (module `Wire`):
  - the constants: frame signature, protocol id `':'`, message types `0x01`, `0x02`, `0x11`, `0x12`;
  - the frame encoder;
  - the layout in which the driver delivers a received frame (`[rssi, corr] + sent[2..]`);
  - the receive qualifier, which both variants share;
  - the 16-bit little-endian encode/decode pair;
  - the posting order of qualified payloads.
- `operator.dfy` (module `Operator`):
  - the class `OperatorNode`, with the two static transmit buffers of `TestRadioTx.c` as arrays;
  - the FIFO of posted payloads and the log of frames handed to the radio;
  - the receive qualifier, the message handler, the kernel's delivery of a posted event, one key press, and the key loop.
- `coordinator.dfy` (module `Coordinator`):
  - the class `CoordinatorNode`, with the same structure;
  - the write-back of the range value's bytes;
  - the handler's sends as written.
- `round.dfy` (module `Ranging`): one whole round, with an Operator node and a Coordinator node wired together.

The handlers keep no handshake state. Each one reacts to the type byte of the message alone. A design with Idle/Awaiting states would ignore a message that arrives out of turn. The source does not: the Operator answers every RangeRequest, and the Coordinator answers every Initial and every RangeResponse. The model follows the source.

Interrupt-to-application deferral (`PostEvent`) is modelled as a FIFO of payloads:
- the qualifier appends a copy of the payload;
- `Deliver` removes the oldest payload and runs the handler on it.

The source posts a pointer into the shared receive buffer, which the next frame may overwrite. Copying at qualification time is what the model assumes.

The generator value (`rand()`) is a parameter `r: int`. The bytes of `r` are taken low byte first, as on a little-endian host: `r % 256` and `(r / 256) % 256`.

## Model

| member | source | states |
|---|---|---|
| Wire.EncodeFrame | TestRadioRx.c:55-72 | a frame is `'E','W',':'`, then the type at byte 3, then the body from byte 4 on; its length is 4 + the body's length, at most the 6-byte transmit buffer |
| Wire.Received | TestRadioTx.c:99-101 | a received frame keeps the sent frame from offset 2 on and has the sent frame's length; bytes 0 and 1 hold RSSI and correlation |
| Wire.Qualify | TestRadioTx.c:123-134 | a frame is forwarded iff byte 2 is `':'`; the forwarded payload has length `len - 3` and is exactly bytes `[3, len)` |
| Wire.QualifyEncoded | TestRadioRx.c:124-135 | every frame the encoder builds, once sent and received, passes the qualifier, which recovers exactly its type byte and body |
| Wire.EncodeLE16 | TestRadioRx.c:71-72 | the body is two bytes, the low byte first, and together they hold `r mod 65536` |
| Wire.DecodeLE16 | TestRadioTx.c:85 | the decoded value is in `0..65535`; its low byte is the first byte and its high byte the second |
| Wire.LE16RoundTrip | TestRadioRx.c:69-72 | decoding the body written for `r` gives `r mod 65536` |
| Wire.LE16DecodeEncode | TestRadioTx.c:83-86 | encoding a decoded value gives back the two body bytes |
| Wire.SignatureMatchesHeader | TestRadioTx.c:192 | the signature, FRAME_ID0 shifted left by 8 and or-ed with FRAME_ID1, is 0x4557, and the first two bytes of every frame form it |
| Wire.Posted | TestRadioTx.c:126-129 | a sequence of arrivals posts exactly as many payloads as arrivals have `':'` at byte 2: none is dropped or duplicated |
| Wire.PostedAppend | TestRadioTx.c:126-129 | payloads are posted in arrival order: the payloads of `a + b` are those of `a` followed by those of `b` |
| Wire.DropIsIdempotent | TestRadioTx.c:131-133 | the same unqualified frame, delivered any number of times, posts nothing |
| Operator.Replies | TestRadioTx.c:77-82 | the handler sends exactly one frame iff the type is RangeRequest (0x11), and that frame is `['E','W',':',0x02]` |
| Operator.Report | TestRadioTx.c:83-88 | a value is reported iff the type is RangeCalc (0x12); it is in `0..65535` and re-encodes to the two body bytes |
| Operator.AsWrittenKeyPut | TestRadioTx.c:205-212 | as written, every key other than ESC asks the radio to send 6 bytes and ESC sends nothing |
| Operator.AsWrittenKeyPutOverrun | TestRadioTx.c:210-212 | as written, the key send asks for more bytes than the 4-byte buffer and the 4-byte Initial frame hold |
| Operator.OperatorNode.constructor | TestRadioTx.c:76-210 | the handler's static buffer (line 76) and the key loop's (line 210) are distinct and both start with `'E','W',':'`; nothing is pending or sent |
| Operator.OperatorNode.RxReady | TestRadioTx.c:95-134 | a qualified frame appends the copy of bytes `[3, len)` to the pending FIFO; any other frame changes nothing; nothing is sent |
| Operator.OperatorNode.RxEvent | TestRadioTx.c:58-92 | exactly the `Replies` frames are sent; a RangeCalc value is reported; the reply buffer changes only in byte 3 and only for RangeRequest; other types change nothing |
| Operator.OperatorNode.Deliver | TestRadioTx.c:179-181 | the oldest pending payload is removed and handled: the `Replies` frames are sent, the `Report` value returned, and byte 3 of the reply buffer set for a RangeRequest; with nothing pending, nothing changes |
| Operator.OperatorNode.KeyPress | TestRadioTx.c:205-212 | for a key that was read (not the no-key value -1), ESC quits without sending; any other key sends exactly the frame `['E','W',':',0x01]` and sets byte 3 of the key buffer |
| Operator.OperatorNode.KeyLoop | TestRadioTx.c:203-213 | every key before the first ESC sends one Initial frame; the loop stops at the first ESC; the key buffer's byte 3 is Initial once a key was sent |
| Coordinator.Replies | TestRadioRx.c:56-80 | exactly one frame iff the type is Initial or RangeResponse: `['E','W',':',0x11]`, or `['E','W',':',0x12,lo(r),hi(r)]` whose body decodes to `r mod 65536`; every frame fits the transmit buffer |
| Coordinator.StoreLowBytes | TestRadioRx.c:73-74 | storing two bytes into the low bytes of `r` makes them its low and second byte and keeps its higher bytes |
| Coordinator.WriteBackIsNoOp | TestRadioRx.c:73-74 | copying the two bytes just written to `txBuf[4..5]` back into `r` leaves `r` unchanged |
| Coordinator.AsWrittenPutLengths | TestRadioRx.c:56-92 | as written, the handler's last send is always the unconditional 6-byte one |
| Coordinator.AsWrittenDefects | TestRadioRx.c:55-92 | as written, every message causes one more send than it has replies, and some send asks for more than the 4-byte buffer |
| Coordinator.AsWrittenCounterexample | TestRadioRx.c:57-92 | as written, Initial causes sends of 4 and then 6 bytes although it has one reply; RangeResponse asks for 10 bytes |
| Coordinator.CoordinatorNode.constructor | TestRadioRx.c:55 | the static transmit buffer starts with `'E','W',':'`, and nothing is pending or sent |
| Coordinator.CoordinatorNode.RxReady | TestRadioRx.c:96-135 | the same qualifier rule as the Operator: posts the copy of bytes `[3, len)` iff byte 2 is `':'`, otherwise changes nothing |
| Coordinator.CoordinatorNode.RxEvent | TestRadioRx.c:53-80 | exactly the `Replies` frames are sent; the transmit buffer's bytes 3 to 5 are updated as the source writes them; other types change nothing |
| Coordinator.CoordinatorNode.Deliver | TestRadioRx.c:164-165 | the oldest pending payload is removed and handled with the drawn value: the `Replies` frames are sent and bytes 3 to 5 of the transmit buffer updated as the handler writes them; with nothing pending, nothing changes |
| Ranging.CoordinatorReceives | TestRadioRx.c:124-130 | a Coordinator receiving an encoded frame, under any RSSI and correlation, sends exactly the `Replies` frames for its type and is left with nothing pending |
| Ranging.OperatorReceives | TestRadioTx.c:123-129 | an Operator receiving an encoded frame, under any RSSI and correlation, sends exactly the `Replies` frames for its type, reports the `Report` value of its type and body, and is left with nothing pending |
| Ranging.RangingRound | TestRadioRx.c:56-78 | Operator key, Coordinator, Operator, Coordinator, Operator, each frame carried from the sender's log to the peer's qualifier under its own RSSI and correlation: exactly 4 frames are sent, they are the four expected frames, and the Operator reports the Coordinator's `r mod 65536` |
| Ranging.Scenario4242 | TestRadioRx.c:69-72 | for 4242 the RangeCalc frame is `['E','W',':',0x12,0x92,0x10]`, and its body decodes to 4242 |

## Left out

- Driver and kernel setup (`initRadio`, `rfIocntl`, `radioIocntl`, `objectCreate`, `OnEvent`, `rfEnableRx`, `WaitEvent`): foreign calls whose behaviour is not visible. The frame signature filter is assumed: only frames whose signature matched reach the qualifier.
- `rand()`: replaced by the parameter `r`.
- `getch` and `EventYield` polling: the key loop takes the keys that were read; a requires excludes the "no key yet" value -1, which the polling consumes.
- `txDoneHandler` in both files; all `print`, `printf`, `dump` and `debug` output; the commented-out code in both handlers.
- The alternate `'M','0'` frame ID under `#else`, which is never compiled.
- Interrupt preemption and the overwrite race on the shared receive buffer. The model copies the payload out when the frame is qualified.
- Operator.OperatorNode.RxReady: requires at least the 3 header bytes. With a shorter frame, the 16-bit `len - 3` would wrap.
- Coordinator.CoordinatorNode.RxReady: the same 3-byte precondition, for the same reason.
- Operator.OperatorNode.RxEvent: requires the bytes the handler reads: the type byte, and for RangeCalc two body bytes. With a shorter payload the source reads stale bytes of the receive buffer.
- Coordinator.CoordinatorNode.RxEvent: requires the type byte, for the same reason.
- Coordinator.CoordinatorNode.RxEvent: does not make the unconditional extra send after the switch. It sends one reply per recognised message (see Findings).
- Host endianness: the bytes of `r` are taken low byte first. The width of C `int` is not modelled; `r` is an unbounded integer, whose low two bytes are taken as in two's complement.
- Per-role handshake states (Idle, Awaiting…): the source keeps no such state, so the model has none.

## Findings

| source | as written | input that shows it | evidently intended | confidence | as-written member | corrected member |
|---|---|---|---|---|---|---|
| TestRadioRx.c:92 | after the switch, every handled message sends the static buffer again, with length 6 | a message of type 0x01: two sends, of 4 and 6 bytes; a message of type 0x7F: one send although it has no reply | exactly one reply per recognised message, none otherwise | not executed | Coordinator.AsWrittenDefects | Coordinator.CoordinatorNode.RxEvent |
| TestRadioRx.c:55-77 | the buffer is the 4-byte literal `"EW:"`; bytes 4 and 5 are written and 10 bytes are sent | a message of type 0x02 | a 6-byte buffer, and a length of 4 plus the body's length | not executed | Coordinator.AsWrittenCounterexample | Coordinator.Replies |
| TestRadioTx.c:210-212 | the key loop's 4-byte buffer is sent with length 6 | any key other than ESC | send the 4 bytes of the Initial frame | not executed | Operator.AsWrittenKeyPutOverrun | Operator.OperatorNode.KeyPress |
