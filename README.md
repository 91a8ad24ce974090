# ohc.c: the overhead controller's frame receiver and relay dispatcher

`ohc.c` is the firmware of the overhead controller of the kilobot swarm. It
listens to a serial line, recognises fixed-size 132-byte frames in the byte
stream, and relays what each frame asks for to the robots over infra-red.
This project models its two parts that carry the logic:

- **The receive interrupt handler** (`ISR(USART_RX_vect)`). It keeps a
  132-byte circular window over the stream and an incremental XOR of the
  window. A frame is recognised when the oldest byte of the window is the
  sentinel 0x55 and the XOR of all 132 bytes is 0. The recognised window is
  then copied oldest-first into `new_packet`, `packet_type` is set to its
  second byte and `has_new_packet` is raised.
- **One pass of the main loop's `while(1)` body**. When `has_new_packet` is
  set, it is cleared and the pass dispatches on `packet_type`:
  - STOP does nothing.
  - LEDTOGGLE flips `leds_toggle` and the blue LED with it.
  - FORWARDMSG copies the payload into `msg`, recomputes the crc, and sends
    it until a new frame arrives.
  - FORWARDRAWMSG does the same but keeps the payload's crc.
  - BOOTPAGE sends the page in 6-byte groups, stopping early if a new frame
    arrives.
  - GPSFRAME sends 7-byte fragments until one whose id byte is 0.

Files:

- `bytes.dfy` (module `Bytes`): bytes and the XOR checksum.
- `receiver.dfy` (module `Receive`): the handler. It is a `Receiver` class
  over the handler's globals, with `array` fields for `packet_buffer` and
  `new_packet`. It also holds the sliding-window specification `Slide` and
  the round-trip theorem.
- `message.dfy` (module `Message`): `message_t` seen as raw bytes, its
  `Layout`, and `message_crc` as a `Crc` with `Seal`.
- `relay.dfy` (module `Relay`): the specification of one pass. `Dispatch`
  and the per-case functions are written as functions of the frame, the
  record, `leds_toggle` and the answers of the `has_new_packet` polls. The
  lemmas state what each relay behaviour promises.
- `dispatcher.dfy` (module `MainLoop`): the main loop as a `Dispatcher`
  class. Its methods run the source's loops over the `msg` array and are
  each proved equal to the corresponding `Relay` function. `Deliver` chains
  the handler and the dispatcher: after any byte stream followed by a valid
  frame, the next pass dispatches on that frame.

The `has_new_packet` polls inside the relay loops are modelled as an oracle
`poll: nat -> bool`, where the k-th poll of a loop answers `poll(k)`. For
the forwarding loops, which run until a poll sees a new frame, the caller
supplies a `deadline`: one poll that is known to see a new frame.

## Model

| member | source | states |
|---|---|---|
| Bytes.XorAppend | ohc.c:154-156 | the XOR of a concatenation is the XOR of the parts' XORs |
| Bytes.XorZeros | ohc.c:19-21 | the zero-initialised buffer has checksum 0, matching the initial packet_checksum |
| Bytes.XorUpdate | ohc.c:154-156 | overwriting byte i with v changes the XOR of the buffer by XORing the old byte out and v in, which is the handler's incremental update |
| Bytes.XorRotate | ohc.c:161-162 | rotating the buffer leaves its XOR unchanged, so packet_checksum is the checksum of the window read oldest-first |
| Receive.Detects | ohc.c:161-162 | the synchronisation test on a window read oldest-first: 132 bytes, the oldest is 0x55 and all XOR to 0. It is a predicate with no contract of its own; Receive.Receiver.HandlerTest ties it to the handler's two tests |
| Receive.Slide | ohc.c:154-159 | the window after a run of interrupts, one byte dropped and one appended per byte. Its contract states only that the window keeps its length; Receive.SlideKeepsLast and Receive.SlideOntoFrame carry its content |
| Receive.SlideKeepsLast | ohc.c:154-159 | after any bytes arrive, the window holds exactly the last 132 bytes of the whole stream |
| Receive.SlideOntoFrame | ohc.c:151-172 | whatever the window held before and whatever bytes came first, once a frame f is the last 132 bytes the window is f |
| Receive.RotateStep | ohc.c:154-159 | storing b at the cursor and advancing the cursor with wrap-around makes the oldest-first window drop its oldest byte and append b |
| Receive.RotatedIndex | ohc.c:164-168 | reading from cursor h with wrap-around, the k-th byte is buf[(h+k) mod n] |
| Receive.Receiver.WindowWraps | ohc.c:164-168 | the window's k-th byte is packet_buffer[(packet_head+k) mod 132], the byte the two copy loops place at new_packet[k] |
| Receive.Receiver.HandlerTest | ohc.c:161-162 | the handler's tests, packet_buffer[packet_head] == 0x55 and packet_checksum == 0, hold exactly when the window read oldest-first is a frame (Detects) |
| Receive.Receiver.constructor | ohc.c:19-24 | the zero-initialised globals satisfy the handler's invariant: cursor in range, checksum equal to the buffer's XOR, no frame pending |
| Receive.Receiver.Store | ohc.c:154-159 | the byte replaces packet_buffer[packet_head], the cursor advances and wraps to 0 at 132, and the checksum stays the XOR of the buffer |
| Receive.Receiver.CopyWindow | ohc.c:163-168 | after the two copy loops new_packet is the window read oldest-first |
| Receive.Receiver.Feed | ohc.c:151-173 | one interrupt: the buffer gets rx at the old cursor, the cursor advances with wrap-around, and the window slides by rx. The slot is published (new_packet is the window, flag raised, packet_type is its byte 1) exactly when the window starts with 0x55 and XORs to 0; otherwise the slot is unchanged |
| Receive.Receiver.FeedAll | ohc.c:151-173 | a run of interrupts leaves the window equal to Slide over the bytes, and publishes the final window if it is a frame |
| Receive.RoundTrip | ohc.c:151-172 | from any valid state and after any prefix, the 132 bytes of a frame leave exactly that frame in new_packet, with the flag set and packet_type equal to its byte 1 |
| Message.Copy | ohc.c:88-89 | the bytes at [at, at+n) become src[from..from+n) and every other byte is unchanged |
| Message.Crc.Seal | ohc.c:90 | the crc field becomes message_crc of the bytes before it, and those bytes are unchanged |
| Relay.FirstSeen | ohc.c:91 | the forwarding loop's first poll that sees a new frame: no earlier poll from the start sees one |
| Relay.Repeat | ohc.c:91-97 | n sends, all of the same record |
| Relay.ForwardImage | ohc.c:87-90 | FORWARDMSG's record carries payload byte j at every position j before the crc and a valid crc |
| Relay.RawImage | ohc.c:99-101 | FORWARDRAWMSG's record is exactly the sizeof(message_t) payload bytes |
| Relay.ForwardRawAgree | ohc.c:87-101 | the raw and the recomputing relay build the same record if and only if the payload already carries a valid crc |
| Relay.ForwardSends | ohc.c:87-109 | the forwarding cases send their record once per poll that sees no new frame, stop at the first poll that sees one, and FORWARDMSG's record is sealed |
| Relay.GroupsBound | ohc.c:115 | the loop test 6k < SPM_PAGESIZE holds for exactly the first ceil(SPM_PAGESIZE/6) groups |
| Relay.BootReadsInFrame | ohc.c:115-117 | every 6-byte group the boot-page loop reads lies inside new_packet if and only if SPM_PAGESIZE <= 126 |
| Relay.BootHeader | ohc.c:111-113 | the record gets type BOOTPGM_PAGE, page address new_packet[2] and unused 0, and nothing else changes |
| Relay.BootMessage | ohc.c:116-118 | the loop body at i = 6k yields page offset 3k, the data bytes new_packet[3+6k..9+6k) and a valid crc, keeping the header fields |
| Relay.BootLoop | ohc.c:115-120 | the boot-page loop from group k: one sealed BootMessage per turn while i < SPM_PAGESIZE and no poll sees a new frame. Its contract states only that the record keeps its size; Relay.BootLoopCount, Relay.BootRunPolls and Relay.BootLoopCarries carry its content |
| Relay.BootPageRun | ohc.c:110-120 | case PACKET_BOOTPAGE: the header stores, then the loop from group 0. Its contract states only that the record keeps its size; Relay.BootPageSends and Relay.BootPageCarries carry its content |
| Relay.BootRunPolls | ohc.c:115 | the boot-page loop's run ends either when the page is done or at the first poll that sees a new frame, and every earlier turn saw none |
| Relay.BootLoopCount | ohc.c:115-120 | the boot-page loop sends one message per turn of its run |
| Relay.BootLoopCarries | ohc.c:115-120 | from group k on, the j-th message sent carries group k+j |
| Relay.BootResumesStep | ohc.c:115-120 | one turn whose test passes sends the k-th message and leaves the rest of the run to groups from k+1 |
| Relay.BootPageSends | ohc.c:110-120 | BOOTPAGE sends at most ceil(SPM_PAGESIZE/6) messages, only while no poll has seen a new frame, and stops early only when one does |
| Relay.BootPageCarries | ohc.c:110-120 | the k-th BOOTPAGE message has type BOOTPGM_PAGE, page address new_packet[2], offset 3k, data new_packet[3+6k..9+6k) and a valid crc |
| Relay.GpsReadsInFrame | ohc.c:131-132 | the test i < PACKET_SIZE-7 at i = 2+7k holds for exactly 18 slots, and the last fragment read ends at index 127, inside new_packet |
| Relay.GpsHeader | ohc.c:128-129 | the record gets type GPS and unused 0, and nothing else changes |
| Relay.GpsFragment | ohc.c:132 | the fragment field becomes new_packet[2+7k..9+7k), so its id byte is new_packet[2+7k] |
| Relay.GpsLoop | ohc.c:131-137 | the GPS loop from slot k: copy the fragment, stop on id 0, otherwise seal and send. Its contract states only that the record keeps its size; Relay.GpsLoopCount, Relay.GpsRunStops and Relay.GpsLoopCarries carry its content |
| Relay.GpsFrameRun | ohc.c:127-137 | case PACKET_GPSFRAME: the header stores, then the loop from slot 0. Its contract states only that the record keeps its size; Relay.GpsFrameSends and Relay.GpsFrameCarries carry its content |
| Relay.GpsRunStops | ohc.c:131-134 | the GPS loop's run ends at the first slot whose id is 0, or after the last slot |
| Relay.GpsLoopCount | ohc.c:131-137 | the GPS loop sends one message per slot of its run |
| Relay.GpsStep | ohc.c:132-136 | a fragment with a nonzero id, sealed, is a correct k-th GPS message |
| Relay.GpsLoopCarries | ohc.c:131-137 | from slot k on, the j-th message sent carries the fragment of slot k+j |
| Relay.GpsResumesStop | ohc.c:133-134 | a slot whose id is 0 ends the run with the fragment copied and nothing more sent |
| Relay.GpsResumesStep | ohc.c:132-136 | a slot whose id is not 0 is sealed and sent, and the rest of the run continues from the next slot |
| Relay.GpsFrameSends | ohc.c:127-137 | GPSFRAME sends at most 18 messages, one per fragment with a nonzero id, and stops early only at an id of 0 |
| Relay.GpsFrameCarries | ohc.c:127-137 | the k-th GPSFRAME message has type GPS, unused 0, fragment new_packet[2+7k..9+7k) with a nonzero id, and a valid crc |
| Relay.Dispatch | ohc.c:75-145 | with no frame pending, or for STOP, LEDTOGGLE or an unknown type, nothing is sent and the record is untouched; leds_toggle flips exactly for LEDTOGGLE |
| Relay.ToggleTwice | ohc.c:80-86 | two LEDTOGGLE passes restore leds_toggle and send nothing |
| MainLoop.Dispatcher.constructor | ohc.c:25-26 | the zeroed record, leds_toggle and blue LED off, nothing sent |
| MainLoop.Dispatcher.Write | ohc.c:88-89 | the byte loop over msg computes Copy |
| MainLoop.Dispatcher.SealMsg | ohc.c:90 | msg.crc = message_crc(&msg) computes Seal |
| MainLoop.Dispatcher.Send | ohc.c:92 | message_send appends the current record to the messages sent |
| MainLoop.Dispatcher.SendUntilPolled | ohc.c:91-97 | the loop sends the record once per poll up to the first poll that sees a new frame |
| MainLoop.Dispatcher.RelayForward | ohc.c:87-98 | the FORWARDMSG case computes ForwardImage and its repeated sends |
| MainLoop.Dispatcher.RelayRaw | ohc.c:99-109 | the FORWARDRAWMSG case computes RawImage and its repeated sends |
| MainLoop.Dispatcher.BootGroup | ohc.c:116-119 | one boot-page turn computes BootMessage and sends it |
| MainLoop.Dispatcher.BootPages | ohc.c:115-120 | the boot-page loop computes BootLoop's record and sends |
| MainLoop.Dispatcher.RelayBootPage | ohc.c:110-126 | the BOOTPAGE case computes BootPageRun |
| MainLoop.Dispatcher.GpsTurn | ohc.c:132-136 | one GPS turn copies the fragment, and stops exactly when its id is 0, or otherwise seals and sends it |
| MainLoop.Dispatcher.GpsFragments | ohc.c:131-137 | the GPS loop computes GpsLoop's record and sends |
| MainLoop.Dispatcher.RelayGps | ohc.c:127-143 | the GPSFRAME case computes GpsFrameRun |
| MainLoop.Dispatcher.Step | ohc.c:75-145 | one pass clears has_new_packet (the store at ohc.c:76) and computes Dispatch's leds_toggle, record and sends, with the blue LED still showing leds_toggle. The handler's raising of the flag during the pass is not part of this state; see Left out |
| MainLoop.Deliver | ohc.c:74-173 | after any byte stream ending in a frame f, the next pass dispatches on f's type byte over f itself |

## Left out

- Hardware set-up (ohc.c:36-72): port directions, the UART configuration, interrupt vectors and the power-on LED flashes. The model starts after them, with the blue LED off.
- The green LED pulses and `_delay_ms` calls. Only the blue LED bit, which shows `leds_toggle`, is modelled.
- Concurrency. The handler and the main loop are modelled as separate sequential steps. The handler can run during a forwarding loop, where interrupts are enabled; this is modelled only through the `poll` oracle, and `new_packet` is taken as fixed during a pass. The `cli()`/`sei()` pairs are not modelled. Inside the boot-page loop interrupts are off, so on the hardware the flag cannot change there; the oracle allows any answers, which covers that case too.
- `message.h`, `message_crc` and `message_send` are not part of this model. The record is `Layout.size` raw bytes. The field offsets, the crc size and the values of BOOTPGM_PAGE and GPS are parameters (`Message.Layout`), constrained to be disjoint. `message_crc` is an arbitrary function of the bytes before the crc field (`Message.Crc`). `message_send` appends the record to `sent`.
- The crc is taken to be the last field of `message_t`, since FORWARDMSG copies exactly the bytes before it. The GPS id is taken to be the first byte of the 7-byte `gpsmsg`.
- Every scalar field of `message_t` that the dispatcher stores to (`type`, `bootmsg.page_address`, `bootmsg.unused`, `bootmsg.page_offset`, `gpsmsg.unused`) is taken to be one byte wide. `Message.Layout` gives each of them an offset and no width. If `gpsmsg.unused` or `bootmsg.unused` were wider, the source would zero more bytes than the model does.
- `sizeof(message_t)` is taken to be at most 130 (`Message.Layout.Valid`), so FORWARDRAWMSG's reads of `new_packet[2 .. 2 + sizeof(message_t))` stay inside the 132-byte frame. A larger record would make the source read past `new_packet`, and the model has no memory there.
- Relay.BootPageRun: requires SPM_PAGESIZE <= 126, which the source does not check. `Relay.BootReadsInFrame` proves this is exactly the condition for the loop's reads to stay inside `new_packet`. With a larger page, for example 128, the last group reads `new_packet[129..135)`, past the 132-byte array, and the model has no memory there.
- Relay.Dispatch: requires (through `Relay.CanDispatch`) SPM_PAGESIZE <= 126 for BOOTPAGE, and a deadline poll that sees a new frame for the forwarding cases. Without a new frame, the source's forwarding loop runs forever, and such a pass is not modelled.
- MainLoop.Dispatcher.Step: the same two preconditions as `Relay.Dispatch`.
- MainLoop.Dispatcher.Step: the ensured `!rx.hasNewPacket` is only the store at ohc.c:76. The polls inside the pass read the `poll` oracle, not `rx.hasNewPacket`. In the source, a forwarding pass (ohc.c:91, ohc.c:102) always ends with `has_new_packet` set by the handler, and so does a boot-page pass stopped by its test at ohc.c:115. The handler may also have replaced `new_packet` by then. The model shows the next pass dispatching that newer frame only when a `Receive.Receiver.Feed` run (for example `MainLoop.Deliver`) is placed between two `Step`s.
- MainLoop.Dispatcher.RelayBootPage: requires SPM_PAGESIZE <= 126, for the same reason as `Relay.BootPageRun`.
- MainLoop.Dispatcher.SendUntilPolled: requires a deadline poll that sees a new frame, so it does not cover a loop that never ends.
- Unlike the boot-page loop (ohc.c:115), the GPS loop (ohc.c:131) has no `has_new_packet` test. It stops only at an id byte of 0 or after the last slot, and the model follows the code.
- The 8-bit loop counter `i` of the main loop is modelled as an unbounded number. Under the model's preconditions it never exceeds 131, so it cannot wrap. `packet_head` stays below 132 by the handler's invariant, and `packet_checksum` is an 8-bit vector.
