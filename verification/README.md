# Verification model of the REST Switch A140808 controller

The repository drives a relay and opto-input board (an ATmega32) from a small Linux host (an
HLK-RM04 module). This project models the parts where its algorithms and long-lived state are,
and proves what they are for:

- **The framed serial link.** A message is 14 characters: `[`, four bytes as hex, the CRC of
  those characters as hex, `]`. The receiver slides a 14-byte ring over the stream and checks it
  after every byte. The same ring also holds the frame being sent, and a second ring of 128
  bytes stands between the receive interrupt and the main loop.
- **The board's state machine.** An inverted and permuted relay port, register messages, and
  subscriptions that report changes; and its main loop on a busy line.
- **The host's end** of the link.
- **The base-32 coder** for serial numbers and time stamps.
- **The websocket client**: byte queues under partial writes, reconnecting, heartbeats.

| file | what it holds |
|---|---|
| `Options.dfy`, `Bits.dfy` | a value that may be missing; bytes and words as numbers, with `^` and `\|` defined place by place |
| `Crc16.dfy`, `ErrorDetection.dfy` | the checksum as a bit-serial register: linearity, bursts, parity |
| `MachineWords.dfy` | the checksum in 16-bit machine words, as the program computes it, and that it is that register |
| `RingBuffer.dfy` | the overwriting ring of both ends, refining a bounded sequence |
| `Frames.dfy`, `KnownFrames.dfy` | building, checking and reading a frame in a ring; frames character by character |
| `Link.dfy`, `Streams.dfy` | histories of the shared ring; which frames of a stream are delivered, for any interleaving with sendings |
| `EndToEnd.dfy` | the host's stream of packets, as the device sees it |
| `Relays.dfy`, `Panels.dfy` | the relay port, and the board as a function of its messages and inputs |
| `Device.dfy`, `MainLoop.dfy`, `BusyLine.dfy` | the board's objects and handlers; the loop that polls them, by whole packets and byte by byte |
| `Host.dfy`, `ReturnPath.dfy` | the host's objects, and the two ends joined in both directions |
| `Base32.dfy`, `Base32Coder.dfy`, `DateTime.dfy` | positional numerals, the two coding loops, time stamps |
| `Connections.dfy`, `Outgoing.dfy`, `WebSock.dfy` | the connection machine, the byte queues, the client |

`dafny verify dfyconfig.toml` checks all of it.

## How the source is modelled

- Objects with fields stay classes, buffers written in place stay arrays, and loops stay loops
  with invariants. Each method is proved against a function of the old state, and the theorems
  are about those functions. The message buffer inherits from the ring in C++; here, as in the
  host's C, its operations take a ring.
- Device and host carry the same codec. It is modelled once. The theory of the link is stated
  for any codec whose windows are 14 bytes with the opening bracket in front only
  (`Link.WellFramed`), and `Link.WireIsWired` shows that the real one is such a codec.
- Ghost state records what the proofs speak of: the history of bytes taken in and frames sent,
  the polls so far, the relays during each pulse, the host's own commands, every byte queued and
  accepted. Interrupt arrivals, input pins, reads and writes of the serial device, the library's
  callbacks and results, and the clock are arguments of the operations, in any order and with any
  answers.
- Where a theorem needs something of the environment it says so: the clock does not run backwards
  (`Timely`, in `Connections.AttemptsAreSpaced` and `Connections.HeartbeatsAreSpaced`); the bytes
  that came in are a prefix of what the other end sent, behind noise, as the theorems about
  streams state in their `requires`.
- Assumptions throughout: allocation succeeds; the receive interrupt stores a byte between two
  operations on its ring, not inside one; `long` and `time_t` are 64-bit and little-endian; the overlapping
  copy that strips a time stamp behaves as a move; a null message to the websocket queues is
  taken as an empty one, which the code treats alike.

## Where the code and its promises part

- The bit messages' comments promise bits 0 to 7. The number is a relay's, counted from 1: bit 0
  switches relay 5 and relay 8 is out of reach. `Relays.BitReachesItsRelay` says exactly which
  relay each number moves.
- A frame dispatched while another is half received destroys the incoming one
  (`Link.SendingInsideAFrameLosesIt`), so not every message arrives. Over every run exactly the
  messages arrive whose frames no sending fell into (`Streams.UncutFramesArrive`,
  `EndToEnd.SurvivorsArrive`), and all of them if and only if every sending fell between frames
  (`EndToEnd.EveryMessageArrives`). Sharing the ring does no other harm.
- The host sends a newline after each frame because of "a bug in atmega32 code". In the code
  modelled here nothing depends on it: a frame is delivered by its closing bracket, with
  separators (`EndToEnd.EveryMessageArrives`) and without (`ReturnPath.EveryFrameArrives`).
- Each poll handles at most one message and the receive ring holds 128 bytes, so a busy line can
  overrun it. When whole packets come between polls, bytes are lost if and only if more than eight
  messages ever wait (`MainLoop.RunLoop`). When they come byte by byte, at any moment, nothing is
  lost as long as no more than eight packets, the one still coming in counted, are unread
  (`BusyLine.Run`); a packet's worth of bytes per poll never exceeds that
  (`BusyLine.PaceIsEnough`). The first bytes of a ninth packet can overrun the ring
  (`BusyLine.NinthCanOverrun`).
- The checksum detects every burst within 16 bits and every odd number of flips. A burst of 17
  bits hides if and only if it flips the bits of the polynomial
  (`ErrorDetection.SeventeenBitsCanHide`, `Frames.PayloadBurstOfSeventeen`); one that turns an
  accepted window into another with different values is `Frames.HiddenCorruption`.
- `encode` is documented to return zero on error; it returns -1. `decode` never reports a
  character outside the alphabet: its result depends on lengths alone (`Base32Coder.Decode`).
- A time stamp reads back as the time it was made from exactly for 0 <= t < 2^56, and for -2,
  which is the error code for the times it refuses (`DateTime.StampRoundTrip`).
- The websocket code logs that a library teardown keeps the connection "down forever". It does
  so if and only if no later callback closes the connection, at a time that does not read as zero,
  with none after it that establishes it or tears it down; otherwise a poll reconnects five
  seconds after that callback (`Connections.DownUntilClosedAgain`,
  `Connections.TeardownIsNotFinal`).
- A close on request is meant not to be followed by a reconnect. When the library reports the
  connection closed, no poll retries if and only if the reconnect timer was not running when the
  close was asked for (`Connections.ClosedOnRequest`). It can be running in an open connection
  (`Connections.StaleTimer`).
- Bytes queued for the websocket are lost exactly when a message does not fit behind those
  waiting, when the library answers a write with an error, or when the storage is given up
  (`OutgoingBytes.BytesAreConserved`).

## Model

| member | source | states |
|---|---|---|
| Rings.RingBuffer.constructor | avr/src/ring_buffer.h:31-40 | a new ring is empty and holds at most its capacity |
| Rings.RingBuffer.Init | hlk-rm04/files/package/utils/a140808/src/ring_buf.h:41-60 | initialising an existing ring gives it new, empty storage |
| Rings.RingBuffer.Free | hlk-rm04/files/package/utils/a140808/src/ring_buf.h:63-75 | a freed ring has no capacity and no contents |
| Rings.RingBuffer.Clear | avr/src/ring_buffer.h:57-61 | empties the ring and keeps its storage |
| Rings.RingBuffer.PushBack | avr/src/ring_buffer.h:88-106 | the contents become the last `capacity` bytes of the old contents and the new one, also when full and when there is no capacity |
| Rings.RingBuffer.PopFront | avr/src/ring_buffer.h:109-119 | takes the oldest byte off, or answers 0 on an empty ring |
| Rings.RingBuffer.PopBack | avr/src/ring_buffer.h:122-131 | takes the newest byte off, or answers 0 on an empty ring |
| Rings.RingBuffer.At | avr/src/ring_buffer.h:134-153 | the i-th oldest byte across the wrap, 0 past the end |
| Rings.RingBuffer.SetData | hlk-rm04/files/package/utils/a140808/src/ring_buf.h:176-186 | a bulk push keeps the last `capacity` bytes of old and new together |
| Rings.RingBuffer.GetData | hlk-rm04/files/package/utils/a140808/src/ring_buf.h:189-201 | moves the oldest min(size, len) bytes out in order and leaves the rest of the target alone |
| Rings.ViewAt | avr/src/ring_buffer.h:134-147 | element k of the abstract contents is storage place first + k, wrapped once |
| Rings.ViewAppend | avr/src/ring_buffer.h:100-105 | writing at `last` with room to spare appends, for any wrap position |
| Rings.ViewReplace | avr/src/ring_buffer.h:90-99 | overwriting a full ring's oldest byte and moving `first` drops it and appends the new one |
| Rings.ViewSplitLast | avr/src/ring_buffer.h:122-131 | the place before `last` holds the newest byte |
| Rings.KeepTwice | avr/src/ring_buffer.h:88-106 | forgetting early changes nothing: only the last n bytes of a stream ever matter |
| Crc16.ShiftIsLinear | avr/src/msg_buf.h:145-152 | one step of the register is linear under xor |
| Crc16.ShiftKeepsNonZero | avr/src/msg_buf.h:145-152 | a step maps to zero only zero, so it is one-to-one |
| Crc16.CrcIsBitSerial | avr/src/msg_buf.h:142-154 | folding bytes in whole equals feeding their bits one at a time, low bit first |
| Crc16.FeedAllIsLinear | avr/src/msg_buf.h:142-178 | registers and inputs of any length differ after feeding by what their difference does to the difference |
| Crc16.SameCrc | avr/src/msg_buf.h:165-178 | two strings share a checksum if and only if their difference returns a zero register to zero |
| Crc16.CrcIsInjective | avr/src/msg_buf.h:142-154 | for a fixed string of any length the checksum is one-to-one in the starting register |
| Crc16.StartsFromOnes | avr/src/msg_buf.h:165-178 | the checksum of two bytes or more is that of a zero register fed the string with its first sixteen bits turned over |
| MachineWords.CrcOfWords | avr/src/msg_buf.h:142-178 | over any string the masks, shifts and exclusive-ors of 16-bit words compute the register of `Crc16` |
| ErrorDetection.BurstDetected | avr/src/msg_buf.h:116-178 | strings of any length whose differences lie within 16 consecutive bits have different checksums |
| ErrorDetection.SeventeenBitsCanHide | avr/src/msg_buf.h:142-178 | 16 is the limit, and by one pattern: strings of any length whose differences lie within 17 consecutive bits share a checksum if and only if the difference is the polynomial |
| ErrorDetection.CrcParity | avr/src/msg_buf.h:142-178 | the checksum has the bit parity of its input, whatever the length |
| ErrorDetection.OddFlipsDetected | avr/src/msg_buf.h:142-178 | an odd number of flipped bits always changes the checksum |
| Frames.ComputeCrc | avr/src/msg_buf.h:165-178 | the checksum of characters 1 to 8 of the ring |
| Frames.GetCrc | avr/src/msg_buf.h:156-163 | the number the stored checksum characters read as |
| Frames.Validate | avr/src/msg_buf.h:116-138 | the verdict on the window: incomplete, bad frame, bad checksum or accepted, in that order |
| Frames.GetBytes | avr/src/msg_buf.h:71-89 | answers the four values exactly for an accepted window, zeros otherwise |
| Frames.SetBytes | avr/src/msg_buf.h:92-113 | whatever was in the ring, it ends up holding exactly the frame of the four bytes |
| Frames.FrameRoundTrip | avr/src/msg_buf.h:71-138 | every built frame is accepted, reads back as its message, and has `[` in front only |
| KnownFrames.FrameText | avr/src/msg_buf.h:22-113 | between the brackets of any frame stand the four bytes in order and the checksum of their eight characters, each as lower-case hex digits, high digit first |
| KnownFrames.DigitRead | avr/src/msg_buf.h:51 | digits of either case read as their value, every other character as zero |
| KnownFrames.ZeroFrame | avr/src/msg_buf.h:92-178 | the frame of four zeros is `[00000000f32d]` |
| KnownFrames.RelayOneFrame | avr/src/msg_buf.h:92-178 | the frame of the message that switches relay 1 on is `[31d101ff6ca3]` |
| KnownFrames.RelayOnePacket | hlk-rm04/files/package/utils/a140808/src/serial.c:127-156 | the host writes that frame and a line feed |
| Frames.AcceptedIsBuilt | avr/src/msg_buf.h:71-138 | a window is accepted and written in the sender's digits if and only if it is the frame of the message it reads as |
| Frames.PayloadCorruptionRejected | avr/src/msg_buf.h:116-178 | a corruption of the payload characters within 16 consecutive bits, or of an odd number of bits, is always rejected |
| Frames.PayloadBurstOfSeventeen | avr/src/msg_buf.h:116-178 | a corruption of the payload characters within 17 consecutive bits is accepted if and only if it flips the bits of the polynomial |
| Frames.HiddenCorruption | avr/src/msg_buf.h:71-178 | a concrete one: with its payload `00000000` replaced by `3p100000` and its checksum kept, the frame of four zeros is still accepted and delivers other values |
| Frames.OneCharacterReplaced | avr/src/msg_buf.h:50-178 | one replaced character is accepted if and only if it is a checksum character of the same lenient value, and never delivers other values |
| Link.WireIsWired | avr/src/msg_buf.h:71-138 | the real codec meets every demand the theory of the link makes |
| Link.AcceptedWindowIsReceived | avr/src/msg_processor.h:120-147 | a window that reaches back into a sent frame is never accepted |
| Link.SharingIsHarmless | avr/src/msg_processor.h:120-147 | for every interleaving of bytes and sendings the shared ring delivers what a private ring emptied at each sending would |
| Link.DeliveryExactly | avr/src/serial.cpp:225-238 | a byte delivers something if and only if the last 14 events are bytes that spell an accepted window, and then just that window |
| Link.SendingSplitsTheRun | avr/src/msg_processor.h:120-144 | the runs before and after a sending deliver what each would alone, whatever was sent |
| Link.SendingInsideAFrameLosesIt | avr/src/msg_processor.h:120-144 | one sending, anywhere inside the next incoming frame and after any run, loses that frame; EndToEnd.SurvivorsArrive is the statement for whole runs |
| Link.NothingFromLessThanAFrame | avr/src/msg_buf.h:116-123 | fewer than 14 events deliver nothing |
| Streams.UncutFramesArrive | avr/src/serial.cpp:225-238 | for any run over any stream of frames, after what came early exactly the complete frames that no sending fell into are delivered, in order |
| Streams.AllUncut | avr/src/msg_processor.h:120-144 | all messages of a stream are among the uncut ones if and only if no frame was cut |
| Streams.QuietStart | avr/src/serial.cpp:225-238 | noise without an opening bracket delivers nothing before the first frame is complete |
| EndToEnd.SurvivorsArrive | hlk-rm04/files/package/utils/a140808/src/serial.c:127-156 | of every list of messages, each frame followed by a newline, exactly those whose frames no sending fell into arrive, in order and unchanged, after any noise and for every interleaving |
| EndToEnd.EveryMessageArrives | hlk-rm04/files/package/utils/a140808/src/serial.c:127-156 | all of them arrive, and once the first frame is complete nothing else, if and only if every sending fell between frames; with no `[` in the noise nothing else is delivered at all |
| Relays.OutputsRoundTrip | avr/src/avr_impl.cpp:61-63 | reading and writing the permuted, inverted port are inverse, both ways |
| Relays.OutputWiring | avr/src/avr_impl.cpp:107-118 | each place of the output register is one named pin of PORTA, inverted |
| Relays.MaskedWrite | avr/src/avr_impl.cpp:65 | a masked write reads back as the masked update of the register |
| Relays.BitWrite | avr/src/avr_impl.cpp:67-68 | a bit message switches one relay and leaves seven alone |
| Relays.BitReachesItsRelay | avr/src/avr_impl.cpp:67-68 | bit b controls relay n if and only if n is b, or b is 0 and n is 5 |
| Relays.PulseIsTransient | avr/src/avr_impl.cpp:223-240 | one toggle turns over just the relay addressed, and the second restores the port |
| Relays.InputWiring | avr/src/avr_impl.cpp:59 | each input register bit is one named pin, inverted |
| Devices.InputPins | avr/src/avr_impl.cpp:59 | each input is on if and only if its own pin of port C or D is low |
| Panels.RegisterFollowsMessages | avr/src/avr_impl.cpp:182-240 | in every run the relays are the fold of the messages handled, and nothing else moves them |
| Panels.BitCommand | avr/src/avr_impl.cpp:199-220 | after message 0x31 on register 0xD1 the relay named is on if and only if the third parameter is not zero, and every other relay is as it was |
| Panels.WriteCommand | avr/src/avr_impl.cpp:182-196 | after message 0x21 on register 0xD1 a relay in the mask is on if and only if the value has its bit, and every other relay is as it was |
| Panels.OrderIsObeyed | avr/src/msg_processor.h:151-227 | every message does to every relay what it orders, and nothing without an order |
| Panels.LastOrderHolds | avr/src/avr_impl.cpp:182-240 | a relay is on if and only if the last message with an order for it said so |
| Panels.PulseTurnsOne | avr/src/avr_impl.cpp:223-240 | message 0x41 on register 0xD1 turns over just the relay it names for as many milliseconds as it says; no other message turns over anything |
| Panels.PingIsEchoed | avr/src/msg_processor.h:155-159 | message 0x01 is answered by message 0x02 with the same parameters |
| Panels.ReadIsAnswered | avr/src/avr_impl.cpp:157-179 | message 0x11 is answered by a write to the same register with all its bits, or by one to register 0x9F |
| Panels.ReadInPoll | avr/src/msg_processor.h:127-144 | in a poll that answer comes first and has the inputs of the handler's time |
| Panels.SubscribeIsAnswered | avr/src/avr_impl.cpp:243-269 | message 0x51 on a register of the board is answered in kind with the register's bits, and with 1 if it cancels |
| Panels.SubscribeElsewhere | avr/src/avr_impl.cpp:263-267 | on any other register it is answered by a cancellation on register 0x9F |
| Panels.OthersAreSilent | avr/src/msg_processor.h:161-227 | no other message is answered, and none but 0x21 and 0x31 changes anything |
| Panels.ReportsInOrder | avr/src/avr_impl.cpp:124-147 | a poll reports the inputs first and then the relays, each if subscribed to and changed, with its present bits |
| Panels.ReadCopiesRelays | avr/src/avr_impl.cpp:157-196 | the answer to reading the relays is a write that, handled by any board, sets its relays to the same |
| Panels.ReportsAreCurrent | avr/src/avr_impl.cpp:124-147 | after every poll of every run the last report on a subscribed register is its value, and there is a standing report exactly while one is wanted |
| Panels.PollTraffic | avr/src/avr_impl.cpp:124-269 | a poll sends at most one message for the message taken and one for a changed input, never a ping |
| Panels.TrafficIsBounded | avr/src/msg_processor.h:127-227 | in every run messages sent are at most messages handled plus polls with a changed input |
| Devices.Device.constructor | avr/src/avr_impl.cpp:107-119 | at power-on all relays are off and nothing is subscribed |
| Devices.Device.RxInterrupt | avr/src/serial.cpp:82-89 | a byte is stored unless its parity failed; it overwrites exactly when the ring was full |
| Devices.Device.Read | avr/src/serial.cpp:225-238 | takes bytes up to the first accepted window, whatever the interrupt stores meanwhile, and stops short of it only with the ring empty; every byte stored meanwhile is accounted for |
| Devices.Device.Write | avr/src/serial.cpp:241-258 | transmits the ring exactly if it holds an accepted window |
| Devices.Device.DispatchMessage | avr/src/msg_processor.h:120-124 | the frame takes the ring over, always goes out, and becomes the next event of the history |
| Devices.Device.OnReadRegister | avr/src/avr_impl.cpp:157-179 | answers with the register asked for, or with the error register |
| Devices.Device.OnWriteRegister | avr/src/avr_impl.cpp:182-196 | the register becomes the masked update; other addresses change nothing |
| Devices.Device.OnWriteRegisterBit | avr/src/avr_impl.cpp:199-220 | the register becomes that of the bit message |
| Devices.Device.OnPulseRegisterBit | avr/src/avr_impl.cpp:223-240 | the relays at each millisecond of the pulse go on record, and the port ends as it began; other addresses do nothing |
| Devices.Device.OnSubscribeRegister | avr/src/avr_impl.cpp:243-269 | subscription, remembered value and reply are those of the panel function |
| Devices.Device.OnPoll | avr/src/avr_impl.cpp:124-147 | reports exactly the changed subscribed registers, inputs first |
| Devices.Device.ProcessMessage | avr/src/msg_processor.h:151-227 | every message type has its effect on panel, history and pulses, and each pin of PORTA ends low if and only if the message orders its relay on, or orders nothing and it was low |
| Devices.Device.Poll | avr/src/msg_processor.h:127-144 | one turn is one step of the panel's run; messages handled are those delivered, and bytes stored are taken in or waiting |
| Devices.DeviceInvariant | avr/src/msg_processor.h:53-228 | at any moment between polls each relay is driven if and only if the last order for it delivered said so, the pulses held are those of the messages delivered in order, and reports, traffic bound and transmitted bytes follow from what was delivered |
| Devices.CommandsAreObeyed | avr/src/msg_processor.h:127-227 | a device that lost no byte has handled exactly those of the host's messages that none of its own sendings fell into, each relay is driven if and only if the last of these with an order for it said so, and their pulses were held; it has handled all if and only if it sent between frames only |
| MainLoop.RunLoop | avr/src/avr_main.cpp:81-86 | over any batches of whole packets, each batch arriving between two polls, bytes are overwritten if and only if more than eight messages ever wait; otherwise each poll handles the next one |
| BusyLine.Run | avr/src/avr_main.cpp:81-86 | over any run of single bytes and polls, packets cut anywhere and bytes arriving inside polls too: while at most eight packets, the one in progress counted, are unread no byte is lost, each poll takes in a complete frame if one waits, and the messages handled are those of the frames taken in that no sending fell into |
| BusyLine.NinthCanOverrun | avr/src/serial.cpp:79-89 | the limit is tight: one frame read, its newline, eight whole packets and eight bytes of a ninth overrun the ring |
| BusyLine.PaceIsEnough | avr/src/serial.cpp:79-89 | from at most seven unread packets on, at most 15 bytes per poll, wherever in the packets they fall, never make more than eight unread |
| MainLoop.Backlog | avr/src/serial.cpp:79-89 | the receive ring holds the unhandled packets behind at most one left-over newline |
| MainLoop.PollKeepsPace | avr/src/msg_processor.h:127-144 | a poll takes exactly the next message when one waits, also with a newline left over in front |
| Hosts.Host.Read | hlk-rm04/files/package/utils/a140808/src/serial.c:97-124 | takes in exactly the bytes up to the first accepted window, no data, or a failed read, and says which |
| Hosts.AllTakenIn | hlk-rm04/files/package/utils/a140808/src/serial.c:97-124 | with no message found and no failure every byte available has been taken in |
| Hosts.Host.Write | hlk-rm04/files/package/utils/a140808/src/serial.c:127-156 | of an accepted window and a newline, exactly the part before the first failed write gets out; a lost newline is not an error |
| Hosts.Host.DispatchMessage | hlk-rm04/files/package/utils/a140808/src/msg_proc.c:89-93 | the packet, or the part of it before the first failed write, gets out, and the frame takes the ring over |
| Hosts.Host.ProcessMessage | hlk-rm04/files/package/utils/a140808/src/msg_proc.c:114-194 | message 0x01 is answered by 0x02 with the same parameters, every other message by nothing |
| Hosts.Host.Command | hlk-rm04/files/package/utils/a140808/src/msg_proc.c:45-93 | a message the host sends of its own accord: its packet gets out up to the first failed write, and all messages sent stay the commands merged with the replies to pings |
| Hosts.Host.Poll | hlk-rm04/files/package/utils/a140808/src/msg_proc.c:96-194 | at most one message is handled, and only a ping draws a reply |
| Hosts.HostDrivesDevice | hlk-rm04/files/package/utils/a140808/src/msg_proc.c:89-111 | whole link: of what a host with no failed write has sent, a device that lost no byte has handled exactly the messages none of its own sendings fell into, and its relays and pulses are theirs; all of them if and only if it sent between frames only |
| ReturnPath.EveryFrameArrives | hlk-rm04/files/package/utils/a140808/src/serial.c:97-124 | of every list of messages sent as frames back to back, without separators, exactly those no sending fell into arrive, in order and unchanged after any noise; all of them if and only if the receiver sent at the seams only |
| ReturnPath.DeviceReachesHost | avr/src/serial.cpp:241-258 | a host that has taken in all a device transmitted has handled exactly the device's messages it did not cut by sending; all of them if and only if it sent at the seams only |
| ReturnPath.HostKnowsTheRelays | avr/src/avr_impl.cpp:124-147 | if only the device's last report on the relays was not cut, the host's last standing report is how they are, exactly while it wants one |
| ReturnPath.ExchangeEnds | hlk-rm04/files/package/utils/a140808/src/msg_proc.c:89-194 | a host and a device joined both ways, bytes under way included: the host has sent its commands and nothing else, and the device at most one message per command and per poll with a changed input |
| Base32.CharsRoundTrip | hlk-rm04/tools/serialnum/b32coder.c:80-101 | decoding a letter of the alphabet gives its digit |
| Base32.CanonicalIsReencoded | hlk-rm04/tools/serialnum/b32coder.c:80-101 | the valid characters are exactly letters and digits, and each stands for its canonical letter: case folded, o as 0, i and l as 1, 5 as s |
| Base32.AlphabetIsOrdered | hlk-rm04/tools/serialnum/b32coder.c:34 | the alphabet is 0, the letters but i, l and o in order, then the digits but 0 and 5 in order |
| Base32.EncodedTextSpells | hlk-rm04/tools/serialnum/b32coder.c:41-75 | an encoding has ceil(8n/5) characters spelling, most significant first, the little-endian number of the bytes |
| Base32.SpellingIsUnique | hlk-rm04/tools/serialnum/b32coder.c:41-75 | any text of that length spelling that number is the encoding, up to aliases |
| Base32.LengthsMatch | hlk-rm04/tools/serialnum/b32coder.c:41-43 | floor(5 ceil(8n/5) / 8) is n |
| Base32.DecodeOfEncode | hlk-rm04/tools/serialnum/b32coder.c:32-146 | decoding an encoding gives back every byte string of every length |
| Base32.DecodedIsRemainder | hlk-rm04/tools/serialnum/b32coder.c:110-145 | decoding gives the number spelled, modulo 256 to the number of whole bytes |
| Base32.EncodeOfDecode | hlk-rm04/tools/serialnum/b32coder.c:32-146 | re-encoding gives the canonical text if and only if the length is one encodings have and the dropped bits are zero |
| Base32Coder.NextDigit | hlk-rm04/tools/serialnum/b32coder.c:56-73 | one turn of the loop yields the digit due and keeps `sft == 8 * (i - 1) - 5 * k` with the unread number ahead |
| Base32Coder.Encode | hlk-rm04/tools/serialnum/b32coder.c:32-76 | the size needed, -1 with a zeroed buffer, or the encoding followed by zeros |
| Base32Coder.NextByte | hlk-rm04/tools/serialnum/b32coder.c:130-142 | one turn of the loop yields the byte due and keeps `sft == 5 * (k - 1) - 8 * o`, for any characters |
| Base32Coder.RegroupedIsDecoded | hlk-rm04/tools/serialnum/b32coder.c:128-143 | for valid characters the bits the loop gathers are the low bytes of the number spelled |
| Base32Coder.Decode | hlk-rm04/tools/serialnum/b32coder.c:104-146 | the size needed, -1 with a zeroed buffer, or the decoded bytes followed by zeros; characters never make it fail |
| DateTime.StampIsNumeral | hlk-rm04/tools/serialnum/b32coder.c:160-187 | a stamp is the base-32 numeral of the unsigned time without leading zeros |
| DateTime.StampLength | hlk-rm04/tools/serialnum/serialnum.c:64-101 | it has n characters if and only if 32^(n-1) <= t < 32^n; nine mean 2^40 <= t < 2^45 |
| DateTime.DocumentedStamp | hlk-rm04/tools/serialnum/b32coder.c:148-158 | the documented example: 0x013d3db7955c is stamped agw84rek6 |
| DateTime.EncodeDatetime | hlk-rm04/tools/serialnum/b32coder.c:160-187 | result and whole buffer for every size, the end left behind by the move included |
| DateTime.DecodeDatetime | hlk-rm04/tools/serialnum/b32coder.c:203-226 | reads up to the terminator or the given length; -2 above twelve characters |
| DateTime.ReadOfStamp | hlk-rm04/tools/serialnum/b32coder.c:160-226 | every time reads back modulo 2^56 below 2^60 and as -2 from there on, negative times included |
| DateTime.StampRoundTrip | hlk-rm04/tools/serialnum/b32coder.c:160-226 | it reads back as itself if and only if 0 <= t < 2^56 or t is -2 |
| DateTime.StampOfRead | hlk-rm04/tools/serialnum/b32coder.c:160-226 | valid text of up to eleven characters, printed again, is itself in canonical letters without leading zeros |
| DateTime.WriteThenRead | hlk-rm04/tools/serialnum/serialnum.c:64-101 | the same round trip through a buffer with room for the terminator |
| OutgoingBytes.Outgoing.Send | hlk-rm04/files/package/utils/a140808/src/websock.c:144-176 | the first 64 bytes of a message join those waiting, of which the ring keeps the newest that fit |
| OutgoingBytes.Outgoing.WriteData | hlk-rm04/files/package/utils/a140808/src/websock.c:248-280 | as many waiting bytes as the library took, from the front, join those accepted and the rest goes on waiting; an error loses them all |
| OutgoingBytes.StepConserves | hlk-rm04/files/package/utils/a140808/src/websock.c:144-280 | a step keeps accepted plus waiting equal to queued if and only if its guard holds: the message fits, the write does not fail, or nothing waits |
| OutgoingBytes.BytesAreConserved | hlk-rm04/files/package/utils/a140808/src/websock.c:144-280 | over every run accepted bytes followed by waiting bytes are the queued bytes in order if and only if every step's guard held |
| OutgoingBytes.AllGoesOut | hlk-rm04/files/package/utils/a140808/src/websock.c:248-280 | if nothing was thrown away and after the last message queued the library once took as much as waited, all that was ever queued has been accepted |
| Connections.AttemptsAreSpaced | hlk-rm04/files/package/utils/a140808/src/websock.c:193-206 | over every run of callbacks, calls and polls, reconnect attempts are at least 5 seconds apart, in 32-bit timer arithmetic |
| Connections.HeartbeatsAreSpaced | hlk-rm04/files/package/utils/a140808/src/websock.c:208-222 | over every run, heartbeats come only when open, at least 300 seconds after the last one and after connecting |
| Connections.OpenSinceEstablished | hlk-rm04/files/package/utils/a140808/src/websock.c:180-384 | in every run the connection is open if and only if it has been established and no step since took it out of that state |
| Connections.HeartbeatFallsDue | hlk-rm04/files/package/utils/a140808/src/websock.c:208-222 | in an open connection a heartbeat is due if and only if 300 seconds have passed since the last one or since connecting, and that time does not read as zero |
| Connections.ArmedBy | hlk-rm04/files/package/utils/a140808/src/websock.c:193-384 | a set reconnect timer was set by a refusal or a closing callback with no attempt since |
| Connections.ClosedIsRetried | hlk-rm04/files/package/utils/a140808/src/websock.c:125-384 | once a context exists and until a close or teardown, a closed connection's timer holds the time a step closed it, and a poll retries it exactly when that reads as nonzero and 5 seconds have passed in 32-bit arithmetic |
| Connections.ElapsedIsReal | hlk-rm04/files/package/utils/a140808/src/websock.c:198-199 | unsigned 32-bit subtraction of a past timer never exceeds the time really passed |
| Connections.DownUntilClosedAgain | hlk-rm04/files/package/utils/a140808/src/websock.c:193-384 | after a teardown and any callbacks a poll retries if and only if one of them closed the connection at a time not reading as zero, none after it established it or tore it down, and five seconds have passed; it never retries if and only if there is no such callback |
| Connections.TeardownIsNotFinal | hlk-rm04/files/package/utils/a140808/src/websock.c:352-373 | a socket destroyed after the teardown makes a later poll connect afresh |
| Connections.ClosedOnRequest | hlk-rm04/files/package/utils/a140808/src/websock.c:180-321 | after a close on request the first closing callback counts: reported closed, the reconnect timer stays as it stood, and no poll retries if and only if it was not running; an error or a destroyed socket sets it |
| Connections.StaleTimer | hlk-rm04/files/package/utils/a140808/src/websock.c:283-373 | a run in which the timer is still running when a close is asked for, and the closed connection is retried |
| Connections.QuietUntilArmed | hlk-rm04/files/package/utils/a140808/src/websock.c:193-206 | with the timer not running no poll retries until a step sets it |
| WebSock.WebSocket.Connect | hlk-rm04/files/package/utils/a140808/src/websock.c:59-139 | context, callbacks from inside the call, and refusal, in that order, as steps of the run; -1 exactly without a context or when refused |
| WebSock.WebSocket.Close | hlk-rm04/files/package/utils/a140808/src/websock.c:180-189 | with a context the connection is closing until a callback settles it, its timer untouched, and every callback is heard; without one nothing changes |
| WebSock.WebSocket.OnEvent | hlk-rm04/files/package/utils/a140808/src/websock.c:283-384 | each callback is one step of the connection's run; a writeable one hands each queue's waiting bytes over as the library takes them, a teardown drops them, and no other touches them |
| WebSock.WebSocket.Poll | hlk-rm04/files/package/utils/a140808/src/websock.c:193-240 | retry, heartbeat and service, each exactly when due, as steps of all three runs |
| WebSock.WebSocket.PulseHeartbeat | hlk-rm04/files/package/utils/a140808/src/websock.c:208-222 | when a heartbeat is due the stamp joins the ping queue and the timer restarts; otherwise neither changes |
| WebSock.PollWhenOpen | hlk-rm04/files/package/utils/a140808/src/websock.c:193-240 | in an open connection a poll hears every callback of the service and queues a heartbeat exactly when 300 seconds have passed |
| WebSock.PollWhenRetrying | hlk-rm04/files/package/utils/a140808/src/websock.c:193-206 | five seconds after the timer was set a poll of a closed connection tries again, callbacks and refusal included |
| WebSock.PollWhenDown | hlk-rm04/files/package/utils/a140808/src/websock.c:229-240 | without a context, and with nothing to retry, a poll hears nothing |
| WebSock.TextGoesOut | hlk-rm04/files/package/utils/a140808/src/websock.c:248-350 | if nothing was thrown away and some writeable callback of the service took as much as then waited, all text ever queued has been accepted |
| WebSock.ClientInvariant | hlk-rm04/files/package/utils/a140808/src/websock.c:144-384 | at any moment of any run both queues conserve their bytes exactly as their guards held, and a closed connection meant to stay up has its timer set by the step that closed it |

## Left out

- Hardware set-up: USART, timers, fuses, port directions, the one-shot timer and tick counter have no algorithm to prove.
- Time in the device: the pause between polls is not modelled, nor is how fast the transmitter drains.
- Interrupts inside a ring operation: the code does not mask them, so the model's atomic store of a byte between operations is an assumption.
- RS-485 direction control around sending, compiled out by default.
- The typed dispatch wrappers of both ends, which fill in message types and refuse bit numbers above 7.
- The serial device's opening, baud rates and terminal settings, daemon, signals, pid and configuration files.
- JSON commands and the addresses they ask for, which only choose which messages to dispatch.
- The inside of libwebsockets and TLS: their results and callbacks are free arguments; a callback's own sends are separate operations, and the socket handle, used only to ask for a write callback, is not kept, so nothing is said about when waiting bytes are offered.
- A context kept after a close without a teardown callback, and what the library makes of it, beyond the client's own fields.
- The command line of the serial-number tool, its clock and its formatted output.
- Negative lengths passed to the coder, and a null buffer of nonzero size, which the code does not guard against.
