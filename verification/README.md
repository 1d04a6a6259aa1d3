# distingEX, modelled and verified in Dafny

distingEX is the firmware of the Expert Sleepers disting EX Eurorack module. This project models its stateful
parts and proves what they are for:

- **MIDI** (`src/midi.c`): the byte-driven input parser with running status, sysex capture and real-time
  bypass; the output ring with its enqueues of one, two and three bytes; and the round trip of a sysex message from
  `sendBytes` through the ring into a parser.
- **Receive rings** (`src/app.c`, `src/i2c.c`): the lock-free queues between the interrupts and the foreground,
  as steps that interleave in any way.
- **I2C commands** (`src/i2c.c`): the nine-state token parser and the MIDI messages it passes on.
- **Calibration** (`src/calibrate.c`, with its use in `src/algorithm.cc`): validation and repair, the
  fixed-point coefficients, and the conversions between codes and volts.
- **User interface and saving** (`src/algorithm.cc`, `src/nvm.c`): press classification, the mirrored parameters,
  and the save to flash during which the user interface keeps running.
- **Select Bus** (`src/recall.c`), **front panel** (`src/app.c`) and the **cache line loops**
  (`sys_devcon_cache_pic32mz.S`).

## How it is laid out

Each component comes as a value-level model and, beside it, a class or method in the source's own form. The model
says what one byte, token, tick or operation does to the state; the class has the source's static variables as
fields and its functions as methods, and every method is proved to do what the model says. The theorems
are about runs of the model.

| files | what they hold |
|---|---|
| `Bytes.dfy`, `Arithmetic.dfy`, `Sequences.dfy` | bytes and nibbles; facts about products, quotients and sequences |
| `MidiParser.dfy`, `MidiIn.dfy` | the MIDI parser and its class; real-time bytes and the clock |
| `MidiSysex.dfy`, `MidiEncoding.dfy`, `MidiReference.dfy` | sysex dispatch over arbitrary streams; decoding inverts encoding; a receiver of MIDI 1.0, and exactly where the parser departs from it |
| `OutputQueue.dfy`, `MidiOut.dfy`, `SysexRoundTrip.dfy` | the queue the output ring implements, the ring, the round trip |
| `RxProtocol.dfy` | the receive rings |
| `I2CParser.dfy`, `I2CIn.dfy`, `RelayDecode.dfy` | the I2C parser, its class, and what a MIDI receiver makes of what it passes on |
| `CalibrationModel.dfy`, `Calibration.dfy` | the arithmetic and the in-place computation |
| `Buttons.dfy`, `UiModel.dfy`, `UiEffects.dfy`, `Persistence.dfy`, `Algorithm.dfy` | presses, a tick of the user interface, what each button and knob brings about, saving and rebooting, the class |
| `RecallParser.dfy`, `RecallIn.dfy`, `BusReference.dfy`, `SharedClock.dfy` | the Select Bus parser and its class; a receiver for the bus, and exactly where the parser departs from it; the MIDI clock that both parsers move |
| `FrontPanel.dfy`, `CacheLoops.dfy` | encoders and pots, the cache loops |

`dafny verify dfyconfig.toml` checks everything.

## What the proofs found

- **The rings start with a read index of -1**, where the test for a full ring cannot succeed. For the output ring
  `OutputQueue.RunConserves` gives the exact boundary. For the receive rings, where interrupt and consumer interleave,
  two steps lose tokens, both before the first read and with every slot filled: publishing the last slot to a consumer
  that has yet to look, and admitting a further token. Every interleaving without them is safe
  (`RxProtocol.EveryInterleavingIsSafe`), and from every such step there is a course that loses tokens
  (`RxProtocol.EveryLosingStepCanLose`). `SysexRoundTrip.RoundTrip` shows the cost: the first message after power-up
  arrives only if it has at most 735 bytes.
- **The sysex round trip also fails, and only fails, for codes of 0x80 and up and for messages over 4096 bytes.**
- **A reboot restores the settings exactly unless the two functions differ in a mode that shares one**
  (`Persistence.RebootEquivalence`). Three presses of the buttons on a new module bring that about
  (`Persistence.RebootForgets`).
- **`Br` overflows 32 bits exactly when an input span is 3 to 12290 codes** (`CalibrationModel.BrFits`), and **the
  fixed-point scale disagrees with the floating-point one exactly when the span is 1 or 2 codes**, where only the
  first uses its default (`CalibrationModel.FixedPointAccuracy`).
- **A three-byte I2C command is carried out again for every further byte of its transaction**, since `kWantByte3of3`
  does not return to idle (`I2CParser.RepeatsForEachByte`).
- **The MIDI parser departs from the MIDI 1.0 Detailed Specification (v4.2) in three places, and only there**: a
  status byte that arrives inside a channel message is stored as its data where it should begin a new message; a data
  byte behind a finished sysex opens a capture, reported if it is 7E data* F7; and a sysex over 4096 bytes is reported
  cut, without its F7. `MidiReference.ParserConforms` proves that over every byte stream the parser reports what a
  receiver of that specification reports if and only if none of them happens; `MidiReference.InterruptedNote`,
  `MidiReference.BogusTail` and `MidiReference.LongSysexCut` show them happening. A sysex broken off by another status
  byte is dropped by both, and the tests that tell the two kinds of sysex are the firmware's own.
- **On the Select Bus, a data byte that follows a system message reaches the handler as that message again.** A legal
  stream has each message routed once if and only if no system message in it has data bytes
  (`RecallParser.StreamRoutedOnce`); a song position from power-up is reported three times
  (`RecallParser.SongPositionRepeats`). Behind a clock, each data byte counts as another clock
  (`SharedClock.ClocksRepeat`), and behind F4 n each one below 0x40 saves another slot
  (`BusReference.SecondSlotSaved`).
- **The Select Bus parser has no running status across real-time bytes** (`BusReference.RunningStatusLost`) **and does
  not ignore a message that is broken off.** `BusReference.BusConforms` gives all departures from the specification
  over arbitrary byte streams, exactly.

## Model

| member | source | states |
|---|---|---|
| MidiInput.MidiIn.ProcessStatus | src/midi.c:60-101 | the mutually recursive status handler ends, and latches the status, chooses the state and re-enters the parser as the model does |
| MidiInput.MidiIn.ProcessMIDI | src/midi.c:323-377 | one byte changes state, buffers, log and clock as `Step` says; the capture buffer never holds more than 4096 bytes |
| MidiInput.MidiIn.ReceiveAll | src/app.c:787-798 | the receive loop appends exactly the events of the whole stream to the log |
| MidiInput.MidiIn.DefaultProcessRealTime | src/midi.c:131-161 | start, and counting clocks within 384 |
| MidiInput.MidiIn.MidiMessageHandler | src/midi.c:163-185 | each call is logged once; only real time moves the clock |
| MidiParser.RealTimeTransparent | src/midi.c:323-329 | real-time bytes may stand anywhere: each reports at its place and everything else is as if they were not there |
| MidiParser.PowerUp | src/midi.c:49-56 | from power-up data bytes are ignored |
| MidiParser.ClockAfterStart | src/midi.c:128-161 | for every stream on the MIDI input, while nothing else moves it, the clock counter is (clocks since the last start - 1) mod 384 |
| SharedClock.ClockAfterStart | src/recall.c:84-86 | for every interleaving of the MIDI input and the Select Bus, which move the same counter, it is (clocks heard on both since the last start heard on either - 1) mod 384 |
| SharedClock.ClockFollowsSent | src/recall.c:52-94 | in every interleaving of the two inputs the counter is throughout what the real-time bytes as sent make it, if and only if no clock, and no start while none is pending, arrives inside another message on the bus or is repeated there by a data byte |
| SharedClock.ClocksRepeat | src/recall.c:154-163 | a clock on the Select Bus between messages, with data bytes behind it, counts once and once more for each of them |
| MidiSysex.DispatchAt | src/midi.c:352-374 | at a byte, from any state, a handler is called if and only if a segment F0 data* F7 that belongs to it ends there whose F0 was taken for a start, or the capture under way at the beginning does, with that segment cut at 4096 bytes: the native handler for the manufacturer prefix, the non-real-time handler for 7E behind the F0, and besides for 7E data* F7 behind a finished sysex |
| MidiSysex.DispatchExact | src/midi.c:323-377 | over any byte stream and from any state the calls of either handler are those deliveries, once each, in order, real-time bytes removed |
| MidiSysex.SegmentsWellFormed | src/midi.c:352-374 | a buffer delivered to the native handler has 5 to 4096 bytes and no status byte inside |
| MidiEncoding.DecodeInvertsEncode | src/midi.c:60-101 | for every list of channel, system common and sysex messages with any legal running status, the parser reports exactly those messages, each with its last byte, a sysex by its first bytes to the native or the non-real-time handler |
| MidiEncoding.DecodeWithRealTime | src/midi.c:323-377 | the same with real-time bytes anywhere, which report at their places |
| MidiReference.ParserConforms | src/midi.c:323-377 | over every byte stream, from any state in step, the parser reports exactly what a reference receiver of MIDI 1.0 reports if and only if no status byte arrives inside a channel message (as its last data byte, or as its first with another byte behind it), no 7E data* F7 follows a finished sysex, and no sysex that is reported is over 4096 bytes; captures under way at the start included |
| MidiReference.TraceConforms | src/midi.c:323-377 | without real-time bytes they agree byte by byte, from any two states that are in step, under the same condition on the states passed through |
| MidiReference.InterruptedNote | src/midi.c:338-350 | from power-up 90 40 80 is reported as a note on of velocity 0x80, where the reference reports nothing |
| MidiReference.BogusTail | src/midi.c:92-99 | from power-up F0 F7 7E F7 is reported as a non-real-time sysex 7E 7E F7, where the reference reports nothing |
| MidiReference.LongSysexCut | src/midi.c:352-355 | any F0 data* F7 of the module's own that is over 4096 bytes is reported otherwise than the reference reports it |
| OutputQueue.ForceAfterTake | src/midi.c:400-410 | a refused blocking enqueue is one step nearer after transmitting a byte, so a message of n bytes needs at most n |
| OutputQueue.RunConserves | src/midi.c:386-496 | over every run of enqueues and transmissions, sent and queued bytes are the accepted ones in order if and only if nothing was offered past 735 bytes before the first byte was taken; each such offer loses 736 bytes |
| OutputQueue.StartedIsSafe | src/midi.c:388-390 | once a byte has been taken no run loses anything |
| OutputQueue.AcceptsExactly | src/midi.c:386-398 | after any run that lost nothing, a message is accepted if and only if, itself included, at most 735 bytes are then accepted and not transmitted, or nothing has been taken yet |
| OutputQueue.ForceExactly | src/midi.c:400-410 | a blocking enqueue transmits exactly the bytes in excess of 735, oldest first, and ends with the message in the queue |
| OutputQueue.Drains | src/midi.c:476-496 | each call of the handler with the transmitter free sends the oldest byte |
| OutputQueue.SendAllConserves | src/midi.c:400-410 | a blocking send loses nothing if a byte has been taken before or all of it fits |
| OutputQueue.SendAllOverrun | src/midi.c:400-410 | before a byte has been taken a send transmits nothing and keeps exactly the last bytes, as many as are left after all full rounds of 736 |
| MidiOutput.MidiOut.QueueMIDI1 | src/midi.c:386-398 | appends the byte or refuses it; a non-empty queue is marked pending |
| MidiOutput.MidiOut.StoreWord | src/midi.c:412-426 | slots written before an abort leave the queue as it was; otherwise they hold the message behind the contents |
| MidiOutput.MidiOut.QueueMIDI3 | src/midi.c:412-430 | three bytes, highest first, all or nothing |
| MidiOutput.MidiOut.QueueMIDI2 | src/midi.c:444-462 | two bytes, highest first, all or nothing |
| MidiOutput.MessageDigits | src/midi.c:412-462 | the bytes queued for a message word are its digits in base 256, highest first |
| MidiOutput.MidiOut.BlockingQueueMIDI1 | src/midi.c:400-410 | ends, having transmitted exactly the excess over the capacity |
| MidiOutput.MidiOut.BlockingQueueMIDI2 | src/midi.c:464-474 | the same for two bytes |
| MidiOutput.MidiOut.BlockingQueueMIDI3 | src/midi.c:432-442 | the same for three bytes |
| MidiOutput.MidiOut.HandleMIDIOut | src/midi.c:476-496 | transmits the oldest byte unless busy or empty, and clears the pending flag only when empty |
| MidiOutput.MidiOut.FlushMIDIOut | src/midi.c:498-502 | whatever the busy flag reads at first, everything queued is transmitted in order |
| MidiOutput.MidiOut.SendBytes | src/midi.c:187-202 | queues the header, the payload masked to seven bits and F7 |
| SysexRoundTrip.MaskedBits | src/midi.c:196-199 | each payload byte is sent as its low seven bits, so data bytes are sent as they are |
| SysexRoundTrip.FrameShape | src/midi.c:187-202 | a frame is F0 00 21 27 5D 00, the code, the masked payload and F7 |
| SysexRoundTrip.TransmittedExact | src/midi.c:386-410 | a frame behind whatever is queued goes out whole if and only if the ring has been read from before or all of it fits; otherwise exactly its last bytes do |
| SysexRoundTrip.RoundTrip | src/midi.c:187-202 | a message sent behind whatever is queued and received, real-time bytes mixed in, reaches the native handler exactly once, behind the calls the queued bytes bring about, if and only if its code is a data byte, it fits 4096 bytes, the ring was read before or all of it fits 735, and the queued bytes do not leave the receiver inside a channel message |
| SysexRoundTrip.RoundTripCommand | src/midi.c:209-228 | what arrives last passes the header tests and carries the code and the low seven bits of each payload byte, so a payload of data bytes arrives as it was sent |
| SysexRoundTrip.HeaderTests | src/midi.c:209-228 | a message with the prefix is interpreted exactly if it is for hardware 5D and for id 0 or 7F, and has a byte behind its code |
| RxProtocol.ReceiveKeeps | src/app.c:563-571 | the full test admits a token exactly before the first read or while fewer than size - 1 are unclaimed |
| RxProtocol.LookKeeps | src/app.c:790-792 | the empty test finds a token exactly when one has been published |
| RxProtocol.EveryInterleavingIsSafe | src/app.c:759-799 | in every interleaving of interrupt and consumer steps that takes neither of the two losing steps, tokens are delivered once, in order, unmodified; the slot to be read is intact though its index is already published; an empty ring means all were delivered |
| RxProtocol.LosingStepLoses | src/app.c:57-62 | from any intact state a losing step, before the first read and with every slot filled, leads to a consumer that finds the ring empty with tokens it was never given |
| RxProtocol.EveryLosingStepCanLose | src/app.c:57-62 | so the condition is exact: every interleaving from power-up with a losing step has, from its first one on, a course that is not safe |
| RxProtocol.PowerUpBoundary | src/app.c:57-62 | tokens received before the first read come out whole if and only if they are fewer than the slots; otherwise exactly the last ones of the current round |
| RxProtocol.ReceivedInSteps | src/i2c.c:561-569 | the interrupt handler run to completion is its three steps |
| RxProtocol.RxQueue.InterruptHandler | src/app.c:523-531 | stores and publishes the token, or drops it when the ring is full |
| RxProtocol.RxQueue.Flush | src/app.c:774-785 | takes everything pending, in order, and leaves nothing |
| I2CParser.TablesAgree | src/i2c.c:581-616 | the length table of the relay and the routing table of the parser both agree with the message lengths of the MIDI specification |
| I2CParser.HandlersAgree | src/i2c.c:637-761 | each command is sent to the one handler that knows it, and 0x11 and 0x40 to 0x67 are all the commands |
| I2CParser.RepeatsForEachByte | src/i2c.c:905-908 | from the third byte on, every byte carries a three-byte command out again |
| I2CParser.TransactionExact | src/i2c.c:763-912 | from any state and any stale buffer, the bytes after a negative token have exactly the effects of a reference parse of that transaction |
| I2CParser.HistoryIndependence | src/i2c.c:767-771 | after any tokens whatever, a list of transactions has the effects of each, in order |
| I2CParser.EveryStreamSplits | src/i2c.c:528-570 | every token stream is a head without negative tokens and then transactions |
| I2CParser.RelaysOwnBytes | src/i2c.c:852-908 | every message passed on is as long as its status byte demands and consists of bytes of its own transaction |
| I2CParser.RelayPorts | src/i2c.c:618-624 | messages of command 4F are passed on to the MIDI output and those of 50 to the Select Bus |
| I2CInput.WhereTransactionsGo | src/i2c.c:618-634 | a transaction of any other command sends nothing to the MIDI output, or to the Select Bus |
| I2CInput.ReplyToTransaction | src/i2c.c:707-757 | after a transaction an I2C master reads 0 0 for commands 43, 61 and 48 to 4A, 1 for 45, and what it would have read before for all others |
| I2CInput.I2CIn.ProcessI2CIn | src/i2c.c:763-912 | one token changes state, buffer, log, response, ignore count and both outputs as the model says |
| I2CInput.I2CIn.ProcessI2CMIDICommand | src/i2c.c:581-635 | the message goes, byte by byte, to the MIDI queue for command 4F, which leaves the Select Bus alone, or for 50 to the Select Bus, which leaves the queue alone and counts its bytes as to be ignored, modulo 256 |
| I2CInput.I2CIn.ReceiveAll | src/app.c:761-772 | a stream of tokens emits exactly its log |
| RelayDecode.MessageReceived | src/i2c.c:581-635 | a message passed on, whatever its data bytes are, is received between messages as that message if and only if: of a channel message no data byte is a real-time byte; of a system common message each is a data byte or F1 to F7, or they are F0 and one of F1 to F7 |
| RelayDecode.RelaysReceived | src/i2c.c:618-623 | a MIDI parser reports each of the messages passed on to the MIDI output before the next begins, and nothing else, if and only if they all are of that kind |
| RelayDecode.CleanTransactions | src/i2c.c:852-895 | so everything transactions pass on is received, in order, if the sender's data bytes are data bytes |
| CalibrationModel.RepairIn | src/calibrate.c:103-117 | the result is in range, in-range fields are unchanged, and nothing changes exactly if all is in range |
| CalibrationModel.RepairOut | src/calibrate.c:118-132 | the same for outputs |
| CalibrationModel.RepairsTo | src/calibrate.c:103-131 | the limits of each field, and its default if it is outside them |
| CalibrationModel.BrFits | src/calibrate.c:178-183 | Br is exact in 32 bits if and only if the span is below 3 or at least 12291 codes |
| CalibrationModel.BriExact | src/calibrate.c:176-182 | for any valid data the codes per volt are a third of the span, or 0xCCCCC for less than three codes, and what is stored as Br is 2^43 divided by them, rounded down |
| CalibrationModel.Guards | src/calibrate.c:171-196 | what stands in for a divisor of zero: 0xCCCCC codes per volt, an output span of 0x399999, and a span of 2^23 * 3 / 10 over the reals |
| CalibrationModel.NarrowSpan | src/calibrate.c:178-190 | on the valid span of three codes from 0x100000, Br is stored as 0 where 2^43 was computed, and D as 0 where -2^39 was |
| CalibrationModel.DExact | src/calibrate.c:190 | for any valid data D is exact if and only if the 64-bit product is below 2^55 in size; with a span that is not 3 to 12290 codes it is, and D is within 2^28 |
| CalibrationModel.ErExact | src/calibrate.c:191-197 | for any valid data the divisor is at least 0x100000, Er lies in 0 to 0xC000000 and is the quotient rounded down |
| CalibrationModel.FixedPointAccuracy | src/calibrate.c:192-204 | Erf - Er/32 lies between 0 and 5 if and only if the span is not 1 or 2 codes |
| CalibrationModel.ScalesDisagree | src/calibrate.c:172-204 | on the valid span of one code from 0x100000, the fixed-point scale is 838860 and the floating-point one a third |
| CalibrationModel.OffsetInRange | src/calibrate.c:199-202 | the offset code lies within 2^23, so its conversion to int is defined |
| CalibrationModel.TruncTowardsZero | src/calibrate.c:202 | conversion to int truncates towards zero |
| CalibrationModel.CDivTruncates | src/calibrate.c:178-197 | integer division leaves a remainder smaller than the divisor with the sign of the dividend |
| CalibrationModel.Clamp | src/app.h:124-128 | the result is a 24-bit code, unchanged exactly if it was one, and otherwise the bound it is beyond |
| CalibrationModel.OutputError | src/algorithm.cc:177-184 | the two truncations of the output formula cost less than two output codes |
| CalibrationModel.InputError | src/algorithm.cc:94-99 | the input formula inverts the calibration line up to the error of the converter |
| CalibrationModel.OutputCalibrationPoints | src/calibrate.c:67-68 | for any valid data the computed output line gives the code measured for output 0 and the one for output 0x400000 |
| CalibrationModel.MeasuredLines | src/calibrate.c:58-80 | on any linear hardware on which the data was measured, the computed coefficients are those of the hardware |
| CalibrationModel.Loopback | src/calibrate.c:58-80 | on any linear hardware on which the data was measured, an unclamped voltage is put out within two output codes, and read back within those and the error of the converter |
| CalibrationModel.CalibrationPoints | src/calibrate.c:65-66 | zeroIn reads as 0 V, and threeVolt as 3 V if and only if it is not zeroIn |
| Calibration.TablesInverse | src/calibrate.c:209-216 | the index tables between halves and jacks are each other's inverse |
| Calibration.TablesAsWired | src/calibrate.c:155-216 | jacks 0 to 5 have the entries 0, 1, 3, 4, 2, 5 of the settings, and output k the entry of jack k |
| Calibration.UnwipedTo | src/calibrate.c:138-150 | a page whose first three-volt code is all zeros or all ones is replaced by the defaults as a whole |
| Calibration.Repaired | src/calibrate.c:99-134 | repaired settings are all valid, and valid settings, and only those, are left as they are, so a second check passes |
| Calibration.CalibrationState.CheckValidCalibration | src/calibrate.c:99-134 | reports whether all was valid, and repairs in place if asked |
| Calibration.CalibrationState.CopySettings | src/calibrate.c:138-150 | the flash contents, or the defaults if the page was wiped |
| Calibration.CalibrationState.ReadInput | src/calibrate.c:165-205 | the steps of the loop body compute the coefficients of the model |
| Calibration.CalibrationState.ReadCalibrationFromSettings | src/calibrate.c:136-221 | whatever the flash holds, every input, output and jack gets the coefficients of its own entry of the repaired settings |
| Calibration.JacksReadTrue | src/calibrate.c:209-220 | on every jack the zero code reads as 0 V and the three-volt code as 3 V unless they are equal |
| Calibration.HalvesReadTrue | src/calibrate.c:165-183 | so does the line stored for each input of a half |
| Calibration.OffsetsStored | src/calibrate.c:185-204 | the offset of each output is stored in codes as computed and truncated, beside its fixed-point coefficients |
| Calibration.StartupLoopback | src/calibrate.c:58-80 | with the coefficients in use after start-up, on hardware on which the settings in use were measured, an unclamped voltage sent to output k is put out within two output codes and read on jack k within those and the converter's error |
| Buttons.OneActionPerPress | src/algorithm.cc:239-261 | in every trace each maximal press triggers exactly one action: short at release before 600 ticks, otherwise long at tick 600, still held or not, and nothing at release |
| Buttons.NoActionBetweenPresses | src/algorithm.cc:263-287 | nothing is triggered while the button stays released |
| UiModel.TickKeeps | src/algorithm.cc:237-360 | every tick keeps modes and functions in range, processors on the functions the settings name and parameters equal to their copies and within 16 bits; changes mark the settings for saving; stored pot values stay within 1023 of the pots |
| UiModel.EncoderReaches | src/algorithm.cc:289-322 | a turn of an encoder sets exactly the parameters it controls in the current mode |
| UiModel.PotReaches | src/algorithm.cc:324-359 | so does a pot that has moved by 1024 or more, and a smaller move does nothing |
| UiModel.FunctionCycles | src/algorithm.cc:269-270 | short presses go round the four functions of a bank |
| UiModel.BankCycles | src/algorithm.cc:281-283 | a long press changes the bank and another one changes it back |
| UiModel.ModeCycles | src/algorithm.cc:244-257 | short presses pair the modes, a long press goes between the pairs |
| UiEffects.LeftReaches | src/algorithm.cc:239-261 | the left button changes the mode, within its pair on a short press and to the first of the other pair on a long one, marks the settings, and does nothing else |
| UiEffects.RightReaches | src/algorithm.cc:263-287 | the right button changes the function of the channel being edited, or in the shared modes both to what becomes of the first one's: the next of its bank on a short press, the same place of the other bank on a long one; its processors follow, the settings are marked, and nothing else happens |
| UiEffects.TickReaches | src/algorithm.cc:237-360 | in a tick the left button comes first, then the right one, and the knobs act in the mode just chosen: each parameter is set by the one knob that controls it, if it is turned or has moved by 1024, and is left alone otherwise |
| UiEffects.FunctionRows | src/algorithm.cc:213-223 | the processor functions of both channels for each function |
| UiEffects.NearestInRange | src/algorithm.cc:297 | a value out of range becomes the nearest one in range |
| Algorithm.AlgorithmData.constructor | src/algorithm.cc:56-80 | start-up loads the page if it is the firmware's, and defaults otherwise |
| Algorithm.AlgorithmData.SetFunction | src/algorithm.cc:225-235 | both channels in the modes that share a function, otherwise the one indexed |
| Algorithm.AlgorithmData.AlgorithmUI | src/algorithm.cc:237-360 | a tick, statement by statement, is the tick of the model |
| Algorithm.AlgorithmData.NVMOpWithAudioService | src/nvm.c:138-185 | while a flash operation runs, the user interface runs any number of ticks and the flash and the buffer stay |
| Algorithm.AlgorithmData.AlgorithmIdle | src/algorithm.cc:362-384 | a save, with ticks during erase and write, is the save of the model |
| Persistence.BootRestores | src/algorithm.cc:67-74 | a page written from settings loads as those settings, collapsed where the mode shares a function |
| Persistence.BootDefaults | src/algorithm.cc:56-79 | a page without the magic number gives mode TWIN, the envelope on both channels and everything else at zero or released |
| Persistence.BootReads | src/algorithm.cc:67-74 | a page with it is read word by word, and in the shared modes both functions become the second |
| Persistence.IdleSaves | src/algorithm.cc:362-384 | a save writes the settings as they are when the erase ends; without a mark nothing happens |
| Persistence.IdleKeeps | src/algorithm.cc:362-384 | a save with ticks inside keeps the settings saved or marked |
| Persistence.RebootEquivalence | src/algorithm.cc:362-384 | over every run, saves with ticks inside included, whenever none is due a reboot restores the settings, collapsed where the mode shares a function; exactly, if and only if it does not or the functions are equal; and in every state reached the processors and parameters agree with their settings and copies |
| Persistence.RebootForgets | src/algorithm.cc:225-257 | on a new module, holding the left button for 600 ticks or more, tapping the right one, holding the left one again and a save end with nothing to be saved, functions 1 and 0 and mode TWIN; a reboot makes both functions 0 |
| FrontPanel.PathIndependence | src/app.c:735-753 | for every walk of the shaft the steps add up to the difference of the detents at its ends |
| FrontPanel.HalfState.ReadEncoder | src/app.c:737-753 | the decoding of one encoder |
| FrontPanel.AdcChannel.Process | src/app.c:128-139 | after any samples the incremental value is the sum of the last eight |
| FrontPanel.LastEight | src/app.c:128-139 | from the eighth sample on that is the sum of the last eight of them |
| FrontPanel.FirstSamples | src/app.c:128-139 | and before that the sum of all |
| FrontPanel.PotInRange | src/algorithm.cc:325 | from twelve-bit samples the doubled value is in 0 to 65520 |
| RecallParser.StreamRouted | src/recall.c:114-198 | for every legal stream from any state between messages, each message is routed by the save mode the latest controller 16 on channel 0 has set: program changes on channel 0 to save or load, F4 n to save below 0x40, that controller nowhere, channel messages once to the handler, and system messages once for each of their bytes, all in order |
| RecallParser.StreamRoutedOnce | src/recall.c:52-94 | every message of a legal stream is routed once, and nothing else happens, if and only if no system message in it has data bytes |
| RecallParser.SongPositionRepeats | src/recall.c:52-94 | from power-up a song position F2 with two data bytes reaches the handler three times |
| RecallParser.PowerUp | src/recall.c:42-50 | from power-up data bytes are ignored and a program change on channel 0 loads |
| BusReference.ReferenceRouted | src/recall.c:114-152 | a reference receiver for the bus routes every legal stream, real-time messages and sysex over 20 bytes apart, message by message, each once |
| BusReference.StepExact | src/recall.c:52-198 | from any state in step, parser and reference agree on a byte and on every continuation of the message in progress and by channel messages, if and only if the byte is not one of the listed departures: a status byte inside a message, a real-time byte under running status, behind F4 or in a sysex, a data byte behind a system message (below 0x40 behind F4 n), F7 in a capture opened by a data byte, or the end of an own sysex over 20 bytes; F4 behind F4, and controller 16 on channel 0 broken off by its own status byte with the save mode off, lose nothing |
| BusReference.RunningStatusLost | src/recall.c:52-94 | from power-up a note, a clock and the data bytes of a second note reach the handler as the note and three clocks |
| BusReference.SecondSlotSaved | src/recall.c:75-76 | from power-up F4 n m saves slot n and slot m |
| BusReference.BusConforms | src/recall.c:154-198 | over every byte stream they agree on the stream cut anywhere and so continued, if and only if none of its bytes is a departure |
| RecallInput.RecallIn.ProcessStatus | src/recall.c:52-94 | the status handler is that of the model |
| RecallInput.RecallIn.ProcessMessage | src/recall.c:114-152 | the routing of one message is that of the model |
| RecallInput.RecallIn.ProcessMIDI | src/recall.c:154-198 | one byte changes state and log as the model says |
| CacheLoops.CleanRange | src/system_config/default/framework/system/devcon/src/sys_devcon_cache_pic32mz.S:214-231 | the loop ends and operates on exactly the lines that hold a byte of the range, each once, with addresses that wrap at 32 bits; a length that is not positive or a line size of 0 does nothing |
| CacheLoops.InitCache | src/system_config/default/framework/system/devcon/src/sys_devcon_cache_pic32mz.S:101-123 | at any base the loop ends, and its k-th operation is on the last word of the k-th line, up to the whole cache, with addresses that wrap at 32 bits |
| CacheLoops.EveryLineOnce | src/system_config/default/framework/system/devcon/src/sys_devcon_cache_pic32mz.S:101-123 | so each line of a cache whose size divides 2^32 is operated on, and exactly once |

## Left out

- Hardware: registers, DMA, codec, clocks, ports and display. The MIDI transmitter is an output log and a busy flag
  that eventually stays clear; the wait loops on that flag are left out.
- The Peaks library is not part of this model. A processor is its selected function and the last value given for each
  parameter; edit modes are taken as 0 to 3 in the order of the display, functions as 0 to 7 in the order of the
  table, and a new processor as running the envelope.
- Floating point: volts and coefficients are reals. Integer division, shifts, 32- and 64-bit storage and conversion to
  int are exact.
- MidiInput.MidiIn.MidiMessageHandler: models the installed default handler, whose other branches are empty; the log
  holds the data bytes received for a message, not the stale second byte a one-byte message leaves in the buffer.
- MidiSysex.DispatchExact: the command bodies of `ProcessNativeSysEx` are empty in the source and are not modelled.
- RxProtocol.EveryInterleavingIsSafe: the interrupt of the Select Bus drops bytes while `recallIgnoreBytes` is above
  zero; those are not tokens here, and the races on that counter are left out.
- I2CInput.I2CIn.ProcessI2CIn: the interrupts that count `recallIgnoreBytes` down and hand the response bytes to an
  I2C master are left out.
- Calibration.CalibrationState.ReadCalibrationFromSettings: the two halves' coefficients are kept in arrays over all
  inputs and outputs.
- Algorithm.AlgorithmData.constructor: the page is one that is not the firmware's or that the firmware wrote; with
  other values behind the magic number the source would index its tables and processors out of bounds.
- Algorithm.AlgorithmData.NVMOpWithAudioService: the unlock sequence of the registers, the interrupt state and the
  error bits of the flash controller are left out.
- Algorithm.AlgorithmData.AlgorithmUI: the source's arrays of two or four elements are sequences that the methods
  reassign; counters of held buttons do not overflow.
- Algorithm.AlgorithmData.AlgorithmIdle: the row write takes its data when it starts, so the scratch write of
  `algorithm_step` to the first byte of the buffer does not reach the flash; a power cut during a save is not
  modelled.
- Persistence.RebootEquivalence: starts from a page that is not the firmware's or that the firmware wrote; the source
  does not check the values in a page with its magic number.
- FrontPanel.PathIndependence: a shaft that moves more than one position between ticks is not covered.
- RecallParser.StreamRouted: is about legal streams, in which real-time messages stand between messages; arbitrary
  streams are the matter of `BusReference.BusConforms`.
- CacheLoops.InitCache: takes sizes the hardware has, a whole number of lines of at least four bytes.
- CacheLoops.CleanRange: masking with the complement of a line size less one is written as rounding down.
- Gate detection, sample-rate conversion and the idle spin of `algorithm_step`.
- Commands of `ProcessI2CIn` with empty handlers are known by their log entry only.
