# Verified model of the vehicle logger and dash

The vehicle logger reads a CAN bus and a VN300 inertial sensor, records both, and
publishes decoded signals to a dashboard over a local socket. Around its Qt
plumbing it has several small engines whose guarantees cover every run: a
resynchronising stream parser, a coalescing publisher, an input controller, an
asynchronous logger, a retention sweep, a warning engine and a replay engine. This
project models those engines in Dafny and proves their guarantees for all inputs,
all runs and all interleavings.

`dafny verify dfyconfig.toml` checks everything.

## Method

Code that changes things step by step is a class or a method with loops; each is
proved equal to a function of its inputs and its old state. The theorems are lemmas
about those functions over whole runs. Time is an argument of each step, read once
per call. Threads and the event loop are interleaved steps. Where a guarantee fails
in a corner, the code is kept as it is and the exact condition is proved, with a
concrete run in which it fails.

| files | engine |
|---|---|
| `Bits`, `Crc`, `Vn300Layout`, `Vn300Header`, `Vn300Stream`, `Vn300Parser`, `Vn300Simulator`, `Vn300Faults` | VN300 parser, its checksum and the simulator that encodes for it; a byte is its eight bits, lowest first |
| `StreamScan` | decoding any byte stream from its front, for decoders whose decisions are final; used by both wire formats |
| `DashInput`, `ButtonOctets`, `DashInputRuns`, `DashEventRuns`, `DashStatusRuns` | the button table of the dash against the physical wheel, in order and with late statuses |
| `WcmSimulator`, `WcmRuns`, `WcmFrames`, `WcmBatches` | the wheel module simulator, and simulator and dash together |
| `SignalData`, `Octets`, `IpcProtocol`, `IpcWire`, `IpcStream`, `IpcReader` | the logger-to-dash wire format, its encoders and decoder, and the client's end |
| `IpcServer`, `IpcServerRuns` | the coalescing server |
| `LogPolicy`, `LogPolicyRuns`, `LogPolicyOptimal` | rate groups, the greedy rate policy and when it is the best one |
| `AsyncLogger`, `AsyncLoggerRuns`, `LoggedSessions` | producers, worker thread and control calls of the session logger, alone and behind the policy |
| `Selections` | some items of a sequence in their order |
| `LogStorage`, `LogStorageRuns`, `CleaningRuns` | retention of recorded sessions, alone and beside the logger worker |
| `Debounce`, `WarningManager`, `WarningCursor`, `WarningEvaluator`, `WarningRules`, `WarningRuns`, `WarningInputs` | thresholds, hysteresis, freshness, delays and the warning list |
| `Replay`, `ReplayRuns`, `Vn300Replay`, `Vn300ReplayRuns` | the replay engine; both replay sources are the same machine, so it is modelled once and the VN300 source adds its parser |
| `CaptureText`, `CandumpCodec`, `Vn300LogCodec`, `CaptureGrammar` | the two capture line formats and the grammar of their lines |

## Corners of the code

- If the last client leaves and another joins before the next flush, the pending hash
  can hold a value older than the snapshot the new client is sent, and the client then
  shows the older value (`IpcServerRuns.JoinIsCurrentIff`, `RefillIsCurrentIff`,
  `RefillCanBeStale`).
- A batch may carry a status older than its event, or a status may come that is older
  than an event of an earlier batch; one press then acts twice when that status shows
  the button otherwise (`DashStatusRuns.NeverTwiceIff`, `OnePressActsTwice`).
- Stopping a replay drops its position back to where its clock was last restarted
  (`ReplayRuns.StopKeepsPositionIff`, `StopFallsBack`).
- After a sample with a timestamp from the future the rate policy logs nothing of its
  signal until time has caught up. It stays the best choice exactly while no sample is
  older than a logged one before which there was time to spare
  (`LogPolicyOptimal.StaysOptimalIff`, `FutureTimestampIsBeaten`).
- A seek in a recording of duration zero continues at no record even for a negative
  position, because the clamped position already is the end
  (`ReplayRuns.SeekIndexSplits`).
- The retention sweep spares a session that begins during the sweep exactly as long as
  it does not take the stem of a session about to be deleted; a stem is a date and time
  in milliseconds, so a reused one needs a clock that was set back
  (`CleaningRuns.StaysSafeIff`, `ReusedStemLosesAFile`).
- A packet altered on the wire is counted as a checksum error at its own offset unless an
  accepted packet covers that offset, which one found inside an earlier altered packet
  can do (`Vn300Faults.AlteredIsCountedIffUncovered`).

## Model

| member | source | states |
|---|---|---|
| Crc.SwapStep | display_logging_module/SW/src/vn300/vn300_binary_parser.cpp:244-248 | one round of the byte-swap loop equals feeding the eight bits of the byte, highest first, to a bitwise division by 0x1021 |
| Crc.CalculateCrc | display_logging_module/SW/src/vn300/vn300_binary_parser.cpp:241-251 | the checksum is the remainder of the whole message, as a polynomial, by x^16+x^12+x^5+1 with initial value 0 |
| Crc.RemainderLinear | display_logging_module/SW/src/vn300/vn300_binary_parser.cpp:241-251 | on messages of equal length the checksum is linear over exclusive or |
| Crc.CheckIsZeroIffAppended | display_logging_module/SW/src/sim/vn300_simulator.cpp:248-250 | data followed by two bytes has remainder zero exactly when they are its own checksum, high byte first |
| Crc.BurstIsDetected | display_logging_module/SW/src/vn300/vn300_binary_parser.cpp:210-212 | two messages that differ only within 16 consecutive bits never have the same remainder |
| Crc.TwoByteChangeIsDetected | display_logging_module/SW/src/vn300/vn300_binary_parser.cpp:210-212 | changing one or two adjacent bytes of a message with remainder zero makes the remainder non-zero |
| Vn300Layout.LayoutFillsPayload | display_logging_module/SW/src/vn300/vn300_binary_parser.cpp:131-175 | for every supported type mask the bytes the decode walk takes add up to the payload size of the size tables |
| Vn300Layout.PayloadIsBounded | display_logging_module/SW/src/vn300/vn300_binary_parser.cpp:25-45 | the payload of a group never exceeds the sum of its size table |
| Vn300Header.VerdictIsStable | display_logging_module/SW/src/vn300/vn300_binary_parser.cpp:47-97 | a complete or invalid verdict on a header never changes when bytes are appended |
| Vn300Header.HeaderBounds | display_logging_module/SW/src/vn300/vn300_binary_parser.cpp:81-96 | a verdict is complete only with at most 13 header bytes, a payload of 1 to 338 bytes and a packet of at most 353; with 353 bytes in hand a verdict is always reached |
| Vn300Header.SizeGuardNeverFires | display_logging_module/SW/src/vn300/vn300_binary_parser.cpp:91-93 | the 1024-byte guard is never what rejects a header |
| Vn300Header.ReadGroupBytes | display_logging_module/SW/src/vn300/vn300_binary_parser.cpp:48-61 | the group bytes are read as far as their extension bits say, at most four |
| Vn300Header.ReadTypeWords | display_logging_module/SW/src/vn300/vn300_binary_parser.cpp:67-78 | the type words of a group are gathered into its mask, at most two |
| Vn300Header.SumTypeSizes | display_logging_module/SW/src/vn300/vn300_binary_parser.cpp:81-90 | the payload size is the sum of the selected sizes, and an unknown type is rejected |
| Vn300Header.DecideHeader | display_logging_module/SW/src/vn300/vn300_binary_parser.cpp:47-97 | the whole header loop gives the verdict of the reference parse |
| StreamScan.CutsDoNotMatter | display_logging_module/SW/src/vn300/vn300_binary_parser.cpp:196-232 | for any decoder whose decisions are final, every cutting of the input gives the segments and leftover of one pass |
| Vn300Stream.FrontIsSteady | display_logging_module/SW/src/vn300/vn300_binary_parser.cpp:204-212 | a decision at the front of the buffer takes some bytes and survives whatever follows |
| Vn300Stream.CutsOfTheStreamDoNotMatter | display_logging_module/SW/src/vn300/vn300_binary_parser.cpp:196-232 | packets, errors and residual buffer do not depend on how the bytes were split across calls |
| Vn300Stream.LeftoverIsShort | display_logging_module/SW/src/vn300/vn300_binary_parser.cpp:205-209 | at most 352 bytes stay buffered, and they begin with the sync byte |
| Vn300Stream.EveryByteHasOneFate | display_logging_module/SW/src/vn300/vn300_binary_parser.cpp:199-230 | every byte is a skipped byte that is not the sync byte, a sync byte with a malformed header behind it, a sync byte of a whole packet whose checksum is bad, part of one accepted packet with a good checksum, or still buffered |
| Vn300Stream.AcceptedIffWellFormedAndUncovered | display_logging_module/SW/src/vn300/vn300_binary_parser.cpp:199-230 | with 353 bytes after a position, a packet is accepted there exactly when a well-formed one starts there and no accepted packet that started earlier covers it |
| Vn300Stream.DecodePacket | display_logging_module/SW/src/vn300/vn300_binary_parser.cpp:214-227 | the cursor walk over an accepted packet yields the fields of its layout in order with their raw bits |
| Vn300Stream.DecideFront | display_logging_module/SW/src/vn300/vn300_binary_parser.cpp:204-212 | header, length and checksum tests give the decision of the reference |
| Vn300Parser.Vn300BinaryParser.Consume | display_logging_module/SW/src/vn300/vn300_binary_parser.cpp:196-232 | after any calls the buffer and the samples are those of one left-to-right scan of every byte consumed, and the three counters are the numbers of its positions outside accepted packets with an accepted packet, with a whole packet whose checksum is bad, and with a malformed header |
| Vn300Parser.CountsOfScan | display_logging_module/SW/src/vn300/vn300_binary_parser.cpp:204-230 | what one pass counts as valid, as checksum error and as format error, as sets of positions of the history |
| Vn300Parser.Vn300BinaryParser.Reset | display_logging_module/SW/src/vn300/vn300_binary_parser.cpp:234 | a reset forgets the history |
| Vn300Simulator.EncodePacket | display_logging_module/SW/src/sim/vn300_simulator.cpp:219-252 | the packet is header, the 46 fields in order and the checksum of what follows the sync byte |
| Vn300Simulator.EncodedStreamIsParsed | display_logging_module/SW/src/sim/vn300_simulator.cpp:219-252 | any concatenation of encoded packets is parsed packet by packet, whatever follows |
| Vn300Simulator.RoundTrip | display_logging_module/SW/src/vn300/vn300_binary_parser.cpp:196-232 | a stream of encoded packets cut anyhow yields one packet of 46 raw fields each, no errors and an empty buffer |
| Vn300Simulator.AlteredPacketIsRejected | display_logging_module/SW/src/vn300/vn300_binary_parser.cpp:210-212 | a packet with one or two adjacent bytes altered behind its header is rejected at its own offset |
| Vn300Simulator.Simulator.GeneratePacket | display_logging_module/SW/src/sim/vn300_simulator.cpp:132-144 | which ticks are dropped, corrupted or sent intact |
| Vn300Faults.DroppedIff | display_logging_module/SW/src/sim/vn300_simulator.cpp:135 | a tick sends nothing exactly when its number is a multiple of a set drop interval |
| Vn300Faults.OneInEveryIsDropped | display_logging_module/SW/src/sim/vn300_simulator.cpp:132-137 | of any dropEvery ticks in a row exactly one sends nothing |
| Vn300Faults.CorruptedIff | display_logging_module/SW/src/sim/vn300_simulator.cpp:138-142 | in a sent packet one bit, the lowest of the third byte from the end, is turned exactly when the tick is a multiple of a set corruption interval; otherwise the packet is intact |
| Vn300Simulator.GeneratedPacketVerdict | display_logging_module/SW/src/sim/vn300_simulator.cpp:138-142 | of the packets sent, the parser takes every intact one and rejects every corrupted one |
| Vn300Faults.AlteredIsCountedIffUncovered | display_logging_module/SW/src/vn300/vn300_binary_parser.cpp:210-212 | anywhere in any stream an altered packet is counted as a checksum error at its own offset exactly when no packet accepted before covers that offset, and never as anything else |
| Vn300Faults.EveryAlteredPacketIsCounted | display_logging_module/SW/src/vn300/vn300_binary_parser.cpp:196-232 | a stream of whole packets, some of them altered so that no later byte looks like a sync byte, gives one valid packet for each intact one, one checksum error for each altered one, no format error and an empty buffer |
| DashInput.ReadBatch | display_logging_module/SW/dash_ui/src/backend/dash_input_controller.cpp:53-72 | one pass over a batch gives its events merged by timestamp, in order, and its last status |
| DashInput.DashInputController.Process | display_logging_module/SW/dash_ui/src/backend/dash_input_controller.cpp:52-88 | a batch applies its complete, new events in timestamp order and then its last status |
| DashInput.DashInputController.Status | display_logging_module/SW/dash_ui/src/backend/dash_input_controller.cpp:90-106 | a status frame updates the whole table; the first one only records unknown buttons |
| DashInputRuns.StatusIs | display_logging_module/SW/dash_ui/src/backend/dash_input_controller.cpp:90-121 | what a status does about a dash button in any state: afterwards it is known as shown, and it has acted once exactly if it is shown as pressed and was known as released, or was not known and this is not the first status |
| DashInput.DashInputController.Event | display_logging_module/SW/dash_ui/src/backend/dash_input_controller.cpp:74-83 | an event acts when it is complete, newer than the last and in range |
| DashInput.DashInputController.Update | display_logging_module/SW/dash_ui/src/backend/dash_input_controller.cpp:115-121 | an action is triggered by a change to pressed of a dash button |
| DashInputRuns.NoDuplicateActions | display_logging_module/SW/dash_ui/src/backend/dash_input_controller.cpp:52-121 | in every run whose statuses are truthful and read after everything delivered before them, in their own batch or an earlier one, whatever events are lost, a dash button acts at most as often as it was pressed |
| DashInputRuns.EveryPressActsOnce | display_logging_module/SW/dash_ui/src/backend/dash_input_controller.cpp:52-121 | with no event lost and distinct timestamps the two counts are equal |
| DashStatusRuns.FirstStatusActsIff | display_logging_module/SW/dash_ui/src/backend/dash_input_controller.cpp:90-102 | the first status, with events in its batch or without, adds an action for exactly the buttons that events have made known as released and that it shows as pressed |
| DashStatusRuns.FirstStatusDoesNotAct | display_logging_module/SW/dash_ui/src/backend/dash_input_controller.cpp:90-102 | a first status before any event creates no action |
| DashInputRuns.RedeliveryChangesNothing | display_logging_module/SW/dash_ui/src/backend/dash_input_controller.cpp:79-82 | events that are not newer than the last one change nothing, in any mixture |
| DashEventRuns.TwiceIsOnce | display_logging_module/SW/dash_ui/src/backend/dash_input_controller.cpp:79-82 | the same events delivered once more, whatever they are, change nothing |
| DashEventRuns.EveryReleaseIsAnnounced | display_logging_module/SW/dash_ui/src/backend/dash_input_controller.cpp:74-83 | in every run that loses no event each release is announced once, in order, with its button and the length of its press, whatever the statuses say |
| DashInputRuns.OnlyDashButtonsAct | display_logging_module/SW/dash_ui/src/backend/dash_input_controller.cpp:115-121 | the four upper buttons never act on the dash, in any run |
| ButtonOctets.MaskIsOctet | display_logging_module/SW/dash_ui/src/backend/dash_input_controller.cpp:90-94 | a status value is read as its lowest octet |
| DashStatusRuns.SafeFromHereIff | display_logging_module/SW/dash_ui/src/backend/dash_input_controller.cpp:90-121 | however the run goes on in order, no press acts twice exactly when the actions so far, and one for a held button believed released, are no more than the presses |
| DashStatusRuns.NeverTwiceIff | display_logging_module/SW/dash_ui/src/backend/dash_input_controller.cpp:85-87 | in any run without a lost event, whatever its statuses say: no press can act twice at any moment exactly when each status shows the button as it is after the events of its delivery |
| DashStatusRuns.OnePressActsTwice | display_logging_module/SW/dash_ui/src/backend/dash_input_controller.cpp:85-87 | from the start, a run that is truthful and complete but for one status older than the event it shares a batch with, in which one press acts twice |
| DashStatusRuns.OnlyOneIsLate | display_logging_module/SW/dash_ui/src/backend/dash_input_controller.cpp:85-87 | of the batches of that run only the one with that status is not in order |
| DashStatusRuns.HeldPressActsOnceIff | display_logging_module/SW/dash_ui/src/backend/dash_input_controller.cpp:85-87 | from any state: a press, a status in its batch and a later status that still shows it act once exactly when the first status already showed the press, and twice otherwise |
| WcmSimulator.Wheel.SetButtonPressed | display_logging_module/SW/src/sim/wcm_simulator.cpp:48-66 | an effective edge sends its event frame and then a status frame, each unless a fault drops it |
| WcmSimulator.Wheel.GenerateStatus | display_logging_module/SW/src/sim/wcm_simulator.cpp:140-151 | a status frame carries the table and the counter, which wraps at 256 and may be frozen |
| WcmRuns.RunIsSent | display_logging_module/SW/src/sim/wcm_simulator.cpp:48-151 | the history of a run is what the simulator object sends when it gets the commands one by one |
| WcmRuns.RunIsTruthful | display_logging_module/SW/src/sim/wcm_simulator.cpp:48-151 | in every run each event frame announces the latest edge, each status frame shows the current table, and frames come in the order of the edges |
| WcmFrames.SettingsAreTheLastMade | display_logging_module/SW/src/sim/wcm_simulator.cpp:48-118 | in every run the faults are those last switched and each button is as last commanded |
| WcmFrames.ValuesAreSet | display_logging_module/SW/src/sim/wcm_simulator.cpp:86-125 | the step and the encoder hold what they were last set to, within their bounds |
| WcmFrames.WhatIsSent | display_logging_module/SW/src/sim/wcm_simulator.cpp:48-151 | exactly which commands send an event, a status or both, under which faults, and what the frames hold |
| WcmFrames.CounterMoves | display_logging_module/SW/src/sim/wcm_simulator.cpp:79-84 | the counter goes on by the step modulo 256 with each status sent unless it is frozen, and otherwise only moves when it is set |
| WcmFrames.FramesAreCounted | display_logging_module/SW/src/sim/wcm_simulator.cpp:127-151 | in every run the two statistics are the numbers of frames sent |
| WcmFrames.EdgesTellHowLong | display_logging_module/SW/src/sim/wcm_simulator.cpp:48-66 | in every run each release announces for how many whole milliseconds the button was held, at most 65535, and each press announces none |
| WcmFrames.ReleasesEndPresses | display_logging_module/SW/src/sim/wcm_simulator.cpp:48-66 | every release of a run ends a press of the same button |
| WcmBatches.SimulatedPressesActAtMostOnce | display_logging_module/SW/src/sim/wcm_simulator.cpp:127-151 | simulator and dash together: under any faults and any batching in which a status knows the events of its batch, no press acts twice |
| WcmBatches.SimulatedPressesActOnce | display_logging_module/SW/src/sim/wcm_simulator.cpp:127-151 | with no event frame dropped, everything delivered and distinct timestamps every press acts exactly once, whatever status frames are dropped |
| IpcProtocol.PayloadRoundTrip | display_logging_module/SW/src/ipc/signal_ipc_protocol.cpp:119-187 | every encodable message is read back with values widened and without the units of samples |
| IpcProtocol.AcceptedPayloadIsStable | display_logging_module/SW/src/ipc/signal_ipc_protocol.cpp:119-187 | an accepted payload re-encodes to one of the same length that is read as the same message |
| IpcWire.FrameOctets | display_logging_module/SW/src/ipc/signal_ipc_protocol.cpp:26-37 | the octets of a frame: its length, highest octet first, "MIPC", version one, the kind, a zero, the number of items, and the items |
| IpcWire.TextOctets | display_logging_module/SW/src/ipc/signal_ipc_protocol.cpp:191-214 | the octets of a text: the number of octets and two for each code unit, or four octets of ones for the null text |
| IpcWire.ValueOctets | display_logging_module/SW/src/ipc/signal_ipc_protocol.cpp:39-74 | the octets of a value: its tag and eight octets, one, a text or nothing |
| IpcWire.SampleOctets | display_logging_module/SW/src/ipc/signal_ipc_protocol.cpp:202-214 | the octets of a sample: name, value, time and source |
| IpcReader.EncodeDefinitions | display_logging_module/SW/src/ipc/signal_ipc_protocol.cpp:191-200 | writes the frame of a definitions message |
| IpcReader.EncodeSamples | display_logging_module/SW/src/ipc/signal_ipc_protocol.cpp:202-214 | writes the frame of a samples message |
| IpcReader.DataStream.ReadValue | display_logging_module/SW/src/ipc/signal_ipc_protocol.cpp:76-117 | a value is readable exactly when a strict reader would take it |
| IpcReader.DataStream.ReadMessage | display_logging_module/SW/src/ipc/signal_ipc_protocol.cpp:119-187 | reading field by field with a sticky stream status accepts exactly the payloads a strict reader accepts, with the same message |
| IpcReader.DecodeAvailableMessages | display_logging_module/SW/src/ipc/signal_ipc_protocol.cpp:216-243 | takes every whole message, keeps the undecoded tail and fails exactly when that tail is malformed |
| IpcStream.FrontIsSteady | display_logging_module/SW/src/ipc/signal_ipc_protocol.cpp:223-241 | a whole message stays the same message when bytes are appended |
| IpcStream.BadIsFinal | display_logging_module/SW/src/ipc/signal_ipc_protocol.cpp:229-238 | a refused frame stays refused |
| IpcWire.RefusedIff | display_logging_module/SW/src/ipc/signal_ipc_protocol.cpp:223-238 | a frame is refused as soon as its length is there and is zero or above 16 MiB, or all of it is there and is malformed, and never otherwise |
| IpcWire.TakenIff | display_logging_module/SW/src/ipc/signal_ipc_protocol.cpp:223-241 | a message is taken as soon as all of a sound frame is there, and never otherwise |
| IpcStream.RoundTripUnderFragmentation | display_logging_module/SW/src/ipc/signal_ipc_protocol.cpp:216-243 | any list of encodable messages, encoded, concatenated and cut anywhere, decodes to the same list, and the buffer is exactly the part of the next frame that has arrived |
| IpcStream.CutsOfTheConnectionDoNotMatter | display_logging_module/SW/dash_ui/src/backend/ipc_signal_source.cpp:44-66 | whether a stream is accepted, and what an accepted one tells the dash, does not depend on its cuts |
| IpcStream.ConnectionTellsEverything | display_logging_module/SW/dash_ui/src/backend/ipc_signal_source.cpp:44-70 | a client that reads the frames of any encodable messages and the start of another, cut anyhow, stays open, tells the dash every whole message and keeps the start |
| IpcStream.UnitsComeBack | display_logging_module/SW/dash_ui/src/backend/ipc_signal_source.cpp:55-65 | the units left behind on the wire are restored from the definitions |
| IpcStream.UnitIsDefined | display_logging_module/SW/dash_ui/src/backend/ipc_signal_source.cpp:44-66 | the unit of a name is that of the last definition with that name, and null if there is none |
| IpcReader.IpcSignalSource.ReadAvailable | display_logging_module/SW/dash_ui/src/backend/ipc_signal_source.cpp:44-66 | one read is the reference read: dispatch in order, or drop the read and abort on a malformed frame |
| IpcServer.SignalIpcServer.PublishSamples | display_logging_module/SW/src/ipc/signal_ipc_server.cpp:72-81 | ordinary samples update the state and, with clients, the pending hash; events are queued only with clients |
| IpcServer.EventIff | display_logging_module/SW/src/ipc/signal_ipc_server.cpp:13-15 | a name is that of an event exactly when its text begins with "WCM.event_" |
| IpcServer.SignalIpcServer.AcceptConnection | display_logging_module/SW/src/ipc/signal_ipc_server.cpp:83-100 | a new client is sent the definitions and then the state, if there is any |
| IpcServer.SignalIpcServer.FlushPendingSamples | display_logging_module/SW/src/ipc/signal_ipc_server.cpp:102-117 | all queued events and all pending values go out in one frame to every client whose socket takes it |
| IpcServer.SignalIpcServer.RemoveClient | display_logging_module/SW/src/ipc/signal_ipc_server.cpp:128-132 | the client, if listed, is removed and the others keep their order |
| IpcServerRuns.EventsAreLossless | display_logging_module/SW/src/ipc/signal_ipc_server.cpp:72-117 | in every run each event due to a connected client is sent or queued exactly once and in order |
| IpcServerRuns.ViewsStayCurrent | display_logging_module/SW/src/ipc/signal_ipc_server.cpp:72-117 | in every run without a harmful connection a client's last values with the pending ones on top are the state |
| IpcServerRuns.FlushedClientIsUpToDate | display_logging_module/SW/src/ipc/signal_ipc_server.cpp:102-117 | right after a flush a client has the last value of every ordinary sample ever published and every event it is due |
| IpcServerRuns.CoalescingRefinesEverySample | display_logging_module/SW/src/ipc/signal_ipc_server.cpp:72-117 | in every run whose client list does not empty and refill between two flushes, a flushed client agrees with one that got every sample uncoalesced |
| IpcServerRuns.WindowIsOneBatch | display_logging_module/SW/src/ipc/signal_ipc_server.cpp:110-116 | everything published between two flushes goes out together, so no publish call is split across batches |
| IpcServerRuns.SnapshotsHoldNoEvents | display_logging_module/SW/src/ipc/signal_ipc_server.cpp:96-97 | what a new connection is sent never contains an event |
| IpcServerRuns.GreetingIs | display_logging_module/SW/src/ipc/signal_ipc_server.cpp:83-100 | a new connection is sent the definitions, and the state only if there is one |
| IpcServerRuns.DefinitionsAreLastSet | display_logging_module/SW/src/ipc/signal_ipc_server.cpp:95 | in every run a new connection is greeted with the definitions set last |
| IpcServerRuns.QuietFlush | display_logging_module/SW/src/ipc/signal_ipc_server.cpp:102-106 | a flush with nothing waiting sends nothing |
| IpcServerRuns.ForgottenWhenAlone | display_logging_module/SW/src/ipc/signal_ipc_server.cpp:102-108 | what waits when a flush finds nobody connected, or when the server stops, is forgotten: a client that joins next is due and sent no event of before |
| IpcServerRuns.JoinIsCurrentIff | display_logging_module/SW/src/ipc/signal_ipc_server.cpp:83-117 | a joining client is up to date after the next flush exactly when the leftover pending hash agrees with the state |
| IpcServerRuns.RefillIsCurrentIff | display_logging_module/SW/src/ipc/signal_ipc_server.cpp:77-78 | when the last client leaves between two samples of a signal and another joins before the flush, it ends up current exactly when the samples are equal |
| IpcServerRuns.RefillCanBeStale | display_logging_module/SW/src/ipc/signal_ipc_server.cpp:77-78 | a concrete run in which such a client is left with the older value |
| IpcServerRuns.DashSeesWhatWasSent | display_logging_module/SW/src/ipc/signal_ipc_protocol.cpp:191-243 | through frames, cuts and decoder the dash gets the same last values and events, as received |
| LogPolicy.DecodedLogPolicy.Load | display_logging_module/SW/src/logging/decoded_log_policy.cpp:46-121 | exactly the acceptable files replace the policy; every group is then the one its last member describes, every assignment the one of the file, and other files change nothing |
| LogPolicy.EverySignalHasAGroup | display_logging_module/SW/src/logging/decoded_log_policy.cpp:86-107 | under a loaded policy every signal has a defined group |
| LogPolicy.RateOfTheFileIsKept | display_logging_module/SW/src/logging/decoded_log_policy.cpp:62-107 | a signal whose group asks for a rate, by assignment or by default, is limited to the least whole interval that keeps that rate |
| LogPolicy.RefusedFileIff | display_logging_module/SW/src/logging/decoded_log_policy.cpp:38-107 | exactly which files are refused: without a group, with a group that is no object, has neither a mode nor a rate, a rate of zero or less or one that is too slow, with an assignment of an unknown signal or to no group, or without the default group |
| LogPolicy.IntervalKeepsTheRate | display_logging_module/SW/src/logging/decoded_log_policy.cpp:69-74 | the interval is the least whole number of nanoseconds, at least one, that keeps the rate |
| LogPolicy.DecodedLogPolicy.ShouldLog | display_logging_module/SW/src/logging/decoded_log_policy.cpp:124-142 | decides and remembers as the reference does |
| LogPolicyRuns.PeriodicIsGreedy | display_logging_module/SW/src/logging/decoded_log_policy.cpp:124-142 | in any interleaving what is logged of a periodic signal depends only on its own samples and is the greedy selection |
| LogPolicyRuns.UnlimitedIsAllOrNothing | display_logging_module/SW/src/logging/decoded_log_policy.cpp:127-132 | a native signal is logged completely and one that is off not at all |
| LogPolicyRuns.NativeInFileIsLogged | display_logging_module/SW/src/logging/decoded_log_policy.cpp:54-59 | when the last group of the file that is named for a signal has mode native, every sample of the signal in any run is logged |
| LogPolicyRuns.OffInFileIsNotLogged | display_logging_module/SW/src/logging/decoded_log_policy.cpp:60-61 | and when it has mode off, none is |
| LogPolicyRuns.GreedyIsSpaced | display_logging_module/SW/src/logging/decoded_log_policy.cpp:134-141 | any two logged timestamps are at least one interval apart |
| LogPolicyRuns.WindowIsBounded | display_logging_module/SW/src/logging/decoded_log_policy.cpp:134-141 | a window of length W holds at most W/interval + 1 spaced timestamps |
| LoggedSessions.SpacingSurvivesDrops | display_logging_module/SW/src/apps/vehicle_loggerd_main.cpp:300 | samples offered as the policy decides: over every interleaving of the logger, whatever a full queue drops, the timestamps of a periodic signal that reach the sinks are spaced and bounded in every window |
| LogPolicyOptimal.GreedyIsOptimal | display_logging_module/SW/src/logging/decoded_log_policy.cpp:134-141 | no other interval-spaced selection of a periodic signal is longer than what is logged, unless a sample comes too late; none does when no sample is older than the last one logged |
| LogPolicyOptimal.StaysOptimalIff | display_logging_module/SW/src/logging/decoded_log_policy.cpp:134-141 | what is logged is the longest selection at every moment, and stays so however the signal goes on in time order, exactly when no sample is older than a logged one before which there was time to spare |
| LogPolicyOptimal.TimeOrderIsEnough | display_logging_module/SW/src/logging/decoded_log_policy.cpp:134-141 | no sample of a signal in time order comes too late |
| LogPolicyOptimal.FutureTimestampIsBeaten | display_logging_module/SW/src/logging/decoded_log_policy.cpp:135-137 | a concrete sequence with one timestamp from the future on which another selection is longer |
| AsyncLogger.AsyncSessionLogger.EnqueueRecord | display_logging_module/SW/src/logging/async_session_logger.cpp:133-150 | accepts, drops and counts, or passes over outside a session |
| AsyncLogger.AsyncSessionLogger.WorkerTake | display_logging_module/SW/src/logging/async_session_logger.cpp:218-235 | hands out the oldest record, or the end when stopped and empty |
| AsyncLogger.AsyncSessionLogger.Drain | display_logging_module/SW/src/logging/async_session_logger.cpp:215-259 | after a stop the loop writes the whole queue in order and leaves after |queue| + 1 iterations |
| AsyncLoggerRuns.AcceptingIff | display_logging_module/SW/src/logging/async_session_logger.cpp:133-150 | in every reachable state records are accepted exactly while the worker is in its loop and nobody has asked it to stop |
| AsyncLoggerRuns.RefusedIffFull | display_logging_module/SW/src/logging/async_session_logger.cpp:133-150 | an offer within a session is refused exactly when the queue holds as many records as it may; otherwise the record is the last in the queue |
| AsyncLoggerRuns.ToldIffRefused | display_logging_module/SW/src/logging/async_session_logger.cpp:133-150 | the producer is told of a refusal and of nothing else |
| AsyncLoggerRuns.NothingOutsideSession | display_logging_module/SW/src/logging/async_session_logger.cpp:135-137 | outside a session a record leaves no trace |
| AsyncLoggerRuns.LostAreFullOffers | display_logging_module/SW/src/logging/async_session_logger.cpp:133-150 | over every interleaving what a session has lost is the number of its offers to a full queue |
| AsyncLoggerRuns.NeverFullLosesNothing | display_logging_module/SW/src/logging/async_session_logger.cpp:73-83 | a session whose offers never found the queue full has handed every record offered to the sinks, in order, when close returns |
| AsyncLoggerRuns.DepthIsDeepest | display_logging_module/SW/src/logging/async_session_logger.cpp:145-148 | over every interleaving the reported maximum depth is the longest the queue has been |
| AsyncLoggerRuns.EveryInterleavingConserves | display_logging_module/SW/src/logging/async_session_logger.cpp:73-83 | in every interleaving the queue respects its capacity, the records handed to sinks are a prefix of those accepted, these are a selection of those offered in their order, and offers = handled + in flight + queued + dropped |
| AsyncLoggerRuns.HandledAreProduced | display_logging_module/SW/src/logging/async_session_logger.cpp:133-150 | the sinks of a session get records the producers offered, in their order and each at most once |
| AsyncLoggerRuns.CloseWaitsForEverything | display_logging_module/SW/src/logging/async_session_logger.cpp:73-83 | when close returns everything accepted has been handed to a sink and nothing is queued |
| AsyncLoggerRuns.WorkerStopsSoon | display_logging_module/SW/src/logging/async_session_logger.cpp:215-234 | after a stop the worker starts at most |queue| + 1 further iterations |
| AsyncLoggerRuns.CloseTerminates | display_logging_module/SW/src/logging/async_session_logger.cpp:73-83 | a pending close has a bounded number of worker steps before it, and can return when they are taken |
| AsyncLoggerRuns.SessionsAreSeparate | display_logging_module/SW/src/logging/async_session_logger.cpp:22-58 | a session starts with an empty queue and counters at zero |
| AsyncLoggerRuns.OpenIff | display_logging_module/SW/src/logging/async_session_logger.cpp:85-88 | in every reachable state the logger says it is open exactly from when the worker has opened its files until it has finalized them |
| AsyncLoggerRuns.SettingsAreOfTheStart | display_logging_module/SW/src/logging/async_session_logger.cpp:38-45 | over every interleaving the capacity, and whether raw frames are wanted, are as the latest start has set them |
| AsyncLoggerRuns.CanStartAgain | display_logging_module/SW/src/logging/async_session_logger.cpp:64-82 | a session can be started once a close, or a start that failed, has returned |
| AsyncLoggerRuns.OneControlCallAtATime | display_logging_module/SW/src/logging/async_session_logger.cpp:30-83 | while a close or a start is under way no other begins |
| LogStorage.ScanSessions | display_logging_module/SW/src/logging/log_storage_manager.cpp:53-78 | lists the sessions of a directory, each with all its files, in the order of cleaning |
| LogStorage.ScanIsUnique | display_logging_module/SW/src/logging/log_storage_manager.cpp:71-77 | a directory has one such listing, whatever the order of the hash |
| LogStorageRuns.LessIs | display_logging_module/SW/src/logging/log_storage_manager.cpp:73-77 | of two sessions of the same time the one whose stem is smaller at the first difference, or ends there, comes first |
| LogStorageRuns.SessionIsItsFiles | display_logging_module/SW/src/logging/log_storage_manager.cpp:53-71 | a session is as large as its files together and as recent as its newest file |
| LogStorage.TotalBytes | display_logging_module/SW/src/logging/log_storage_manager.cpp:80-84 | the sum of the sizes |
| LogStorage.LogStorageManager.Enforce | display_logging_module/SW/src/logging/log_storage_manager.cpp:130-193 | a cleaning is the reference sweep over the listing, and the report is about the files that remain |
| LogStorageRuns.ShortestOldestPrefix | display_logging_module/SW/src/logging/log_storage_manager.cpp:151-171 | with every delete succeeding exactly the shortest oldest-first run of completed sessions is removed after which the remaining bytes are within the quota if there is one, the free space is enough if it is known, and no completed session is older than the age limit if there is one |
| LogStorageRuns.WithinLimitsNothingGoes | display_logging_module/SW/src/logging/log_storage_manager.cpp:151-155 | a cleaning of a directory that is within its limits removes nothing, whatever the deletes and the free space would do |
| LogStorageRuns.NoLimitNothingGoes | display_logging_module/SW/src/logging/log_storage_manager.cpp:151-155 | with no limit set nothing ever goes |
| LogStorageRuns.DeletedIff | display_logging_module/SW/src/logging/log_storage_manager.cpp:157-170 | a session counts as deleted, and its bytes as freed, exactly when each of its files could be removed; otherwise the files before the one that refuses are gone |
| LogStorageRuns.ReportIs | display_logging_module/SW/src/logging/log_storage_manager.cpp:183-191 | when a cleaning reports a failed delete, missing storage information, limits not met, or health |
| LogStorageRuns.IncompleteAreCounted | display_logging_module/SW/src/logging/log_storage_manager.cpp:176-180 | the sessions reported as incomplete are those with a marker but for the active one |
| LogStorageRuns.UnhealthyOnlyIfAllIncomplete | display_logging_module/SW/src/logging/log_storage_manager.cpp:173-191 | with deletes succeeding and storage information available, trouble is reported only if every survivor is incomplete |
| CleaningRuns.IncompleteIffMarked | display_logging_module/SW/src/logging/log_storage_manager.cpp:53-71 | a listed session is incomplete exactly when the directory holds its marker |
| CleaningRuns.SweepTakesOnlyCompleted | display_logging_module/SW/src/logging/log_storage_manager.cpp:151-171 | whatever a sweep removes, with deletes failing anywhere and any free space reported, is a file of a listed session that is not incomplete |
| CleaningRuns.StartIsSafe | display_logging_module/SW/src/logging/async_session_logger.cpp:174-181 | the sessions that show a marker when the logger starts, left by a crash, are protected from then on |
| CleaningRuns.UnfinalizedIsNeverDeleted | display_logging_module/SW/src/logging/async_session_logger.cpp:174-190 | under every interleaving of the logger worker with cleanings of the real sweep, no file of a session begun and not finalized is deleted, as long as no new session takes the stem of a file about to be deleted |
| CleaningRuns.StaysSafeIff | display_logging_module/SW/src/logging/async_session_logger.cpp:174-181 | every world of such a run is safe exactly when no new session takes the stem of a file about to be deleted |
| CleaningRuns.ReusedStemLosesAFile | display_logging_module/SW/src/logging/async_session_logger.cpp:166-181 | a run in which a new session takes such a stem and a file of it is deleted |
| WarningManager.WarningList.RaiseWarning | display_logging_module/SW/dash_ui/src/backend/warning_manager.cpp:54-73 | adds an entry or updates the one with the id, re-arming it only on escalation |
| WarningManager.WarningList.ClearWarning | display_logging_module/SW/dash_ui/src/backend/warning_manager.cpp:75-86 | removes the entry of the id and keeps the cursor in range |
| WarningManager.WarningList.AcknowledgeCurrent | display_logging_module/SW/dash_ui/src/backend/warning_manager.cpp:88-101 | acknowledges the warning shown |
| WarningManager.WarningList.HandleAction | display_logging_module/SW/dash_ui/src/backend/warning_manager.cpp:36-52 | an action is consumed exactly while a warning is shown |
| WarningManager.StepKeepsOk | display_logging_module/SW/dash_ui/src/backend/warning_manager.cpp:54-123 | every step keeps the ids unique and the cursor at a pending warning |
| WarningManager.RaiseEntry | display_logging_module/SW/dash_ui/src/backend/warning_manager.cpp:57-68 | what a raise does to the entry of every id |
| WarningManager.ClearEntry | display_logging_module/SW/dash_ui/src/backend/warning_manager.cpp:75-80 | what a clear does to the entry of every id |
| WarningManager.StepKeepsAcknowledged | display_logging_module/SW/dash_ui/src/backend/warning_manager.cpp:60-68 | a step re-arms or removes an acknowledged warning exactly when it escalates or clears it |
| WarningManager.AcknowledgedStays | display_logging_module/SW/dash_ui/src/backend/warning_manager.cpp:54-101 | an acknowledged warning stays so in every run that neither escalates nor clears it |
| WarningManager.OverlayIff | display_logging_module/SW/dash_ui/src/backend/warning_manager.cpp:110-116 | the overlay is shown exactly while some warning is not acknowledged |
| WarningCursor.NavigationIs | display_logging_module/SW/dash_ui/src/backend/warning_manager.cpp:118-123 | moving down shows the next open warning and up the one before, in a circle; going back in the menu leaves it |
| WarningCursor.AcknowledgeIs | display_logging_module/SW/dash_ui/src/backend/warning_manager.cpp:88-101 | acknowledging takes exactly the shown warning off the open ones and shows the next of them, or the last |
| WarningCursor.NothingToHandle | display_logging_module/SW/dash_ui/src/backend/warning_manager.cpp:36-37 | while nothing is shown an action does nothing |
| WarningCursor.RaiseShowsLast | display_logging_module/SW/dash_ui/src/backend/warning_manager.cpp:69-71 | after a raise the last open warning of the list is shown |
| WarningCursor.NewIsShown | display_logging_module/SW/dash_ui/src/backend/warning_manager.cpp:60-71 | a warning that was not listed is put at the end, open, and shown at once |
| WarningCursor.ClearKeepsPlace | display_logging_module/SW/dash_ui/src/backend/warning_manager.cpp:75-86 | after a clear the same place among the open warnings is shown, or the last, and a name that is not listed changes nothing |
| WarningEvaluator.Evaluator.ProcessSamples | display_logging_module/SW/dash_ui/src/backend/warning_evaluator.cpp:28-40 | stores the samples and evaluates every configured signal |
| WarningEvaluator.Evaluator.EvaluateOne | display_logging_module/SW/dash_ui/src/backend/warning_evaluator.cpp:83-126 | evaluates one signal: disabling, freshness, comparison, debounce and commit |
| WarningEvaluator.Evaluator.CheckFreshness | display_logging_module/SW/dash_ui/src/backend/warning_evaluator.cpp:128-164 | debounces staleness and raises or clears its warning |
| Debounce.CommitWasDebounced | display_logging_module/SW/dash_ui/src/backend/warning_evaluator.cpp:115-125 | a committed value was wanted at every look since one at least the delay earlier, with no reset and no commit in between |
| Debounce.CommitsIff | display_logging_module/SW/dash_ui/src/backend/warning_evaluator.cpp:111-125 | exactly when a look commits: what it wants differs from what is committed and was wanted at every look since one at least the delay earlier |
| WarningRuns.ListAndEvaluatorAgree | display_logging_module/SW/dash_ui/src/backend/warning_evaluator.cpp:83-196 | in every reachable state a threshold warning is listed exactly while its signal is not normal, critical exactly at the warning level, and a freshness warning exactly while its signal is stale |
| WarningInputs.ComparisonIs | display_logging_module/SW/dash_ui/src/backend/warning_evaluator.cpp:83-125 | in terms of what has happened: an evaluation compares exactly when the last sample was a number and, if staleness is watched, came since the warnings were enabled; it compares that number by the rules of the moment |
| WarningInputs.StalenessIs | display_logging_module/SW/dash_ui/src/backend/warning_evaluator.cpp:128-148 | staleness is judged at every evaluation that watches it, from the later of the last sample of any kind and the enabling |
| WarningInputs.LevelChangesWhenDue | display_logging_module/SW/dash_ui/src/backend/warning_evaluator.cpp:104-125 | a level changes exactly when a comparison calls for another one and every comparison since one at least the delay earlier has called for it |
| WarningInputs.StalenessChangesWhenDue | display_logging_module/SW/dash_ui/src/backend/warning_evaluator.cpp:140-152 | the same for staleness |
| WarningInputs.ResetIff | display_logging_module/SW/dash_ui/src/backend/warning_evaluator.cpp:87-93 | an evaluation resets a signal exactly when its warnings are disabled |
| WarningInputs.RoundIsRun | display_logging_module/SW/dash_ui/src/backend/warning_evaluator.cpp:42-47 | a round over all configured signals is the run of their evaluations |
| WarningInputs.StaleWarningHasItsSeverity | display_logging_module/SW/dash_ui/src/backend/warning_evaluator.cpp:158-163 | a freshness warning that is listed anew has the severity of its rule |
| WarningRuns.AgreeFromTheStart | display_logging_module/SW/dash_ui/src/backend/warning_evaluator.cpp:83-196 | and so in every run from the start |
| WarningRuns.LevelChangesIff | display_logging_module/SW/dash_ui/src/backend/warning_evaluator.cpp:104-125 | a level or kind is seen to change at a step that does not disable the signal exactly when it is committed there |
| WarningRuns.ChangesAreDebounced | display_logging_module/SW/dash_ui/src/backend/warning_evaluator.cpp:104-125 | every change of level or kind was called for at every comparing evaluation since one at least the applicable delay earlier, and it is to what was called for |
| WarningRuns.ChangesAreApart | display_logging_module/SW/dash_ui/src/backend/warning_evaluator.cpp:118-125 | two changes are at least the later one's delay apart |
| WarningRuns.StalenessIsDebounced | display_logging_module/SW/dash_ui/src/backend/warning_evaluator.cpp:137-152 | the same for staleness |
| WarningRules.HoldsIff | display_logging_module/SW/dash_ui/src/backend/warning_evaluator.cpp:49-81 | an active level and kind is kept exactly when the value is at most the threshold plus hysteresis for a low one, at least the threshold minus hysteresis for a high one, and no other warning threshold takes precedence |
| WarningRules.FromNormal | display_logging_module/SW/dash_ui/src/backend/warning_evaluator.cpp:49-81 | from normal, in numbers: a warning exactly when a valid low warning is at or above the value or a valid high one at or below it, otherwise a caution likewise, of two the low one |
| WarningRules.FromActive | display_logging_module/SW/dash_ui/src/backend/warning_evaluator.cpp:49-73 | from an active state: the warning threshold that wins, otherwise the state itself within its band, otherwise what the value calls for from normal |
| WarningRules.LevelFollowsValue | display_logging_module/SW/dash_ui/src/backend/warning_evaluator.cpp:75-81 | with only low thresholds valid a higher value never calls for more, and with only high ones a lower value never does |
| WarningRules.DelayIs | display_logging_module/SW/dash_ui/src/backend/warning_evaluator.cpp:118-123 | a rise waits for the activation delay of the threshold reached, any other change of an active state for the clear delay of the one it leaves |
| WarningRules.StaleIff | display_logging_module/SW/dash_ui/src/backend/warning_evaluator.cpp:133-139 | stale exactly when neither a sample nor the enabling lies within the limit, and the limit has passed if there was neither |
| WarningRuns.HysteresisHolds | display_logging_module/SW/dash_ui/src/backend/warning_evaluator.cpp:49-81 | over a whole run a committed level and kind does not change while that holds at every comparison |
| Replay.ReplaySource.Load | display_logging_module/SW/src/can/can_replay_source.cpp:24-80 | exactly the files of well-formed lines in time order are loaded, with times counted from the first record |
| ReplayRuns.NewIsOk | display_logging_module/SW/src/can/can_replay_source.cpp:18-22 | a new player can be played by any steps |
| ReplayRuns.LoadedIsOk | display_logging_module/SW/src/can/can_replay_source.cpp:24-80 | and so can one that has loaded a file, or failed to |
| ReplayRuns.LoadedIs | display_logging_module/SW/src/can/can_replay_source.cpp:24-80 | after loading nothing plays and the position is zero; the records are those of the file with times from the first, or none |
| ReplayRuns.StartIs | display_logging_module/SW/src/can/can_replay_source.cpp:82-106 | a start plays from the beginning in the mode and at the speed asked for, at once |
| ReplayRuns.StartRefuses | display_logging_module/SW/src/can/can_replay_source.cpp:82-90 | a start without records or at a speed that is not positive changes nothing |
| ReplayRuns.PauseHolds | display_logging_module/SW/src/can/can_replay_source.cpp:114-119 | a pause while playing holds the position at all later times; otherwise it does nothing |
| ReplayRuns.ResumeIs | display_logging_module/SW/src/can/can_replay_source.cpp:121-132 | a resume of a paused replay plays on from where it was paused, or finishes once; otherwise it does nothing |
| ReplayRuns.SeekIs | display_logging_module/SW/src/can/can_replay_source.cpp:134-157 | playing, paused or stopped, a seek puts the position at the place asked for within the recording, and finishes once if it plays and that is the end |
| ReplayRuns.SeekNeedsRecords | display_logging_module/SW/src/can/can_replay_source.cpp:134-138 | a seek without records changes nothing |
| ReplayRuns.SpeedIsTaken | display_logging_module/SW/src/can/can_replay_source.cpp:159-173 | a speed within bounds is taken at the current position, any other changes nothing |
| ReplayRuns.SpeedKeepsPlaying | display_logging_module/SW/src/can/can_replay_source.cpp:159-173 | a change of speed keeps mode, place and whether it plays |
| ReplayRuns.TickIs | display_logging_module/SW/src/can/can_replay_source.cpp:198-218 | a tick that plays the last records stands at the end, any other goes on as it was |
| ReplayRuns.IdleTick | display_logging_module/SW/src/can/can_replay_source.cpp:199 | a timer that fires when nothing runs emits nothing |
| Replay.ReplaySource.StartReplay | display_logging_module/SW/src/can/can_replay_source.cpp:82-106 | starts at the first record, or refuses |
| Replay.ReplaySource.PauseReplay | display_logging_module/SW/src/can/can_replay_source.cpp:114-119 | keeps the position and stops the timer |
| Replay.ReplaySource.ResumeReplay | display_logging_module/SW/src/can/can_replay_source.cpp:121-132 | goes on, or finishes when nothing is left |
| Replay.ReplaySource.SeekToNs | display_logging_module/SW/src/can/can_replay_source.cpp:134-157 | moves to a position within the recording and reschedules or finishes |
| Replay.ReplaySource.SetSpeedFactor | display_logging_module/SW/src/can/can_replay_source.cpp:159-173 | changes the speed at the current position |
| Replay.ReplaySource.EmitNextBatch | display_logging_module/SW/src/can/can_replay_source.cpp:198-218 | emits a batch and reschedules or finishes |
| Replay.ReplaySource.ScheduleNext | display_logging_module/SW/src/can/can_replay_source.cpp:220-233 | arms the timer for the next record |
| ReplayRuns.StepKeepsOk | display_logging_module/SW/src/can/can_replay_source.cpp:82-233 | running and not paused means a record to play and an armed timer, and the position stays within the recording, after every step |
| ReplayRuns.PlayIsConsecutive | display_logging_module/SW/src/can/can_replay_source.cpp:198-218 | over ticks, pauses, resumes and speed changes consecutive records are emitted, each once, and the replay finishes once |
| ReplayRuns.StartPlaysEverything | display_logging_module/SW/src/can/can_replay_source.cpp:82-106 | a run from start to end without seeking emits every record once and finishes once |
| ReplayRuns.SeekIndexSplits | display_logging_module/SW/src/can/can_replay_source.cpp:139-145 | a seek below the duration continues at the first record at or after the position; otherwise at none |
| ReplayRuns.SeekPlaysTheRest | display_logging_module/SW/src/can/can_replay_source.cpp:134-157 | after a seek the emitted records are the consecutive ones from there on |
| ReplayRuns.TickEmits | display_logging_module/SW/src/can/can_replay_source.cpp:203-209 | a tick of a running replay emits a full batch or what is left, never nothing |
| ReplayRuns.BoundedPosition | display_logging_module/SW/src/can/can_replay_source.cpp:185-190 | the position is within the recording |
| ReplayRuns.EmptyStandsAtZero | display_logging_module/SW/src/can/can_replay_source.cpp:185-190 | a new player stands at zero, and a recording without records lasts none |
| ReplayRuns.PositionIsScaledClock | display_logging_module/SW/src/can/can_replay_source.cpp:185-190 | while it plays the position is the speed times the clock since it was last restarted, rounded down, and stops at the end |
| ReplayRuns.PositionRests | display_logging_module/SW/src/can/can_replay_source.cpp:185-190 | a position that is not moving is where it was left |
| ReplayRuns.ControlKeepsPosition | display_logging_module/SW/src/can/can_replay_source.cpp:114-173 | pausing, resuming and changing the speed leave the position where it is |
| ReplayRuns.PositionNeverFalls | display_logging_module/SW/src/can/can_replay_source.cpp:185-190 | between seeks, stops and restarts the position never falls |
| ReplayRuns.StopKeepsPositionIff | display_logging_module/SW/src/can/can_replay_source.cpp:108-112 | exactly when a stop leaves the position where it is |
| ReplayRuns.StopFallsBack | display_logging_module/SW/src/can/can_replay_source.cpp:108-112 | a concrete stop that moves the position back by a second |
| ReplayRuns.RecordsAreNotEarly | display_logging_module/SW/src/can/can_replay_source.cpp:220-233 | in real time a record is emitted only when the position is within (speed + 1) ns of its timestamp, or later |
| ReplayRuns.TimerIsPrompt | display_logging_module/SW/src/can/can_replay_source.cpp:220-233 | the timer is due within a millisecond after the time of the next record, or at once if that has passed |
| Vn300Replay.Vn300ReplaySource.EmitNextBatch | display_logging_module/SW/src/vn300/vn300_replay_source.cpp:155-176 | each record of a batch goes through the parser and is signalled as samples or as an error |
| Vn300Replay.Vn300ReplaySource.SeekToNs | display_logging_module/SW/src/vn300/vn300_replay_source.cpp:101-125 | a seek resets the parser |
| Vn300Replay.SignalIs | display_logging_module/SW/src/vn300/vn300_replay_source.cpp:155-176 | a record is signalled as an error exactly when the packets that end in it hold no reading, otherwise as their readings at the time of the record |
| Vn300Replay.ReplayIsOneScan | display_logging_module/SW/src/vn300/vn300_replay_source.cpp:160-168 | the readings signalled for a row of records by a fresh parser are those of one scan over all packets put together |
| Vn300ReplayRuns.StartedReplayIsOneScan | display_logging_module/SW/src/vn300/vn300_replay_source.cpp:62-186 | after a start, over any ticks, pauses, resumes and speed changes, the readings of all batches together are those of one scan of the packets played, which are the first of the recording and at the end all of it |
| Vn300ReplayRuns.SoughtReplayIsOneScan | display_logging_module/SW/src/vn300/vn300_replay_source.cpp:62-186 | after a seek the same from the record sought on |
| Vn300Replay.SoundRecordsAreSignalled | display_logging_module/SW/src/vn300/vn300_replay_source.cpp:160-168 | whole sound packets are signalled one by one with their own readings and times |
| CaptureText.TakeStampBack | display_logging_module/SW/src/can/candump_codec.cpp:80-85 | a formatted timestamp is matched back to its seconds and nine digits |
| CandumpCodec.RoundTrip | display_logging_module/SW/src/can/candump_codec.cpp:18-89 | every recordable frame is read back as it was written |
| CandumpCodec.ParsedIsRecordable | display_logging_module/SW/src/can/candump_codec.cpp:57-76 | whatever is parsed is recordable: identifier and payload in range, format flag by identifier |
| CandumpCodec.FormattingIsCanonical | display_logging_module/SW/src/can/candump_codec.cpp:79-89 | formatting what was parsed gives a line that is read as the same record and formats to itself |
| CandumpCodec.LineLayout | display_logging_module/SW/src/can/candump_codec.cpp:79-89 | the layout of a line: nine digits of fraction, the identifier in three or eight lower-case digits, two upper-case digits for each byte |
| CandumpCodec.NamelessIsCan0 | display_logging_module/SW/src/can/candump_codec.cpp:86 | a frame without an interface name is written as can0 |
| CaptureText.FractionIsDecimal | display_logging_module/SW/src/can/candump_codec.cpp:15-18 | fewer than nine digits are the leading digits of the fraction |
| CaptureGrammar.SpaceIs | display_logging_module/SW/src/can/candump_codec.cpp:9 | what counts as white space |
| CaptureGrammar.FieldsIff | display_logging_module/SW/src/can/candump_codec.cpp:8-9 | the parser finds fields in a line exactly when the regular expression matches it with these groups |
| CaptureGrammar.LineIs | display_logging_module/SW/src/can/candump_codec.cpp:20-76 | what becomes of every line: passed over, invalid, out of range, a bad payload, or the record its groups say |
| CaptureGrammar.EveryLineTrims | display_logging_module/SW/src/can/candump_codec.cpp:31-37 | every line is such a text between white space |
| Vn300LogCodec.RoundTrip | display_logging_module/SW/src/vn300/vn300_log_codec.cpp:13-54 | every packet that begins with the sync byte is read back as it was written |
| Vn300LogCodec.FormattingIsCanonical | display_logging_module/SW/src/vn300/vn300_log_codec.cpp:47-54 | formatting what was parsed gives a canonical line |
| CaptureGrammar.PacketLineIs | display_logging_module/SW/src/vn300/vn300_log_codec.cpp:13-45 | what becomes of every line of a VN300 capture |

## Left out

- Qt sockets, serial ports, CAN plugins, timers, threads and the event loop: steps with a clock argument; a socket write failure or backlog abort is a client that does not take a frame and is removed.
- QDataStream: only big-endian integers, doubles as bit patterns, length-prefixed UTF-16 strings with null distinct from empty, and a sticky status after which the values read mean nothing.
- IpcProtocol: strings or payloads of 2^31 units or more, whose length prefix would wrap; an encodable message is within 16 MiB.
- Error message texts, display titles and warning messages, and all number formatting in them.
- Signal names and units of the VN300 samples as strings, and the conversion of their raw bits to double: a reading is its signal, its type and its raw bits.
- Vn300Simulator: the trajectory physics and the conversion of values to raw bits; raw bits are the input of the encoder. Scenario files and reloading are left out.
- WcmSimulator: starting it again, which restarts its clock below earlier timestamps; runs begin with one start. Releasing all buttons at once is one button command for each. DBC packing of its frames: a frame is its decoded fields.
- DashInput: keyboard input and the mapping of the four dash buttons to named actions.
- DBC decoding, MDF4 and CSV sinks, hashing and file contents: sinks and deletes succeed or fail as a parameter says.
- JSON parsing: configuration arrives as parsed members; the rate of a group is a real number, and rates beyond the range of a double are not modelled.
- 64-bit overflow of counters, byte totals, timestamps and millisecond delays.
- AsyncLogger: concurrent calls of start and close from different threads, worker error texts, and flush timing; an iteration that finds nothing is allowed at any time.
- LogStorage: parsing of file names into stem and kind, listings that change while they are read, a marker that is created but not written, and reading the retention limits from the configuration.
- WarningEvaluator: resolving thresholds and enable conditions from other signals; resolved rules are arguments of each evaluation and may differ between evaluations.
- Replay: handlers that call back into the replay while it emits, and the rounding of doubles; media time is computed over real numbers and truncated as the code does.
- CaptureText: white space beyond ASCII, and negative timestamps.
- CandumpCodec: interface names that contain a percent sign, which string formatting could take for a placeholder.
- The service web pages, gauges, navigation, signal lists and history, replay control messages, health monitors and the power distribution module.
