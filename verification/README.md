# SIF decoder and vehicle logic, modelled in Dafny

This project models the firmware of an electric-vehicle dashboard that
listens to the motor controller's single-wire SIF bus. A pin-change
interrupt, `sifChange`, times the intervals between edges. It recognises a
sync pulse and decodes 0 and 1 bits from the ratio of consecutive
intervals. It packs 96 bits MSB-first into a 12-byte frame. It accepts the
frame when the XOR of bytes 0..10 equals byte 11 and differs from the last
accepted checksum. The handler exists in three copies:

- `src/main.cpp`: the ESP32 reader. It zeroes the buffer on sync and raises
  `newDataAvailable`. Its main loop then hands the frame to `VehicleLogic`.
- `logger.c`: the serial logger. It keeps the buffer across syncs, decodes
  the telemetry fields in the handler and logs them.
- `dash.c`: the TFT dashboard. It does the same, except that the built-in
  test cycle, while running, keeps ownership of the fields. It also has its
  own RPM interpolation.

`VehicleLogic` (`src/logic.cpp`) holds the vehicle fields. It fills them
from a SIF frame or from a `DATA,...` line sent by a host. It falls back to
SIF data after two seconds of host silence, and animates the displayed RPM.

Layout:

- `bits.dfy` (`Bits`): the Arduino bit macros on a byte, the XOR checksum,
  C's truncating division, `constrain`, 32-bit `unsigned long`
  subtraction and the string prefix test of both command parsers.
- `sif_protocol.dfy` (`SifProtocol`): one handler call as a pure `Step` on a
  `DecoderState` value, its branch-by-branch lemmas, and the telemetry field
  mapping.
- `sif_runs.dfy` (`SifRuns`): sequences of calls. It covers the
  `bitIndex` bounds and the fact that two consecutive accepted checksums
  always differ. It proves the round trip, with frames encoded as interval
  widths (any widths inside the ratio bands, chosen pulse by pulse), and
  that duplicate and corrupted frames are discarded.
- `sif_decoder.dfy` (`SifDecoder`): the handler as imperative code over
  mutable globals and a 12-byte array, proved equal to `Step`. A
  `clearOnSync` flag selects the `src/main.cpp` behaviour.
- `main_reader.dfy`, `logger.dfy`, `dash.dfy`: one class per firmware. Each
  holds the decoder and that firmware's own globals.
- `vehicle_logic.dfy` (`Logic`): `VehicleLogic` and the spec functions of
  its updates.
- `findings.dfy` (`SifFindings`): the two gaps listed under Findings, each
  shown on the firmware as written and closed by a corrected definition.

## Model

| member | source | states |
|---|---|---|
| Bits.BitSet | src/main.cpp:187 | `bitSet` makes bit k 1 and leaves the other seven bits as they were |
| Bits.BitReadIsShiftAndMask | logger.c:160-161 | `bitRead(b, k)` as modelled is the macro's `(b >> k) & 1`, bit k counted from the least significant |
| Bits.StartsWith | src/logic.cpp:24 | `startsWith(prefix)` holds iff the string is the prefix followed by some rest |
| Bits.BitClear | src/main.cpp:184 | `bitClear` makes bit k 0 and leaves the other seven bits as they were |
| Bits.XorAppend | src/main.cpp:195-198 | the accumulated XOR of a concatenation is the XOR of the two parts' XORs |
| Bits.XorDetectsOneByte | src/main.cpp:195-200 | changing exactly one byte changes the XOR |
| Bits.TruncDiv | dash.c:194 | C's `/` on `int`: quotient truncated toward zero, for either sign of the dividend |
| Bits.Constrain | src/logic.cpp:93 | `constrain(x, lo, hi)` lies in [lo, hi], is x when x is in range, otherwise the bound x crossed |
| Bits.ConstrainReal | src/logic.cpp:41 | the same on a float, idealised as a real |
| Bits.ElapsedSince | src/logic.cpp:80 | `now - since` on `unsigned long` is the plain difference, plus 2^32 when the clock has wrapped |
| SifProtocol.SyncByQuotient | src/main.cpp:180 | `lastDuration / duration >= 31` in integer division iff `lastDuration >= 31 * duration` |
| SifProtocol.Classify | src/main.cpp:177-190 | sync iff last >= 31·dur; bit 0 iff not sync and last > 1.5·dur; bit 1 iff dur > 1.5·last; noise iff neither ratio exceeds 1.5 |
| SifProtocol.WriteBit | src/main.cpp:183-188 | bit `bitIndex` of the MSB-first frame takes the new value, all 95 others keep theirs; at `bitIndex == -1` the buffer is unchanged |
| SifProtocol.SingleByteCorruptionDetected | src/main.cpp:195-200 | a frame whose checksum matches fails the check after any single-byte change |
| SifProtocol.Checksum | src/main.cpp:195-198 | the XOR of bytes 0..10 equals byte 11 exactly when the XOR of the whole frame is 0 |
| SifProtocol.ChecksumMatches | src/main.cpp:200 | the frame passes the checksum test iff the XOR of all twelve bytes is 0 |
| SifProtocol.Step | src/main.cpp:170-209 | one call: the new state is valid (`bitIndex` in [-1, 95]), `lastDuration` becomes the current duration, and acceptance implies `bitIndex == 0` and a matching checksum |
| SifProtocol.IdleEdgeOnlyRecordsDuration | src/main.cpp:175-176 | a rising edge, or a falling edge with `lastDuration == 0`, changes only `lastDuration` |
| SifProtocol.SyncResetsFrame | src/main.cpp:180-182 | sync sets `bitIndex` to 0, zeroes the buffer only when `clearOnSync`, consumes no bit and accepts nothing |
| SifProtocol.LongThenShortIsZero | src/main.cpp:183-185 | a long-then-short pair clears the addressed bit, advances `bitIndex` (96 wraps to 0) and leaves every other bit unchanged |
| SifProtocol.ShortThenLongIsOne | src/main.cpp:186-188 | a short-then-long pair sets the addressed bit, advances `bitIndex` and leaves every other bit unchanged |
| SifProtocol.InconclusiveRatioIsNoise | logger.c:130-134 | a ratio within 1.5 either way (equal intervals included) changes only `lastDuration` |
| SifProtocol.LastBitCompletesFrame | src/main.cpp:191-203 | the 96th bit sets `bitIndex` to 0; accepted iff XOR(bytes 0..10) == byte 11 and differs from `lastCrc`; `lastCrc` becomes the checksum on acceptance and is otherwise unchanged |
| SifProtocol.AcceptOnlyOnLastBit | src/main.cpp:192-203 | only the call that completes bit 95 can accept, and an acceptance always moves `lastCrc` |
| SifProtocol.LastCrcMovesIffAccepted | src/main.cpp:200-201 | `lastCrc` changes exactly on the calls that accept a frame |
| SifProtocol.AcceptRecordsChecksum | src/main.cpp:200-201 | after an acceptance `lastCrc` holds the accepted frame's checksum |
| SifProtocol.RpmRaw | logger.c:159 | the raw RPM is bytes 7 and 8 as a big-endian 16-bit number (quotient and remainder by 256 give them back) |
| SifProtocol.SpeedModeBits | logger.c:163 | `data[4] & 0x07` is byte 4 modulo 8, in [0, 7] |
| SifProtocol.DecodeTelemetry | logger.c:156-163 | the decoded battery, current and percentage are bytes, RPM is 16 bits, speed mode is in [0, 7] |
| SifProtocol.TelemetryIgnoresOtherBytes | logger.c:156-163 | frames agreeing on bytes 4..10 decode to the same fields |
| SifProtocol.TelemetryDeterminesBytes | logger.c:156-163 | equal fields imply equal bytes 6..10, equal bits 3 and 5 and low three bits of byte 4, and the same reverse flag |
| SifRuns.Run | src/main.cpp:170-209 | any sequence of calls from a valid state ends in a valid state |
| SifRuns.RunAppend | src/main.cpp:170-209 | running two edge sequences in turn equals running their concatenation, with the accepted checksums concatenated |
| SifRuns.RunKeepsInvariant | src/main.cpp:192-194 | over any number of calls `bitIndex` stays in [-1, 95], and without an acceptance `lastCrc` is unchanged |
| SifRuns.AcceptedChecksumsAlternate | src/main.cpp:200-201 | across any call sequence each accepted checksum differs from the one before it (the first from the initial `lastCrc`), and `lastCrc` ends as the last one accepted |
| SifRuns.ZeroChecksumNeverFirstAccepted | src/main.cpp:200-201 | from power-up (`lastCrc` = 0, line 19) a frame with checksum 0 is never the first accepted |
| SifRuns.OneBit | src/main.cpp:183-203 | the two intervals of bit k, with any widths inside the bit bands, write it into the buffer and advance `bitIndex`; at bit 95 they complete the frame and judge its checksum |
| SifRuns.SyncPulseStartsFrame | src/main.cpp:180-182 | a sync pulse of any widths publishes nothing and leaves `bitIndex` 0, `lastCrc` unchanged, the buffer zeroed or kept by `clearOnSync` |
| SifRuns.RemainingBits | src/main.cpp:183-203 | bits k..95 of frame f, fed after bits 0..k-1 with any per-bit widths, leave exactly f with `bitIndex` 0, published iff its checksum matches and is new |
| SifRuns.EncodedFrameDecodes | src/main.cpp:170-209 | from any valid state (even mid-frame), a sync pulse (long ≥ 31 × short) plus the 96 bit pulses of f (long > 1.5 × short and < 31 × short, widths free per pulse) leave f in the buffer, `bitIndex` 0, and publish f iff its checksum matches and differs from `lastCrc` |
| SifRuns.DecodedFrameNotRepublishable | src/main.cpp:200 | once f is decoded, f itself no longer passes the duplicate gate |
| SifRuns.SecondCopySilent | src/main.cpp:200 | a second copy of a frame right after the first publishes nothing, whatever the widths of either copy |
| SifRuns.DuplicateFrameDiscarded | src/main.cpp:200 | a frame sent twice in a row, with any widths, is published at most once: the pair publishes exactly what the first copy did |
| SifRuns.CorruptFrameDiscarded | src/main.cpp:195-200 | a frame with a corrupted checksum byte, sent with any widths, is not published and leaves `lastCrc` alone |
| SifDecoder.Decoder.constructor | src/main.cpp:17-22 | power-up globals: `bitIndex` -1, everything else zero |
| SifDecoder.Decoder.ComputeChecksum | src/main.cpp:195-198 | the XOR loop returns the checksum of bytes 0..10 |
| SifDecoder.Decoder.ClearBuffer | src/main.cpp:182 | the zeroing loop leaves all 12 bytes 0 |
| SifDecoder.Decoder.StoreBit | src/main.cpp:183-188 | the buffer becomes `WriteBit` of the old buffer at `bitIndex` |
| SifDecoder.Decoder.HandleEdge | src/main.cpp:170-209 | the in-place handler leaves exactly the state `Step` computes and reports its acceptance |
| MainReader.SifReader.constructor | src/main.cpp:17-22 | decoder at power-up, flag down |
| MainReader.SifReader.SifChange | src/main.cpp:170-209 | state as `Step` with buffer clearing; `newDataAvailable` is raised exactly when the call accepts, never lowered |
| MainReader.SifReader.ConsumeFrame | src/main.cpp:99-110 | with a frame waiting and SIF as source: flag lowered, packet counted, vehicle data replaced by the buffer's fields; otherwise nothing changes |
| Logger.LogAppendKeepsConsistent | logger.c:152-166 | logging a checked frame with a new checksum keeps every record decoded from a matching frame, with no checksum repeated back to back |
| Logger.SifLogger.constructor | logger.c:7-19 | fields zero, log empty, decoder at power-up |
| Logger.SifLogger.LogData | logger.c:166 | the current fields are appended to the log |
| Logger.SifLogger.SifChange | logger.c:113-173 | state as `Step` without clearing; on acceptance the fields become the frame's telemetry and are logged; otherwise fields and log are untouched; the log invariant is kept |
| Dash.DashRpmStep | dash.c:192-197 | within one of the target: snap to it; otherwise a move strictly toward the target that never passes it |
| Dash.DashRpmConverges | dash.c:192-197 | with a fixed target the display reaches it within `|target - displayed|` calls and the gap shrinks by at least one per call |
| Dash.NextTestStep | dash.c:407-417 | the next step is in [0, 12]: one more, 12 wraps to 0, an out-of-range step restarts at 0 |
| Dash.TestCycleAdvances | dash.c:414-417 | n calls advance a step in [0, 12] by n modulo 13 |
| Dash.TestCycleHasPeriod13 | dash.c:414-417 | the cycle returns to a step after exactly 13 calls and not sooner |
| Dash.NextSweep | dash.c:389-390 | the sweep stays a multiple of 200 in [0, 6000], adding 200 until it would pass 6000, then back to 0 |
| Dash.NextModeTest | dash.c:401-402 | the mode counter cycles 1, 2, 3, 1 |
| Dash.TestFields | dash.c:316-411 | step 0 stages in-range defaults with reverse, brake and regen off; every step keeps RPM in [0, 8200], mode in [1, 3] and battery in [0, 100]; step 11 sweeps RPM with brake and regen off; step 12 cycles the mode at 3000 RPM |
| Dash.TestVoltageByte | dash.c:324 | only steps 0 and 9 write byte 1 of the buffer |
| Dash.Dashboard.constructor | dash.c:20-44 | zeroed globals, test mode off, `sweepRpm` 0, `modeTest` 1 |
| Dash.Dashboard.SifChange | dash.c:420-470 | state as `Step` without clearing; an acceptance raises `newDataAvailable` and replaces the fields only outside test mode |
| Dash.Dashboard.HandleCommand | dash.c:64-90 | `test` starts the cycle at step 0, `stop` ends it, `rpm=`, `mode=`, `battery=` set the clamped field, `reverse` toggles reverse; any other command (`help` included) leaves the fields and test state alone |
| Dash.Dashboard.RunTestCycle | dash.c:315-418 | fields become `TestFields` of the current step, steps 0 and 9 write byte 1, `testStep` advances per `NextTestStep`, the sweep and mode counters advance on steps 11 and 12 only |
| Dash.Dashboard.UpdateRpm | dash.c:178-198 | `targetRpm` becomes `rpm` and the display moves one `DashRpmStep` |
| Dash.Dashboard.Tick | dash.c:101-106 | a test step runs exactly when test mode is on and more than 1000 ms have passed, with its fields, step, sweep, mode-test counter and byte 1 of the buffer as in `RunTestCycle`, and otherwise none of these change; the RPM is then updated; test mode, the data flag and the decoder's position are untouched |
| Logic.ClampedSpeedModeIsValid | src/logic.cpp:104-106 | `isValidSpeedMode(m)` iff m is 1, 2 or 3, and every value clamped into [1, 3] is valid |
| Logic.IsValidSpeedMode | src/logic.cpp:104-106 | a mode is valid iff clamping it into [1, 3] leaves it unchanged |
| Logic.SifSpeedModeIsUnchecked | src/logic.cpp:74 | the SIF path can store the invalid modes 0 and 4 |
| Logic.AnimateRpm | src/logic.cpp:86-94 | the result is in [0, 12000]; within one of the target it is the clamped target; otherwise it is the target plus one in the direction of travel, then clamped |
| Logic.AnimationSettlesInTwoSteps | src/logic.cpp:86-93 | with a target in [0, 12000] two steps reach it, and it is then kept |
| Logic.AnimationOvershootsByOne | src/logic.cpp:88-89 | with speed 1 a far target strictly inside the range is passed by exactly one RPM on the first step |
| Logic.AnimationPinsOutOfRangeTarget | src/logic.cpp:93 | a target above 12000 pins the display at 12000, one below 0 at 0 |
| Logic.Scan | src/logic.cpp:32-38 | the split yields at most one field per remaining character |
| Logic.PythonFields | src/logic.cpp:28-38 | at most 8 fields, a prefix of the full split, and all of it when fewer than 8 |
| Logic.SplitFields | src/logic.cpp:28-38 | the splitting loop returns exactly `PythonFields` of the line |
| Logic.ScanFieldAtComma | src/logic.cpp:33-34 | a field ending at a comma excludes the comma and scanning resumes after it |
| Logic.ScanFieldAtEnd | src/logic.cpp:33-34 | a field with no comma before the last character runs to the end of the line, keeping a final comma |
| Logic.ScanJoin | src/logic.cpp:28-38 | splitting comma-joined fields (no commas inside, last non-empty) gives them back |
| Logic.PythonFieldsOfJoin | src/logic.cpp:28-38 | `DATA,` plus joined fields yields their first eight |
| Logic.TrailingCommaStaysInField | src/logic.cpp:33-34 | `DATA,` followed by any text whose only comma is its last character yields that text, comma included, as the single field (`DATA,7,` gives `7,`) |
| Logic.ApplyHostFields | src/logic.cpp:40-56 | battery is field 0 clamped to [0, 100], RPM field 1 clamped to [0, 12000], speed mode field 2 clamped to [1, 3]; current is field 6 and voltage field 7 as read; reverse, brake and regen each true iff their field reads 1; source flag and displayed RPM untouched |
| Logic.WithSifFrame | src/logic.cpp:62-77 | the vehicle fields are the frame's telemetry, voltage is byte 1 · 0.75 in [0, 191.25], the display jumps to the new RPM, the source flag is untouched |
| Logic.VehicleLogic.constructor | src/logic.cpp:3-17 | speed mode 1, SIF as source, everything else zero |
| Logic.VehicleLogic.ParsePythonData | src/logic.cpp:23-60 | a line without `DATA,` changes nothing; with it: SIF off and the timestamp taken even when fewer than 8 fields; with 8 fields the clamped values, `targetRpm == rpm` |
| Logic.VehicleLogic.ParseSifData | src/logic.cpp:62-77 | the data become `WithSifFrame` of the frame and `targetRpm == rpm == displayedRpm` |
| Logic.VehicleLogic.UpdateDataSource | src/logic.cpp:79-84 | SIF becomes the source iff more than 2000 ms (wrapping) passed since the last host line, else the flag is unchanged; then one animation step |
| Logic.VehicleLogic.UpdateRpmAnimation | src/logic.cpp:86-94 | the display becomes `AnimateRpm` of itself toward `targetRpm`, in [0, 12000]; nothing else changes |
| SifFindings.DecodesWithoutSync | src/main.cpp:183-194 | as written: from power-up, one bit pulse and then the 96 bit pulses of a publishable frame contain no sync pair, yet the frame is published |
| SifFindings.SyncedStep | src/main.cpp:170-209 | corrected call: identical to the firmware's once synchronised; while unsynchronised only a sync pulse can move `bitIndex` off -1 |
| SifFindings.UnsyncedStaysSilent | src/main.cpp:178-192 | corrected: a decoder that has seen no sync pulse stays at `bitIndex` -1, keeps its buffer and `lastCrc`, and accepts nothing |
| SifFindings.SyncBeforeCopyParsesZeros | src/main.cpp:99-110 | as written: a sync pulse between acceptance and the loop's copy makes the loop parse the all-zero buffer |
| SifFindings.SnapshotReader.constructor | src/main.cpp:17-22 | power-up: decoder at `INIT`, no frame waiting, no packets counted |
| SifFindings.SnapshotReader.SifChange | src/main.cpp:170-209 | corrected handler: as the firmware's, and the buffer is copied exactly when a frame is accepted; a waiting copy always matches its checksum, which is `lastCrc` |
| SifFindings.SnapshotReader.ConsumeFrame | src/main.cpp:99-110 | corrected loop block: a waiting frame is parsed from the copy, which matches its checksum and is the last one accepted |
| SifFindings.SyncBeforeCopyParsesSnapshot | src/main.cpp:99-110 | corrected: in the same scenario the loop parses the accepted frame |

## Left out

- `micros()`, `millis()`, `digitalRead`: the pin level, the interval since the last edge and the current time are parameters.
- Interrupt and main-loop concurrency (`volatile`, `noInterrupts()`): each handler call is one atomic step, and the consumer's copy of the buffer is a plain read.
- The float ratio in the bit tests is idealised as the exact comparisons `2·last > 3·dur` and `2·dur > 3·last`. Float rounding of very long intervals is not modelled.
- SifProtocol.RpmRaw: the `* 1.91` float scale is not modelled, and neither is its truncation into a `short` or `int`. The overflow of `data[7] << 8` on 16-bit `int` boards is also not modelled. RPM fields hold the raw 16-bit value everywhere.
- The voltage is byte 1 times 0.75 and is computed as an exact real. `battery` and `voltage` from a host line are reals returned by `toFloat`, with no float rounding.
- `calculateMph` and the `mph` field: floating point only.
- `String::toInt`, `String::toFloat` and `String::trim` are not modelled. The first two are function parameters. Commands are taken as already trimmed.
- The main loop of src/main.cpp is not modelled beyond the frame hand-over: the serial commands, `sendDataToLogger`, the 200 ms resend and the display refresh are left out.
- `getVehicleData`, `isUsingSifData`, `setUsingSifData` and `init` are not modelled: they are accessors and a serial print.
- CSV and serial output (`logData` formatting, `sendDataToLogger`, debug prints). `logData()` is modelled as appending the record to a log sequence.
- All TFT drawing in dash.c and src/ui.cpp is not modelled. This includes the `lastReverseState` redraw in `updateRpm`, which only clears the screen and resets drawing state. The Python dashboards are also left out.
- The `help` command and the serial messages of dash.c are not modelled.
- Dash.Dashboard.RunTestCycle: the `default` branch is unreachable because `testStep` stays in [0, 12]. `NextTestStep` still models its restart at 0.
- C integer widths in dash.c (`short` fields, 16-bit `int` on AVR) are not modelled. Test-cycle and interpolation values stay far inside those ranges; the SIF path is noted above and the serial commands below.
- Dash.Dashboard.HandleCommand: `rpm=`, `mode=` and `battery=` store the `long` from `toInt()` in a 16-bit `int` before `constrain` (dash.c:75, 79, 86). The model clamps the unbounded value, so `rpm=70000` gives 8000 here, while a 16-bit board wraps it to 4464 first.
- SifProtocol.CanDivide: a falling edge whose interval is zero, after a positive one, divides by zero at src/main.cpp:180 (undefined behaviour in C). Single calls (`CanDivide`) exclude that edge alone. Runs (`SifRuns.TimedEdge`) exclude every zero-interval falling edge, including one after a zero interval (such as the first edge after power-up), which the source skips without dividing (src/main.cpp:175-176); `SifProtocol.IdleEdgeOnlyRecordsDuration` covers that edge as a single call. Zero-length rising edges (src/main.cpp:172-176, 208) are included in both.

## Findings

The model of each firmware keeps the code as written; the corrected
definitions stand beside it in `SifFindings`.

| source | as written | input that shows it | evidently intended | confidence | as-written member | corrected member |
|---|---|---|---|---|---|---|
| src/main.cpp:183-194 | `bitIndex` starts at -1 (line 21); the first bit interval writes nowhere (bit 8 of byte 0) yet moves `bitIndex` to 0, so the next 96 bits are accepted as a frame without any sync pulse | from power-up, a 2-unit then a 1-unit interval, then the 96 bit intervals of any frame whose checksum matches and is non-zero | bit intervals are ignored until a sync pulse has been seen | medium, not executed | SifFindings.DecodesWithoutSync | SifFindings.UnsyncedStaysSilent |
| src/main.cpp:99-110 | acceptance only raises `newDataAvailable`; the frame stays in the buffer the handler goes on writing, and the loop copies it later | a frame waiting, then an interval of 31 units followed by one of 1 unit before the loop runs: the loop parses an all-zero frame | the loop parses the frame that was accepted | medium, not executed | SifFindings.SyncBeforeCopyParsesZeros | SifFindings.SnapshotReader.ConsumeFrame |
