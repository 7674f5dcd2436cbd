# Verified model of the dew-point controller firmware

This project models the firmware of a dew-point controller: the two checksums, the integer dew-point
arithmetic, the controller state machine with its moving-average filter, the cooperative scheduler on
a wrapping millisecond clock, the three byte streams (DMA receiver, polled frame assembler, logger
ring), the configuration record in flash, and the Modbus register service on top of them.

Code that changes state is modelled by classes and by methods over arrays; each method is proved
equal to a function of the old state, and the properties below are proved about those functions over
every input and every run. Machine words are unbounded integers with the wrap-around, truncation and
sign of the C types written out (`Words`).

| file | contents |
|---|---|
| `Lfsr.dfy`, `Words.dfy`, `CrcLoop.dfy` | reflected shift-register codes of any width and polynomial; words as bits; the byte loop |
| `Divisors.dfy`, `ModbusPeriod.dfy`, `DoubleErrors.dfy` | the period of the Modbus polynomial; two changed bits |
| `Modbus.dfy` | CRC-16, frames, requests and replies (MODBUS over Serial Line V1.02, sections 2.5.1 and 6.2.2) |
| `Dewpoint.dfy`, `LogTable.dfy`, `Magnus.dfy` | dew point in integer arithmetic; its table against the logarithm; the result against the formula |
| `Filter.dfy` | moving average |
| `ControlModel.dfy`, `Controller.dfy` | the controller as functions, and as the object that is updated in place |
| `ControlLaws.dfy` | what a controller starts with, which samples it takes and what a boot leaves, in the documented values |
| `ControlHistory.dfy`, `BootHistory.dfy` | the controller over whole runs and over whole histories of boots |
| `Scheduler.dfy` | the scheduler and its timers on unbounded time |
| `Ring.dfy`, `DmaReceiver.dfy`, `ModbusServer.dfy`, `Logger.dfy` | the byte streams |
| `Storage.dfy` | CRC-32, the stored record, two flash slots |
| `AppModel.dfy`, `App.dfy` | sampling, relay output and reconfiguration |
| `SampleTiming.dfy`, `Isolation.dfy` | sampling over whole runs; what the brown-out interrupt isolates |
| `Registers.dfy`, `ModbusTask.dfy` | register map and request service (MODBUS Application Protocol V1.1b3, sections 6.3, 6.6 and 7) |

## Where the code and its documentation differ

The model follows the code. Each point is a lemma with the exact condition.

- The repository's README.md (line 67) promises SAFE after three watchdog resets in a row *without a
  stable RUN in between*. An external, software or unknown reset, and every reconfiguration, clears the
  crash counter in RAM but not the backup byte, and a later RUN then no longer clears the byte
  (`BootHistory.StableRunForgotten`). The byte is the promised count throughout a history if and only
  if no stable step comes after such an event, with the count not zero and no power-on or watchdog
  boot in between (`BootHistory.BackupIsCrashCountIff`).
- The same line calls SAFE permanent. A configuration write over Modbus leaves it
  (`AppModel.ReconfigurationLeavesSafe`), and so do watchdog resets alone, because the count is a byte
  that wraps: of consecutive watchdog boots from a cleared byte, the 255th lands in SAFE and the 256th does not
  (`BootHistory.EndlessCrashesLeaveSafe`). `ControlHistory.SafeIsLeftBy` lists everything that leaves it.
- Line 66 promises that the brown-out interrupt isolates the relay and takes the state machine to SAFE.
  The interrupt shuts down an object `g_app_controller` (src/platform/stm32f1/platform_stm32f1.c:74 and
  145), which no file defines, while the firmware runs the controller inside its application object
  (src/app/main_mcu.c:276-280). If the two are one, the promise is kept through every run until a
  reconfiguration reaches the controller (`Isolation.OwnShutdownIsolates`). If they are different, the
  state machine is not taken to SAFE and only the output is forced off: the next sample switches the
  output on again if it switches the relay on (`Isolation.ForeignFailSwitchesOn`: saturated air, relay
  off before), or leaves relay and output different if the relay was on (`Isolation.ForeignFailLosesOutput`).
  `Isolation.FirstSampleAfter` gives both conditions in terms of the state before the sample;
  `Isolation.OutputStaysOffIff` says for whole runs when the output stays off.
- A sample period shorter than the one at start-up has no effect: the sampling function is registered
  once, with the default of 1000 ms (`SampleTiming.StartPeriodLimits`, `SampleTiming.StartPeriodIsDefault`).
- When the switch-on margin is not below the switch-off margin, the controller silently works with its
  defaults while the registers go on showing the written values (`AppModel.ControllerTakesMarginsIff`).
- At start-up the controller is initialised a second time, with the built-in defaults, so stored margins
  are not used after a restart unless they equal the defaults (`AppModel.RestartUsesStoredMarginsIff`).
- Unlike the scheduler, `app_task` processes twice at one moment when it comes exactly one period late
  (`AppModel.ProcessesTwiceIff`).
- A failing save is not reported over Modbus: the write is echoed and the register reads as written
  (`Registers.WriteThenRead`). A sample period of zero is answered with exception 2, where section 6.6
  has exception 3 for a bad value (`Registers.WriteEchoesIff`).
- A comment in src/bsp/stm32f1/uart.c (lines 195-196) says that a frame cannot be cut by the edge of the
  receive ring. It is cut exactly when the number of bytes received before it, modulo 256, plus its
  length exceeds 256 (`DmaReceiver.BurstIsWholeIff`; after 250 bytes an eight-byte request arrives as six
  and two, `DmaReceiver.RequestIsCut`). A request that is cut is lost without an answer
  (`ModbusTask.RequestServedIffWhole`).

## Model

| member | source | states |
|---|---|---|
| Lfsr.FeedIsInjective | src/service/modbus.c:18-29 | with the top feedback bit set, different registers stay different under any message |
| Lfsr.LoadAhead | src/service/modbus.c:18-29 | entering bits one per turn equals XORing them in first and turning afterwards: the byte loop computes the bit-serial code |
| Lfsr.FeedDifference | src/service/modbus.c:18-29 | the difference of two registers evolves by itself, whatever the message (linearity) |
| Lfsr.OwnRegisterClears | src/service/modbus.c:18-29 | exactly the register's own value, fed as a word, empties it |
| Lfsr.BurstChangesRegister | src/service/modbus.c:18-29 | messages of any length that differ only inside a window no wider than the register, and end in the same register, are equal |
| Lfsr.ShiftKeepsParity | src/service/modbus.c:22-28 | with an odd number of feedback bits a turn keeps the parity of the register |
| Lfsr.OddErrorsChangeRegister | src/service/modbus.c:18-29 | with such a feedback word an odd number of changed bits always changes the register |
| Words.BitsOfTurn | src/service/modbus.c:22-28 | shifting right and XORing the polynomial when a one falls out is one turn of the bit register |
| Words.ByteXor | src/service/modbus.c:20 | XORing a byte into the register changes its low eight bits by the byte's bits, lowest first |
| CrcLoop.Run | src/service/modbus.c:18-29 | for every width of a byte or more and every polynomial, the byte and bit loops compute the bit-serial register |
| DoubleErrors.CancellingPair | src/service/modbus.c:18-29 | in any code, two changed bits cancel exactly when a single one recurs after as many turns as they are apart |
| ModbusPeriod.SingleRecursIff | src/service/modbus.c:22-28 | under polynomial 0xA001 a single one recurs after k turns exactly when 32767 divides k |
| DoubleErrors.PairCancelsIff | src/service/modbus.c:18-29 | two changed bits cancel exactly when they are a multiple of 32767 bits apart, in messages of any length |
| Modbus.ModbusCrc16 | src/service/modbus.c:6-32 | the nested byte and bit loops compute the bit-serial register, whose start value and steps the next three rows fix |
| Modbus.CrcOfNothing | src/service/modbus.c:8 | the checksum of no data is 0xFFFF |
| Modbus.CrcOfNextByte | src/service/modbus.c:18-29 | the checksum of data with one more byte is that byte XORed in and eight shift-and-XOR steps with 0xA001 taken |
| Modbus.ZerosAreNoFrame | src/service/modbus.c:6-46 | because the start value is not zero, no frame of zeros, of any length, is valid |
| Modbus.FrameHasValidCrc | src/service/modbus.c:34-46 | true exactly for frames of at least three bytes that end in the checksum of the rest, low byte first |
| Modbus.ValidIffResidueZero | src/service/modbus.c:34-46 | a frame of at least three bytes is valid exactly when the checksum over the whole frame is zero |
| Modbus.BurstIsDetected | src/service/modbus.c:6-46 | a valid frame of any length, changed only inside a run of at most 16 bits (checksum included), is invalid |
| Modbus.OddErrorIsDetected | src/service/modbus.c:6-46 | so is one with any odd number of changed bits |
| Modbus.DoubleErrorPassesIff | src/service/modbus.c:6-46 | two changed bits pass exactly when their distance is a multiple of 32767, for every frame length |
| Modbus.UpToThreeErrorsAreDetected | src/service/modbus.c:6-46 | one to three changed bits are always noticed in frames of up to 4095 bytes (the protocol's limit is 256) |
| Modbus.ParseRequest | src/service/modbus.c:48-91 | the verdict in the order short, checksum, address, function, length; the caller's request is overwritten exactly when checksum and address fit |
| Modbus.ParseOfFrame | src/service/modbus.c:48-152 | a built frame is parsed back to the same address, function and payload; accepted exactly for functions 3 and 6 with 4 payload bytes; for another device it is refused and nothing is stored |
| Modbus.ValidFrameWasBuilt | src/service/modbus.c:34-46 | a frame of four bytes or more is valid exactly when it is the frame built from its own fields |
| Modbus.ParsedFrameWasBuilt | src/service/modbus.c:48-91 | nothing else is parsed: a request comes from a frame built from the fields it shows, addressed to this device or to all |
| Modbus.VerdictMeans | src/service/modbus.c:48-91 | what each verdict says of the frame: shorter than five bytes; not built from its own fields; for neither this device nor all; neither function 3 nor 6; not eight bytes long |
| Modbus.Seal | src/service/modbus.c:145-152 | checksum bytes are put behind a header and payload and make a frame; the rest of the buffer is untouched |
| Modbus.BuildResponse | src/service/modbus.c:115-153 | the frame at the front of the buffer and the rest untouched; length zero exactly when it does not fit, and what is then left in the buffer |
| Modbus.BuildException | src/service/modbus.c:155-176 | the five-byte exception frame with the high function bit set, or nothing when the buffer is too small |
| Dewpoint.DivRoundIsNearest | src/core/dewpoint.c:21-31 | the truncating C division with half the divisor added gives the nearest integer, halves away from zero |
| Dewpoint.DivRoundMonotone | src/core/dewpoint.c:21-31 | rounded quotients are ordered as the exact ones, across different divisors |
| Dewpoint.LogTable | tools/gen_dewpoint_lut.py:8-25 | the table has 101 entries, ascends from 1 to 100, from -4716 to 0 |
| LogTable.TableIsRoundedLog | tools/gen_dewpoint_lut.py:8-25 | every entry is the integer nearest to 1024 times the logarithm of p percent, by a margin of 0.0005 (entry 0: of a hundredth of a percent), for whatever function turns products into sums and lies below x - 1 |
| LogTable.Neighbours | tools/gen_dewpoint_lut.py:14 | any such function grows from n to n + 1 by between 1 / (n + 1) and 1 / n |
| LogTable.Primes2 | tools/gen_dewpoint_lut.py:14 | its values at 2, 3, 5 and 7, to within 0.00000015 |
| Dewpoint.LnRhMonotone | src/core/dewpoint.c:33-52 | interpolation is monotone over every humidity, through both clamps and across table entries, within -4716..0 |
| Dewpoint.InterpolationFitsInt32 | src/core/dewpoint.c:45-51 | for every humidity, the difference and the product of the interpolation, at the whole percents and the hundredths of the humidity itself, fit in 32 bits |
| Dewpoint.NoOverflow | src/core/dewpoint.c:21-87 | every intermediate value, the interpolation and the rounding addends included, fits in 32 bits and both denominators are positive, over the whole temperature domain |
| Dewpoint.DewPointVerdict | src/core/dewpoint.c:55-78 | a dew point is computed exactly for temperatures in range; the math error branches are never taken |
| Dewpoint.DewPointMonotone | src/core/dewpoint.c:55-107 | warmer or more humid air never has a lower computed dew point, through both rounded divisions, the interpolation and the clamps; and it never exceeds the air temperature |
| Dewpoint.DewPointAccuracy | src/core/dewpoint.c:70-107 | the result is within 4.2 hundredths of a degree of the exact rational formula at the humidity itself: between 1 % and 100 % the table interpolated by every hundredth, beyond them its end values; and both are kept between -40 degrees and the air temperature |
| Dewpoint.DewPointSaturated | src/core/dewpoint.c:70-107 | at 100 % humidity or more it is the air temperature or one hundredth less |
| Magnus.TableNearLog | src/core/dewpoint.c:33-52 | the interpolated table is at most half a unit above 1024 times the logarithm of the humidity itself (from 1 % to 100 %, beyond them of these) and at most 0.5 + 512 / (p (p + 1)) units below it, p being its whole percents |
| Magnus.DewPointNearMagnus | src/core/dewpoint.c:55-107 | the computed dew point is within 6.8 + 1270 / (p (p + 1)) hundredths of a degree of the Magnus formula with its published constants 17.27 and 237.7 and a true logarithm, the humidity kept to 1 % to 100 % and the result between -40 degrees and the air temperature |
| Magnus.ErrorFromThirtyPercent | src/core/dewpoint.c:55-107 | from 30 % humidity on that is at most 0.082 degrees |
| Filter.MaFilter.Init | src/core/filter.c:5-18 | the ring is zeroed and the window is empty |
| Filter.MaFilter.Update | src/core/filter.c:20-52 | the ring with its running sum is a sliding window of five; times the window's length, the result differs from the sum of its elements by less than that length, toward zero (with five written out when it is full); warm exactly when it is full |
| Filter.PushedIsLastFive | src/core/filter.c:26-39 | pushing keeps the last five of everything ever pushed |
| Filter.AverageOfFive | src/core/filter.c:41 | the average of a full window is the sum of its five values divided by five, rounded toward zero |
| Filter.AveragePermuted | src/core/filter.c:26-41 | the order of the samples in the window does not matter |
| Filter.SpikeIsDamped | src/core/filter.c:26-41 | a spike of d in one of five samples moves the average by at most d / 5 + 1 |
| Filter.AverageWithin | src/core/filter.c:41 | the truncated average stays within any bounds around zero that the samples keep |
| Filter.SumsFitInt32 | src/core/filter.c:26-34 | with samples in -4000..8500 the running sum and its intermediate values fit in 32 bits, and subtracting the oldest keeps it exact |
| Controller.Controller.Init | src/core/controller.c:47-91 | the controller becomes the initial one for the repaired configuration |
| Controller.Controller.InitExtended | src/core/controller.c:94-139 | boot by reset cause: controller and backup byte are those of the boot function |
| Controller.Controller.Classify | src/core/controller.c:111-138 | the crash count is saved, SAFE entered at three, cleared with the byte at power-on, cleared without it otherwise |
| Controller.Controller.ForceEmergencyShutdown | src/core/controller.c:142-153 | SAFE with the safe relay value, which is also driven to the output |
| Controller.Controller.Update | src/core/controller.c:156-247 | the whole step, with result code and backup byte, is the step function |
| Controller.Controller.RejectSample | src/core/controller.c:170-183 | an invalid sample advances the wrapping error streak and enters SENSOR_FAULT at the threshold |
| Controller.Controller.AdmitSample | src/core/controller.c:185-196 | a valid sample is held back while recovering and processed otherwise |
| Controller.Controller.Process | src/core/controller.c:195-246 | an accepted sample updates the filter; warming up keeps the relay safe |
| Controller.Controller.Decide | src/core/controller.c:216-246 | the dew point result decides fault, relay, crash counter and state |
| Controller.Controller.DriveRelay | src/core/controller.c:225-235 | hysteresis on the margin |
| Controller.Platform.RelaySet | src/platform/host/platform_host.c:41-44 | the output holds the value last set |
| Controller.Platform.BackupSave | src/core/platform_stubs.c:91-100 | the backup byte holds the value last saved |
| ControlHistory.EventsKeepSound | src/core/controller.c:47-247 | in every history of boots, reconfigurations, samples and power failures: never MATH_FAULT, samples and outputs in range, RUN only with a full window, and the safe relay value outside RUN |
| ControlHistory.NoOverflowInAnyRun | src/core/controller.c:198-225 | in every such history the next accepted sample causes no 32-bit overflow in the filter's sums, in any intermediate of the dew point, or in the margin, and both denominators are positive |
| ControlHistory.ControllerFollowsHistory | src/core/controller.c:156-247 | after any samples the state, relay, filter window, average, humidity, margin and streaks are the stated functions of the sample history |
| ControlHistory.InFaultIffFaulted | src/core/controller.c:170-195 | the step-wise fault rule means: at some point enough invalid samples in a row, and since then never enough valid ones in a row |
| ControlHistory.FaultIffHistory | src/core/controller.c:170-195 | the state is SENSOR_FAULT exactly then, even after the 8-bit streak has wrapped |
| ControlHistory.VerdictFollowsHistory | src/core/controller.c:170-213 | the returned and remembered error code: sensor error exactly for an invalid sample, not ready exactly while in fault, warm-up exactly before the fifth accepted sample, success exactly from then on |
| ControlHistory.StateFollowsHistory | src/core/controller.c:198-245 | outside a fault the state counts the accepted samples: as started before the first, WARMUP up to four, RUN from the fifth on |
| ControlHistory.CountersFollowHistory | src/core/controller.c:168-180 | the sample counter counts samples and the fault counter counts alarms of the wrapping streak, modulo 2^32 |
| ControlHistory.FilterFollowsHistory | src/core/controller.c:200 | the filter output is the sum of the last five accepted temperatures divided by five, rounded toward zero; before the fifth, that of all of them by their number |
| ControlHistory.RelayIsLatestDecision | src/core/controller.c:175-235 | the relay has the value of the latest decision in the history: forced safe, margin below on, or margin above off |
| ControlHistory.RelaySafeOutsideRun | src/core/controller.c:175-222 | outside RUN the relay has its safe value |
| ControlHistory.RelayAfter | src/core/controller.c:163-235 | whether the relay is on after a sample, in terms of the state before it: a relay that is on stays on unless the margin is too large or the error streak full; one that is off comes on exactly for an admitted sample that fills the window with too small a margin; SAFE is neither entered nor left |
| ControlHistory.Hysteresis | src/core/controller.c:225-235 | between switching on and switching off in RUN the margin has risen by more than the distance of the thresholds, which is positive |
| ControlHistory.RecoveryHolds | src/core/controller.c:186-195 | valid samples short of the recovery threshold leave filter and relay untouched, and the one that reaches it is processed |
| ControlHistory.SafeIsAbsorbing | src/core/controller.c:163-166 | no sequence of samples leaves SAFE or changes anything but the relay, which takes its safe value |
| ControlHistory.SafeIsLeftBy | src/core/controller.c:47-139 | SAFE is left exactly by a reconfiguration, by a boot of another cause, and by a watchdog boot that finds the byte at 0, 1 or 255 |
| ControlHistory.SaturatedRun | src/core/controller.c:198-245 | five or more samples at 100 % humidity bring the controller to RUN with the relay on |
| ControlLaws.RejectedIff | src/core/controller.c:25-44 | outside SAFE a sample is answered with a sensor error exactly when it is not marked valid, or is outside -40 to 85 degrees or above 100 % |
| ControlLaws.WorkingConfiguration | src/core/controller.c:47-70 | margins in order are used as requested, otherwise 5 and 7 degrees; thresholds are at least one, and no period is one second |
| ControlLaws.BootOutcome | src/core/controller.c:94-139 | state, error, fault count, crash count and backup byte after a boot by any cause; everything else is as initialised |
| BootHistory.CounterIsZeroOrBackup | src/core/controller.c:89-137 | in every history the counter in RAM is zero or equals the backup byte |
| BootHistory.BackupIsCrashCountIff | src/core/controller.c:107-241 | the byte is the count of watchdog boots since the last power-on or stable step (modulo 256) throughout a history, exactly when no stable step comes after a forgetting event with the count not zero and no power-on or watchdog boot between |
| BootHistory.BackupIsCrashCount | src/core/controller.c:107-241 | in histories of power-on and watchdog boots, samples and shutdowns, byte and RAM counter are that count, modulo 256 |
| BootHistory.BootLandsInSafeIff | src/core/controller.c:111-128 | after any history that misses no clear, a boot lands in SAFE exactly when it is a watchdog boot and the count, this boot included, is at least three modulo 256 |
| BootHistory.EndlessCrashesLeaveSafe | src/core/controller.c:111-128 | the n-th of consecutive watchdog boots lands in SAFE exactly when n modulo 256 is at least three: the wrapping byte ends SAFE |
| BootHistory.StableRunForgotten | src/core/controller.c:132-137 | counterexample to the promised count: RUN was reached between watchdog boots and the next one still lands in SAFE |
| Scheduler.DueIsTrue | src/app/scheduler.c:5-8 | the sign of the 32-bit difference answers truly while clock and deadline are less than 2^31 apart |
| Scheduler.Scheduler.Register | src/app/scheduler.c:21-51 | accepted exactly with a function, a period and room; appended, due at once, the others unchanged |
| Scheduler.Scheduler.RunOnce | src/app/scheduler.c:53-83 | every entry runs exactly when really due, once, in order of registration, and follows its timer on unbounded time |
| Scheduler.Scheduler.Rescheduled | src/app/scheduler.c:71-79 | the wrapped deadline is that of the unbounded timer |
| Scheduler.MainLoop | src/app/main_mcu.c:307-320 | for as long as the loop runs, with polls less than 2^31 ms apart, all entries follow their timers and exactly the due functions are called, in order |
| Scheduler.CallsAreExecutions | src/app/scheduler.c:61-80 | over any polls a function is called exactly as often as its timer executes |
| Scheduler.CallsOnSchedule | src/app/scheduler.c:61-80 | a freshly registered function is never called more often than periods have begun, and exactly as often when the polls hit every period |
| Scheduler.PollLeavesDeadlineAhead | src/app/scheduler.c:61-80 | after a poll the deadline is in (now, now + period], on its grid unless a whole period was missed, and then a full period ahead; polling again at once runs nothing |
| Scheduler.NextPollInWindow | src/app/scheduler.c:61-80 | the window in which the wrapping test is right is kept from poll to poll |
| Scheduler.RateBound | src/app/scheduler.c:42-79 | execution k, counted from zero, comes no earlier than k periods, for any polls |
| Scheduler.NoDriftIff | src/app/scheduler.c:71-79 | it has run floor(T / period) + 1 times after every poll, exactly when the polls hit every period |
| Scheduler.NoDriftUnderSteadyPolling | src/app/scheduler.c:71-79 | in particular when the first poll is in the first period and polls are at most one period apart |
| Scheduler.NeverMoreThanOncePerPeriod | src/app/scheduler.c:61-80 | drift or not, never more executions than periods begun |
| DmaReceiver.Receiver.Receive | src/bsp/stm32f1/uart.c:46-50 | the hardware writes a byte at its position in the ring |
| DmaReceiver.Receiver.Idle | src/bsp/stm32f1/uart.c:172-209 | what is handed over is the bytes since the last run, less a multiple of the ring size: no chunk, one, or two cut where the bytes cross the edge of the ring |
| DmaReceiver.StreamIntactIff | src/bsp/stm32f1/uart.c:183-206 | the delivered chunks with the waiting bytes are the received stream, exactly when fewer than 256 bytes arrive before every handler run; in any case they are a selection of it in order |
| DmaReceiver.BurstIsWholeIff | src/bsp/stm32f1/uart.c:186-206 | a burst of 1 to 255 bytes arrives as one chunk exactly when the bytes received before it, modulo 256, leave room for it before the edge; otherwise as two, cut at the edge |
| DmaReceiver.RequestIsCut | src/bsp/stm32f1/uart.c:193-205 | after 250 bytes an eight-byte request arrives as six bytes and two |
| DmaReceiver.RunLine | src/bsp/stm32f1/uart.c:172-209 | the ring with its handler delivers exactly these chunks for every interleaving of bytes and handler runs |
| ModbusServer.Server.Task | src/service/modbus_server.c:115-159 | the poll is the assembler function; event, request, parse error and the frame and error counters are those of the released frame, of the overflow, or unchanged |
| ModbusServer.Server.OnChunk | src/service/modbus_server.c:33-70 | event, request, parse error and counters follow from parsing the chunk |
| ModbusServer.Server.OnLineError | src/service/modbus_server.c:23-27 | a line error is counted and becomes a checksum event |
| ModbusServer.Server.ClearEvent | src/service/modbus_server.c:161-167 | no event and no parse error afterwards |
| ModbusServer.EventTells | src/service/modbus_server.c:33-70 | which verdict on a frame leads to which event, and to which of the two counters |
| ModbusServer.PollTakesSixteen | src/service/modbus_server.c:125-143 | short of an overflow a poll takes sixteen of the bytes on offer, or all if they are fewer |
| ModbusServer.FramesConserveBytesIff | src/service/modbus_server.c:125-156 | released frames followed by pending bytes are the bytes consumed, in order, exactly while the inputs never bring more than 256 bytes without a release; frames are never empty nor over 256 bytes |
| ModbusServer.OverflowsIff | src/service/modbus_server.c:125-151 | an overflow happens exactly when the inputs bring more than 256 bytes without a release |
| ModbusServer.PollsAccounted | src/service/modbus_server.c:125-156 | with overflows: each costs exactly 257 bytes, and everything else is in a frame or pending, in the order in which it was consumed |
| ModbusServer.ReleasedOnlyWhenIdle | src/service/modbus_server.c:145-156 | a frame is released exactly by a poll that finds no byte, with something pending and the silence over; it is all that was pending |
| ModbusServer.SilenceIsTrue | src/service/modbus_server.c:146-147 | on the wrapping clock the test measures the real silence |
| ModbusServer.DamagedFrameIsNoRequest | src/service/modbus_server.c:38-70 | a frame damaged by a burst of up to 16 bits, an odd number of bits or up to three bits never becomes a request |
| Logger.Logger.Push | src/service/logger.c:18-35 | a character is queued or, when the ring is full, dropped and counted |
| Logger.RingHolds256 | src/service/logger.c:18-35 | of any text the part that fits up to 256 waiting characters is queued, in order, and the rest counted |
| Logger.Logger.Pop | src/service/logger.c:37-53 | the oldest character, if any |
| Logger.Logger.WriteStr | src/service/logger.c:84-94 | of a text the part that fits is queued, the rest counted as dropped |
| Logger.Logger.WriteU32 | src/service/logger.c:96-116 | the decimal digits, most significant first, collected in ten cells |
| Logger.Logger.CollectDigits | src/service/logger.c:103-110 | at most ten digits, least significant first, none outside the buffer |
| Logger.Logger.WriteI32 | src/service/logger.c:136-149 | sign and magnitude, without overflow at the smallest number |
| Logger.Logger.WriteFixedMag | src/service/logger.c:151-164 | whole part, point, two decimals |
| Logger.Logger.WriteFixedCd | src/service/logger.c:166-176 | the same with a sign |
| Logger.Logger.Task | src/service/logger.c:189-201 | at most 32 characters move from queue to output, in order |
| Logger.Logger.Flush | src/service/logger.c:203-208 | it terminates, with an empty queue and everything written |
| Logger.LogConserves | src/service/logger.c:18-208 | over any run output and queue are the accepted characters in order, and offered = output + queued + dropped |
| Logger.OfferJoins | src/service/logger.c:84-94 | writing two texts in turn is writing them joined, even when the ring fills up between |
| Logger.SignedRoundTrip | src/service/logger.c:136-149 | the text of every int32 reads back as that number, in at most a sign and ten digits |
| Logger.FixedRoundTrip | src/service/logger.c:151-176 | the fixed-point text of every int32 reads back as that number and ends in a point and two digits |
| Logger.NumberSurvivesQueue | src/service/logger.c:136-149 | with room in the ring, the characters a number adds to the queue read back as it |
| Logger.FixedSurvivesQueue | src/service/logger.c:151-176 | the same for numbers of hundredths |
| Storage.CalcCrc32 | src/service/storage.c:7-24 | the byte and bit loops compute the complemented bit-serial register, whose start value and steps the next two rows fix |
| Storage.CrcOfNothing | src/service/storage.c:7-24 | the checksum of no data is zero: preset and final complement cancel |
| Storage.CrcOfNextByte | src/service/storage.c:11-21 | under the complement, one more byte is XORed in and eight shift-and-XOR steps with 0xEDB88320 taken |
| Storage.Validate | src/service/storage.c:48-66 | true exactly for the magic number, the size and the checksum of the first 24 bytes |
| Storage.Finalize | src/service/storage.c:113-123 | the record with its header and checksum filled in |
| Storage.ValidMeans | src/service/storage.c:48-66 | a record is valid exactly with magic number 0xCAFEBABE, size 28 and the checksum of its first 24 bytes as stored |
| Storage.HeaderAndDefaults | src/service/storage.c:26-46 | the header written is that magic number, version 1 and size 28; the default record is valid, with margins of 5 and 7 degrees and a period of one second |
| Storage.FinalizedValidates | src/service/storage.c:113-123 | finalizing makes any record valid and keeps its settings |
| Storage.PayloadLayout | include/service/storage.h:13-25 | every field is at its place in the 28 bytes, low byte first |
| Storage.RecordBytes | include/service/storage.h:13-25 | the same in numbers: which bytes are which digits to base 256 of each field |
| Storage.DecodeEncode | include/service/storage.h:13-25 | the 28 bytes carry every field of the record |
| Storage.EncodeDecode | include/service/storage.h:13-25 | and nothing else: any 28 bytes are the encoding of what they decode to |
| Storage.BurstIsDetected | src/service/storage.c:7-66 | a valid record changed only inside a run of at most 32 bits, checksum included, is not valid |
| Storage.LoadedValidates | src/service/storage.c:76-96 | whatever the flash holds, the loaded record is valid |
| Storage.LoadOutcome | src/service/storage.c:76-96 | loading succeeds exactly when one of the slots is usable; otherwise the defaults come with a not-ready error |
| Storage.SavedIsLoaded | src/service/storage.c:76-111 | a saved record is loaded back unchanged and the other slot is left alone |
| Storage.DamagedSlotFallsBack | src/service/storage.c:76-96 | after a burst in the first slot a usable second slot is loaded |
| Storage.Flash.Read | src/platform/host/platform_host.c:79-102 | the slot's bytes, or not found exactly when all are erased |
| Storage.Flash.WriteFirst | src/platform/host/platform_host.c:104-119 | slot 0 holds the record, slot 1 is unchanged, the write is counted |
| Storage.Flash.Load | src/service/storage.c:76-96 | the first usable slot, or the defaults with an error |
| Storage.Flash.Save | src/service/storage.c:98-111 | an invalid record is refused and writes nothing; a failing flash is reported |
| App.App.constructor | src/app/app.c:6-41 | start-up from the stored record or the defaults, output driven to the controller's relay |
| App.App.Task | src/app/app.c:86-128 | the sampling step with deadline, controller, relay output and result; what a failed read does is said by the rows of AppModel |
| App.App.UpdateConfig | src/app/app.c:64-84 | an invalid record changes nothing; a valid one is adopted, and reaches the controller, as AppModel.ConfigurationReachesController says, only when saved |
| App.App.JudgeReset | src/app/main_mcu.c:276-280 | the reset cause is judged after start-up, with the default configuration |
| App.App.BrownOut | src/core/controller.c:142-153 | the shutdown between two other calls, seen from the application |
| AppModel.StartIsOff | src/app/main_mcu.c:276-280 | after start-up relay and output are off, the deadline is zero, the flash is untouched, and the controller is that of a boot with the default configuration |
| AppModel.DueTaskSamples | src/app/app.c:98-126 | a call that is due takes the reading and otherwise moves nothing but the deadline |
| AppModel.FailedReadIsRejected | src/app/app.c:108-115 | a failed read, whatever sample it left, is a sensor error: window, average, humidity and dew point stay, the streak advances, and at the threshold the fault is entered with the relay safe |
| AppModel.SuccessfulReadIsTaken | src/app/app.c:108-117 | a successful read is the controller's step on its sample |
| AppModel.FailedReadsFault | src/app/app.c:108-115 | after any history of samples, as many failed reads in a row as the fault threshold end in SENSOR_FAULT with the relay safe |
| AppModel.ConfigurationReachesController | src/app/app.c:43-84 | a valid record that can be saved gives the controller its period (one second for zero), its margins if in order and otherwise 5 and 7 degrees, thresholds of three and the relay off as safe value; any other leaves the controller alone |
| AppModel.ConfigurationOutcome | src/app/app.c:64-84 | the three results and exactly when each is given; what is adopted, what both slots then hold, and that output and deadline stay |
| AppModel.RunIsControllerHistory | src/app/app.c:43-128 | over every run the controller inside the application goes through exactly the history of events the run consists of, so that the theorems about histories hold of it |
| AppModel.OutputFollowsController | src/app/app.c:43-126 | in every interleaving of sampling, reconfiguration and brown-outs, a call that processes a sample ends with the output equal to the controller's relay, although shutdown and reconfiguration bypass the remembered value |
| AppModel.StepTracksOutput | src/app/app.c:43-126 | the invariant behind it: output and remembered value agree, or the output is off and the next step will notice |
| Isolation.OwnShutdownIsolates | src/core/controller.c:142-153 | after the shutdown of the application's own controller the output is off and the state SAFE through every run in which no reconfiguration reaches the controller |
| Isolation.FirstSampleAfter | src/platform/stm32f1/platform_stm32f1.c:142-149 | if another controller was shut down, the first processed sample leaves SAFE unentered, switches the output on exactly if the relay was off and the sample is admitted into a full window with a margin below the threshold, and leaves output and relay different exactly if the relay was on and the sample does not switch it off |
| Isolation.OutputStaysOffIff | src/platform/stm32f1/platform_stm32f1.c:142-149 | then, over any run of sampling, reconfigurations and further interrupts, the output stays off exactly if no sample switches the running controller's relay from off to on |
| Isolation.StartIsLinked | src/app/main_mcu.c:276-280 | every start-up state satisfies the invariant under which these runs are judged |
| Isolation.OutputIsLit | src/app/app.c:117-126 | in every such run the output is on exactly if the relay was switched on after the latest interrupt and has not been switched off or reset since |
| Isolation.ForeignFailLosesOutput | src/platform/stm32f1/platform_stm32f1.c:142-149 | in saturated air, with the relay on, the output stays off while the controller's relay is on |
| Isolation.ForeignFailSwitchesOn | src/platform/stm32f1/platform_stm32f1.c:142-149 | in saturated air, with the relay off, the sample after the interrupt switches the output on, in RUN |
| AppModel.SamplingIsTrue | src/app/app.c:98-106 | on the wrapping clock a sample is processed exactly when really due, and the deadline moves as on true time |
| SampleTiming.RunIsTrue | src/app/app.c:98-106 | over every run of calls less than 2^31 ms apart, with reconfigurations and brown-outs between, the application on the wrapping clock does exactly what it would on a clock that never wraps |
| SampleTiming.ProcessedIffDue | src/app/app.c:98-106 | and its next call processes a sample exactly if one is really due |
| SampleTiming.OwnPeriodPaces | src/app/app.c:102-106 | without reconfigurations sample k, counted from zero, comes no earlier than k periods |
| SampleTiming.StartPeriodLimits | src/app/main_mcu.c:301-303 | called by the scheduler, sample k comes no earlier than k times the period at registration, whatever is configured later, and at most one sample is processed for every such period begun |
| SampleTiming.StartPeriodIsDefault | src/app/main_mcu.c:276-303 | that period is 1000 ms, whatever is stored, and the first deadline is at zero |
| AppModel.ProcessesTwiceIff | src/app/app.c:98-106 | a second call at the same moment processes again exactly when the first came one whole period late |
| AppModel.ControllerTakesMarginsIff | src/core/controller.c:55-58 | the controller runs with the requested margins exactly when they are in order |
| AppModel.RestartUsesStoredMarginsIff | src/app/main_mcu.c:276-280 | after a restart the stored record is back but the controller uses its margins exactly when they are the defaults |
| AppModel.FreshDeviceUsesDefaults | src/app/app.c:14-30 | without a usable stored record the controller starts with its own defaults, and the record shown is valid |
| AppModel.ReconfigurationLeavesSafe | src/app/app.c:43-84 | a controller in SAFE stays there exactly when the configuration is invalid or cannot be saved |
| Registers.ReadInto | src/service/modbus_regs.c:27-95 | success exactly for a legal quantity that fits and whose registers all exist; the bytes are theirs, and nothing before the offset or behind the capacity changes |
| Registers.ReadBytesIff | src/service/modbus_regs.c:48-92 | a read succeeds exactly when its range lies in 0x0000-0x0007 or 0x0100-0x0102; wrapping addresses never help |
| Registers.ReadBytesAt | src/service/modbus_regs.c:21-92 | each register appears at its place, high byte first |
| Registers.ResponsesAreWellFormed | src/app/main_mcu.c:94-182 | for every request the response is a valid frame of 5 to 255 bytes with the request's address and its function code, or that code with its high bit set |
| Registers.ReadAnswersIff | src/app/main_mcu.c:105-146 | a read is answered with data exactly for 1 to 125 existing registers, carries their values, and changes nothing |
| Registers.ReadIsRefused | src/app/main_mcu.c:105-146 | a read of no register or of more than 125 is refused with exception 3, one of registers that do not all exist with exception 2; a valid frame of five bytes, and nothing changes |
| Registers.OthersAreRefused | src/app/main_mcu.c:94-194 | other functions are refused with exception 1, requests of another length with exception 3 |
| Registers.WriteEchoesIff | src/app/main_mcu.c:149-178 | a write is echoed exactly when register and value are writable; otherwise it is refused with exception 2 and changes nothing |
| Registers.WriteThenRead | src/app/main_mcu.c:52-92 | after a successful write the register holds the value, saved or not, and the other configuration registers are as before |
| Registers.WrittenRegisterIsRead | src/app/main_mcu.c:94-182 | the same over the wire: a write frame, then a read frame, returns the written value |
| Registers.SettingsAreLatestWrites | src/app/main_mcu.c:52-92 | over any interleaving of sampling, brown-outs and requests, each setting is the value of the latest accepted write to it |
| Registers.RegisterReadsLatestWrite | src/app/main_mcu.c:94-182 | and that is what reading its register over the wire returns |
| Registers.WritesAreInForce | src/app/app.c:43-84 | with flash, from the first accepted write on, the controller works with the latest values written, through any interleaving of sampling, brown-outs and requests |
| Registers.WrittenPeriodPaces | src/app/app.c:98-106 | and the period written last paces the sampling: the next processed sample moves the deadline on by it, or to it after now when a whole period was missed |
| Registers.RegistersAreExact | src/app/main_mcu.c:31-50 | in every sound state each register at its address shows the application's value: signed temperatures, humidity, relay, the number of the state, uptime in two halves and the settings; only the fault count loses its high half |
| Registers.RegistersAreExactInRuns | src/app/main_mcu.c:31-50 | so they lose nothing of the measurements in any run from start-up, with requests interleaved |
| Registers.DeviceFollowsController | src/app/main_mcu.c:94-211 | in every run from start-up of sampling, brown-outs and requests, a call that processes a sample ends with output and relay equal |
| Registers.ServeTracksOutput | src/app/main_mcu.c:94-182 | serving a request keeps the relay output tracked |
| ModbusTask.Mcu.Sync | src/app/main_mcu.c:31-50 | the register map shows the application and the diagnostics |
| ModbusTask.Mcu.Read | src/app/main_mcu.c:105-146 | the response buffer holds the specified answer to a read |
| ModbusTask.Mcu.Write | src/app/main_mcu.c:149-178 | the response buffer holds the specified answer to a write, and the application has adopted it |
| ModbusTask.Mcu.Apply | src/app/main_mcu.c:52-92 | the changed record is finalized and submitted; the outcome of saving is not reported |
| ModbusTask.Mcu.Handle | src/app/main_mcu.c:94-194 | one request: the application and the bytes sent are those of the service function |
| ModbusTask.Mcu.Poll | src/app/main_mcu.c:225-259 | only a request event is served, every event is cleared |
| ModbusTask.Mcu.OnFrame | src/service/modbus_server.c:33-70 | from the line to the reply: an accepted request is served, anything else is ignored |
| ModbusTask.Mcu.OnChunks | src/service/modbus_server.c:33-70 | of several chunks in one interrupt the last one decides what is served |
| ModbusTask.RequestServedIffWhole | src/bsp/stm32f1/uart.c:183-206 | an acceptable request between two pauses is served exactly when it does not cross the edge of the receive ring; otherwise it is lost without an answer |
| ModbusTask.RepliesThroughRing | src/bsp/stm32f1/uart.c:183-206 | over every conversation of messages between pauses the application and the replies are those of the messages that do not cross the edge of the ring, in order |
| ModbusTask.EveryRequestIsHeard | src/bsp/stm32f1/uart.c:183-206 | a line that has carried only eight-byte messages, as all requests are, loses none |
| ModbusTask.EightByteMessagesAreWhole | src/bsp/stm32f1/uart.c:183-206 | after any other number of bytes exactly one in 32 is cut |
| ModbusTask.CleanMessages | src/service/modbus.c:48-91 | no proper tail of a request is taken for a request |
| ModbusTask.DamagedFrameIsIgnored | src/service/modbus.c:48-91 | a request damaged in transit changes nothing and is not answered |
| ModbusTask.WriteFrameIsEchoed | src/app/main_mcu.c:149-178 | a write frame to this device or to all is answered by the same bytes and adopted; one to another device changes nothing |

## Left out

- Modbus.UpToThreeErrorsAreDetected: the limit of 4095 bytes is that of the checksum itself; beyond it `Modbus.DoubleErrorPassesIff` says which double errors pass.
- LogTable.TableIsRoundedLog: takes the logarithm as whatever function has the two laws that determine it; that such a function exists is not proved; the generator's floating-point arithmetic is not modelled, but no exact value is within 0.0005 of a half.
- App.App.BrownOut: shuts down the application's own controller; that the interrupt's `g_app_controller` is that object is an assumption, made here and in `AppModel.OutputFollowsController` and the run theorems of `Registers`. The module `Isolation` says what happens without it.
- BootHistory.BackupIsCrashCount: excludes resets of other causes and reconfigurations, for which it is false; `BootHistory.BackupIsCrashCountIff` gives the exact condition for all histories.
- Hardware registers, clock set-up, interrupt controller, voltage detector, independent watchdog, start-up code and driver-enable pin: no logic to prove. The reset cause and the DMA counter are inputs.
- The STM32 flash driver: its write stores nothing, so saving is modelled on the two-slot mock flash, and on a platform without flash.
- DMA transmission and the lifetime of the response buffer: a response is the bytes handed to the transmitter. The request's pointer into the receive ring is modelled by copying the bytes.
- Interrupts in the middle of a controller or application call: the code has no locking; brown-out, received chunks and polls are whole calls in any order.
- The call of the polled server inside the firmware's Modbus poll: there it has no receive function and returns at once. With a receive function it is modelled by `ModbusServer.Server.Task`, whose input is the bytes available in that poll.
- The received-byte counter of the server: it counts polled bytes twice, so it has no single meaning. Dropped, overflow, frame and error counters are kept modulo 2^32.
- Suppression of replies to broadcasts: the code answers address 0 like any other, and so does the model.
- Branches for null arguments (except the null function in `Scheduler.Scheduler.Register`), and a null payload with a length.
- The exception for a response that does not fit its buffer: with at most 125 registers it always fits.
- Function pointers and contexts of scheduled functions: represented by numbers, and calls by the sequence of numbers called; their names are dropped.
- The register map is one field holding a value that is replaced as a whole, not a structure shared by pointer.
- Sensors, I2C, string tables, log messages and levels, the padded printer, diagnostics counters (two of them are inputs of the register map) and watchdog tickets: they hold no logic on which these properties turn.
