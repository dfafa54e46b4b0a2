# Verified model of the inverter bridge firmware

The firmware polls solar inverters over Modbus RTU, publishes what it reads, and keeps a log
that survives reboots. This project models its four stateful cores in Dafny and proves what they
promise, for every input, every run and every reachable state.

* **The log store** (`Log*.dfy`): two segments in one byte array that survives reboots. `LogStore`
  holds the classes whose methods overwrite the bytes and the ring fields in place; `LogFormat`
  says what the bytes mean; `LogTape` sees a segment as the list of every entry ever appended, the
  oldest of which are gone; `LogSegment` keeps bytes, fields and tape in step; `LogSpec` states
  each operation on tapes; `LogRuns`, `LogReads` and `LogCapture` prove what holds over whole runs,
  for readers among writers, and for the capture window; `LogWitnesses` holds the runs in which the
  store does less than its comments say; `LogSessions` runs lines and reboots on the bytes; `LogDump`
  interleaves writes and reads on the bytes and is the download loop.
* **The Modbus transaction** (`Modbus*.dfy`): `ModbusCrc` is the checksum as a serial register,
  `ModbusOrbit` its exact period, `ModbusErrors` the transmission errors it cannot miss,
  `ModbusChecksum` the buffer loops, and `ModbusClient` request, response, and retries. The wire
  format is that of MODBUS over Serial Line V1.02 (sections 2.5.1.2 and 6.2.2) and MODBUS
  Application Protocol V1.1b3 (sections 6.3 and 6.4).
* **The described device** (`Device*.dfy`): `DeviceSchema` is the loader's validation,
  `DeviceNumbers` its integer parsers, `DeviceValues` the meaning of words, sentinels and bits,
  `DeviceReads` the readers, and `DevicePhases` what validation buys the readers.
* **The availability machine** (`Poller.dfy`): when the poller says online or offline.

`dafny verify dfyconfig.toml` checks the whole project.

## How the model relates to the code

Each critical section is one atomic step. Capacities are symbolic: any multiple of 4 that holds two
of the largest records and stays below 64 KiB; the shipped values are 5120 and 2048
(`include/constants.h:104`, `include/constants.h:120`). `Store.Ready` is what every state reached
from a cold start satisfies; `Store.Sane` is all that is known of a region `begin` merely accepts.
Every write path is proved twice: from `Ready` it does exactly what `LogSpec` says, and from `Sane`
it still terminates, stays inside its own segment and keeps the fields in range. 16- and 32-bit
wrap-around is written out where the code has it (`roundUp4`, record sizes, sequence numbers, the
eviction counter, timestamps, elapsed time).

Where the code and its own comments disagree, the model follows the code:

* The reader's overrun test compares only the bytes in use with the bytes still owed; the sequence
  number taken at `openRead` is never looked at. The flag has no false alarms, but misses laps.
  `LogReads.FlaggedExactly` says which it notices, `LogReads.LapsMissed` gives the blind spot, and
  `LogWitnesses.LapMissedWitness` runs into it from a cold start, in segments of every size.
* The `dropped` counter, reported as records, also counts evicted fillers.
  `LogStore.Store.DroppedCounts` says when it is right, `LogWitnesses.FillerLostWitness` when it is not.
* The boot segment does not stop when it first refuses a line; a shorter line can still enter, as in
  `LogWitnesses.RefusedThenStored`. `LogRuns.BootStopsWhen` gives the exact point at which it has stopped.
* A response's slave address and function code are not compared with the request, and bytes behind
  its words are tolerated: `ModbusClient.SenderIsNotChecked`. `ModbusClient.AcceptedReplies` says
  which replies are read as data, `ModbusClient.AcceptedIsAskedIff` which of those were asked for.
* The waits of a failed three-attempt read add up to 300 ms, not to the 600 ms of
  `lib/modbus_client/include/ModbusClient.h:56-57`: `ModbusClient.Client.ReadWithRetry`.
* Behind "0x" the loader takes blanks, a sign and a second prefix, which `docs/CUSTOM_DEVICES.md:17`
  rules out. `DeviceNumbers.HexIsExact` gives the language, `DeviceNumbers.HexIsDocumentedIff` where it
  is the documented one.
* A failed load leaves what it had parsed in the device, so that the same device cannot load the
  corrected file if a register of it was already taken: `DeviceReads.Device.Begin`,
  `DeviceSchema.LeftoversClash`. The poller avoids this by making a new device for each try.
* The loader accepts groups, and two-word registers, that run past the last register address, and no
  read of them can succeed: `DevicePhases.EntryReadsIffInRange`.

## Model

| member | source | states |
|---|---|---|
| LogFormat.AdvanceIsMod | lib/log_store/src/LogStore.cpp:143-183 | the remainder by which positions move goes round at most once |
| LogFormat.EntryReads | lib/log_store/src/LogStore.cpp:85-119 | whatever was encoded at a position is what the raw reader finds there, with its size and inside the segment |
| LogFormat.RecordLayout | lib/log_store/src/LogStore.cpp:85-99 | the bytes of a stored record: length, level, flags and time at their places, low byte first, then the body, then zeros up to a multiple of four |
| LogFormat.WalkReads | lib/log_store/src/LogStore.cpp:102-119 | walking raw bytes over any laid-out run, with no knowledge of what was written, recovers the run exactly |
| LogFormat.LaidFrame | lib/log_store/src/LogStore.cpp:150-185 | writing behind the live run, within the free space, leaves every live entry's bytes intact |
| LogTape.Trim | lib/log_store/src/LogStore.cpp:131-147 | eviction stops at the first entry that leaves the room asked for; all it removed had to go |
| LogTape.TrimTwice | lib/log_store/src/LogStore.cpp:158-170 | the two evictions of the tail-gap branch together remove no more than one eviction for filler and record would |
| LogTape.SameEviction | lib/log_store/src/LogStore.cpp:150-170 | clearing space and then writing yields the tape on which the entries were added first and the least evicted after |
| LogTape.AppendedIsMinimal | lib/log_store/src/LogStore.cpp:131-185 | after an append the survivors fit, the new record is among them, and keeping any evicted entry would overflow |
| LogTape.AppendKeepsTape | lib/log_store/src/LogStore.cpp:150-185 | every append keeps entries aligned and unsplit, the live bytes within capacity, and a segment that has evicted filled to within 168 bytes |
| LogTape.OneFiller | lib/log_store/src/LogStore.cpp:155-168 | at most one filler is live at a time |
| LogTape.Retention | lib/log_store/src/LogStore.cpp:131-185 | the newest k records are live, or all there are, for every k with 168 (k + 1) at most capacity + 4 |
| LogTape.LiveIsSuffix | lib/log_store/src/LogStore.cpp:131-147 | the live records are a suffix of all ever appended |
| LogTape.Conservation | lib/log_store/src/LogStore.cpp:131-147 | records appended plus fillers written equals entries live plus entries evicted, and the evicted are records and fillers |
| LogSpec.Clipped | lib/log_store/src/LogStore.cpp:353-361 | the record a message becomes is never longer than 160 bytes and never looks like a filler |
| LogSpec.WriteExtends | lib/log_store/src/LogStore.cpp:346-379 | a log call only adds at a segment's end and only evicts from the rolling segment's front |
| LogSpec.WriteKeepsReader | lib/log_store/src/LogStore.cpp:346-379 | a write leaves what an open reader still owes unchanged, and never un-laps it |
| LogSpec.ReadStep | lib/log_store/src/LogStore.cpp:423-491 | a read either yields a record and moves forward or ends the tour; segments are visited in order |
| LogSegment.TapeTakes | lib/log_store/src/LogStore.cpp:172-184 | storing an entry's bytes behind the live run takes it into the tape and keeps all else |
| LogSegment.GoodPlace | lib/log_store/src/LogStore.cpp:172-184 | writing a record keeps bytes, fields and tape in step |
| LogSegment.GoodFill | lib/log_store/src/LogStore.cpp:162-167 | filling a tail keeps them in step, with or without room for a filler header |
| LogSegment.GoodPop | lib/log_store/src/LogStore.cpp:133-145 | in a well-formed ring the measured size of the oldest entry is positive and within use, and dropping it keeps the ring well formed |
| LogSegment.ReadFacts | lib/log_store/src/LogStore.cpp:453-489 | at every entry not yet evicted the raw bytes say exactly that entry and where the next one starts |
| LogStore.Ring.Reset | lib/log_store/src/LogStore.cpp:121-128 | empties a segment in place |
| LogStore.Store.ReadHdr | lib/log_store/src/LogStore.cpp:85-91 | reads the header fields that lie at a position |
| LogStore.Store.WriteHdr | lib/log_store/src/LogStore.cpp:93-99 | writes a header and nothing else |
| LogStore.Store.RecordSizeAt | lib/log_store/src/LogStore.cpp:102-119 | the size of whatever lies at a position, for any bytes, in 16-bit arithmetic |
| LogStore.Store.WriteRecord | lib/log_store/src/LogStore.cpp:172-181 | the segment afterwards is the old one with the encoded record, zero padding included, at its place |
| LogStore.Store.Evict | lib/log_store/src/LogStore.cpp:131-147 | terminates on any bytes and frees the room asked for; on a well-formed ring never takes the salvage reset, evicts the least it must and counts it |
| LogStore.Store.GiveUpTail | lib/log_store/src/LogStore.cpp:158-168 | turns a short tail into a filler after evicting what lay in it; on garbage stays inside the segment |
| LogStore.Store.MakeRoom | lib/log_store/src/LogStore.cpp:153-170 | leaves the room asked for free and contiguous, evicting the least |
| LogStore.Store.AppendCircular | lib/log_store/src/LogStore.cpp:150-185 | on a well-formed ring performs exactly the tape's append and counts the evicted; on any accepted ring keeps the fields in range and touches only its own segment |
| LogStore.Store.AppendBoot | lib/log_store/src/LogStore.cpp:191-214 | stores a record exactly when it fits behind the rest; no byte already written changes, and a refusal changes nothing |
| LogStore.Store.ShouldCapture | lib/log_store/src/LogStore.cpp:333-344 | the capture policy |
| LogStore.Store.KeepRecord | lib/log_store/src/LogStore.cpp:363-378 | a captured record goes to the end of exactly one segment |
| LogStore.Store.Sink | lib/log_store/src/LogStore.cpp:346-389 | one log line has exactly its specified effect on both segments, the window and the counters; boot bytes already written never change, whatever the state |
| LogStore.Store.Revalidate | lib/log_store/src/LogStore.cpp:276-303 | a reachable region keeps its rolling history; a region that fails the test starts cold; both empty the boot segment and close the window |
| LogStore.Store.Begin | lib/log_store/src/LogStore.cpp:276-331 | on a reachable region a reboot adds its marker to both segments and one to the boot count; on a region with another magic number, version, base, capacity or a field out of range it is a cold start; on any other it stays in range |
| LogStore.Store.OpenRead | lib/log_store/src/LogStore.cpp:391-403 | a new cursor stands at the start of the boot segment's snapshot |
| LogStore.Store.ReadRaw | lib/log_store/src/LogStore.cpp:453-490 | one raw read, for any bytes: makes progress and never returns more than 160 bytes |
| LogStore.Store.Turn | lib/log_store/src/LogStore.cpp:423-491 | one turn of the read loop, with its termination measure and when overrun is raised |
| LogStore.Store.Next | lib/log_store/src/LogStore.cpp:405-495 | for a reader not lapped, exactly one read of its snapshot; for one just lapped, overrun exactly when less is in use than it owes; terminates on any bytes |
| LogStore.Store.ReachableIsAccepted | lib/log_store/src/LogStore.cpp:278-285 | every reachable region passes the validity test, so history is never wiped for nothing |
| LogStore.Store.RollingBytesDecode | lib/log_store/src/LogStore.cpp:102-185 | the raw rolling bytes decode to exactly the entries not evicted, newest last; positions agree and are 4-aligned |
| LogStore.Store.BootBytesDecode | lib/log_store/src/LogStore.cpp:191-214 | the raw boot bytes decode to exactly what was stored |
| LogStore.Store.DroppedCounts | lib/log_store/src/LogStore.cpp:131-147 | in 32-bit arithmetic the counter is records plus fillers appended minus entries live, which is records lost plus fillers lost; it equals the records lost if and only if no fillers were lost |
| LogStore.Store.CursorSurvivesSink | lib/log_store/src/LogStore.cpp:346-379 | a cursor stays valid across any write between its reads |
| LogRuns.StepKeepsView | lib/log_store/src/LogStore.cpp:276-389 | each line and each reboot keeps the invariant of both segments |
| LogRuns.RunKeepsView | lib/log_store/src/LogStore.cpp:276-389 | so does every run |
| LogRuns.RollingHistory | lib/log_store/src/LogStore.cpp:346-379 | over any run, reboots included, the rolling tape has received exactly the captured records the boot segment did not take, in order |
| LogRuns.BootHistory | lib/log_store/src/LogStore.cpp:191-214 | within a session the boot segment only grows, by exactly the records it took, in order |
| LogRuns.LineBecomes | lib/log_store/src/LogStore.cpp:351-361 | a line becomes a record of its own level and time with the first 160 bytes of its text, flagged as truncated if there were more |
| LogRuns.LineKept | lib/log_store/src/LogStore.cpp:333-379 | at the end of every run, a line with a text adds exactly one record, its own, if it is a warning or an error, comes within the first minute, or within the capture window, and none otherwise |
| LogRuns.BootLineStored | lib/log_store/src/LogStore.cpp:302-330 | a reboot stores its line in both segments as an INFO record of time 0, up to 159 bytes of it, and closes the window |
| LogRuns.SequenceNumber | lib/log_store/src/LogStore.cpp:363-378 | over any run the sequence number counts the records stored, in 32-bit arithmetic, a boot line for both its copies |
| LogRuns.BootStopsWhen | lib/log_store/include/LogStore.h:21-27 | from a moment on nothing can enter the boot segment for the rest of the session if and only if the boot window is over or not even an empty record fits |
| LogRuns.LiveHistory | lib/log_store/src/LogStore.cpp:150-185 | after any run from cold, the live rolling records are the newest part of everything the segment was given, and at least the newest k |
| LogRuns.NewestElevenSurvive | include/constants.h:104-120 | with the shipped sizes the newest eleven records survive any storm |
| LogRuns.RebootKeepsTail | lib/log_store/src/LogStore.cpp:300-330 | a reboot leaves only its marker in the boot segment and the newest records plus its marker in the rolling one |
| LogReads.ReadTakesNext | lib/log_store/src/LogStore.cpp:423-491 | each read yields the first record the reader owes, if it owes any |
| LogReads.DrainReadsAll | lib/log_store/src/LogStore.cpp:391-510 | with no writer in between a reader gets every boot record, then every live rolling record, once each, in order, and no filler |
| LogReads.ReadStaysOnCourse | lib/log_store/src/LogStore.cpp:423-491 | a read moves one record from what is owed to what has been got |
| LogReads.TourOnCourse | lib/log_store/src/LogStore.cpp:391-491 | a reader among any number of writes, not lapped at a read, has at every moment exactly a prefix of its two snapshots |
| LogReads.FinishedTourIsComplete | lib/log_store/src/LogStore.cpp:391-491 | and has all of both when it ends |
| LogReads.QuietTour | lib/log_store/src/LogStore.cpp:391-491 | with nobody writing a reader is never lapped and its rolling snapshot is all that was live |
| LogReads.FlaggedIsLapped | lib/log_store/src/LogStore.cpp:444-451 | no false alarms: a flagged reader has lost an entry it still owed |
| LogReads.FlaggedExactly | lib/log_store/src/LogStore.cpp:444-451 | a reader is flagged if and only if it is lapped and more bytes were evicted past it than written since its snapshot |
| LogReads.LapsMissed | lib/log_store/src/LogStore.cpp:444-451 | a lapped reader that owes at most capacity less 168 bytes is never flagged |
| LogWitnesses.LapMissedWitness | lib/log_store/include/LogStore.h:79 | for segments of every size and every boot line: a cold start and a sequence of reads and writes after which the reader is lapped and not flagged |
| LogWitnesses.FloodEvicts | lib/log_store/src/LogStore.cpp:131-185 | from any state a run can reach, as many long lines as the rolling segment has bytes evict all that was there |
| LogWitnesses.FillerLostWitness | lib/log_store/src/LogStore.cpp:131-147 | for segments of every size and every boot line: a cold start and lines after which a filler is among what is gone |
| LogWitnesses.RefusedThenStored | lib/log_store/src/LogStore.cpp:191-214 | for segments of every size and every boot line: a cold start and lines after which the boot segment refuses a long line and then takes a shorter one |
| LogSessions.Serve | lib/log_store/src/LogStore.cpp:276-389 | any lines and reboots on one store whose memory did not survive: it ends where the specification does, and its raw rolling bytes decode to the newest part of all that segment was given, with the retention bound |
| LogDump.WriteOne | lib/log_store/src/LogStore.cpp:346-389 | a write keeps store, cursor and tour in step |
| LogDump.ReadOne | lib/log_store/src/LogStore.cpp:405-510 | so does a read, and what it yields from the bytes is what the tour yields |
| LogDump.Interleave | lib/log_store/src/LogStore.cpp:346-510 | any sequence of writes and reads on one store: a reader not lapped has got, from the raw bytes, exactly a prefix of its two snapshots; overrun is reported only for a lapped one |
| LogDump.Dump | lib/webui/src/WebUI.cpp:546-569 | the download loop, with anything written before each read: it ends on any accepted memory; on a reachable region, unless lapped, it gets every record of both snapshots once each and in order and reports no overrun; with nobody writing that is all that is live |
| LogCapture.RearmingsApart | lib/log_store/src/LogStore.cpp:381-388 | re-armings are a minute or more apart, under any storm of errors |
| LogCapture.WindowIsLastRearming | lib/log_store/src/LogStore.cpp:381-388 | over any session in time order the two window words are the last re-arming and its end |
| LogCapture.LinesCaptured | lib/log_store/src/LogStore.cpp:333-389 | over any session in time order a line is captured if and only if it is a warning or an error, or within the first minute, or less than ten seconds after a re-arming error |
| LogCapture.EverySession | lib/log_store/src/LogStore.cpp:302-389 | so it is in every session, whatever the rolling segment held when it started |
| ModbusCrc.SerialIsShifts | lib/modbus_client/src/ModbusClient.cpp:465-486 | up to sixteen bits taken in one by one equal the whole word taken in at once and shifted through |
| ModbusCrc.SerialInjective | lib/modbus_client/src/ModbusClient.cpp:465-486 | the register is recoverable from any later state and the bits in between |
| ModbusOrbit.PeriodIsExact | lib/modbus_client/src/ModbusClient.cpp:474-481 | the register returns to where it was after exactly the multiples of 32767 steps |
| ModbusErrors.BurstsDetected | lib/modbus_client/src/ModbusClient.cpp:465-499 | two different frames of any one length that differ only within sixteen consecutive bits are never both accepted |
| ModbusErrors.IntactIsEven | lib/modbus_client/src/ModbusClient.cpp:465-499 | every accepted frame has an even number of one bits |
| ModbusErrors.OddErrorsDetected | lib/modbus_client/src/ModbusClient.cpp:465-499 | two frames that differ in an odd number of bits are never both accepted |
| ModbusErrors.TwoErrorsExactly | lib/modbus_client/src/ModbusClient.cpp:465-486 | two wrong bits go unseen if and only if they are a multiple of 32767 bits apart |
| ModbusErrors.UpToThreeErrorsDetected | lib/modbus_client/src/ModbusClient.cpp:465-499 | up to three wrong bits are always seen in frames up to 4095 bytes |
| ModbusErrors.SeventeenMissed | lib/modbus_client/src/ModbusClient.cpp:465-499 | sixteen and three are exact: wherever seventeen bits fit into a frame, four errors within them give another frame with the same checksum |
| ModbusChecksum.TakeByte | lib/modbus_client/src/ModbusClient.cpp:471-482 | the inner loop takes the byte's bits in one by one, lowest first |
| ModbusChecksum.CalculateCRC | lib/modbus_client/src/ModbusClient.cpp:465-486 | the nested loops compute the serial register over the whole buffer |
| ModbusChecksum.StuckLineRefused | lib/modbus_client/src/ModbusClient.cpp:465-499 | no frame of zero bytes alone, of any length, is accepted |
| ModbusChecksum.StandardExample | lib/modbus_client/src/ModbusClient.cpp:465-486 | the checksum of 02 07 is 0x1241, as in section 6.2.2 of MODBUS over Serial Line V1.02 |
| ModbusChecksum.StartIsForced | lib/modbus_client/src/ModbusClient.cpp:467 | of all start values only 0xFFFF gives that checksum |
| ModbusChecksum.IntactIffTrailer | lib/modbus_client/src/ModbusClient.cpp:488-499 | the trailing bytes match the checksum if and only if the checksum of the whole frame is zero |
| ModbusChecksum.ValidateCRC | lib/modbus_client/src/ModbusClient.cpp:488-499 | accepts exactly the frames of three bytes or more that leave nothing |
| ModbusClient.RequestFrame | lib/modbus_client/src/ModbusClient.cpp:519-543 | every request is eight bytes and passes the receiver's check |
| ModbusClient.RequestLayout | lib/modbus_client/src/ModbusClient.cpp:519-543 | the bytes of a request: slave, function, address and count high byte first, checksum low byte first |
| ModbusClient.RequestExample | lib/modbus_client/src/ModbusClient.cpp:519-543 | the eight bytes of a read of holding register 0 of slave 1 |
| ModbusClient.RequestRoundTrip | lib/modbus_client/src/ModbusClient.cpp:519-543 | a slave reads from the frame exactly the request that was built |
| ModbusClient.Parsed | lib/modbus_client/src/ModbusClient.cpp:545-587 | a response yields as many words as were asked for or none |
| ModbusClient.PayloadLayout | lib/modbus_client/src/ModbusClient.cpp:579-584 | word i is bytes 3 + 2i and 4 + 2i of the response, high byte first |
| ModbusClient.AnswerRoundTrip | lib/modbus_client/src/ModbusClient.cpp:545-587 | a protocol-conforming answer parses to exactly the words the slave put in |
| ModbusClient.SenderIsNotChecked | lib/modbus_client/src/ModbusClient.cpp:545-587 | an intact answer of any other slave, to any function that is not an exception, is read as data by an attempt, with or without bytes behind its words |
| ModbusClient.AcceptedReplies | lib/modbus_client/src/ModbusClient.cpp:210-290 | an attempt yields words if and only if the reply is such an answer, with just these words, that fits the 256-byte buffer |
| ModbusClient.AcceptedIsAskedIff | lib/modbus_client/src/ModbusClient.cpp:545-587 | a reply read as data is the asked slave's answer to the asked function if and only if its first two bytes say so and nothing lies behind its words |
| ModbusClient.HealthyAttempt | lib/modbus_client/src/ModbusClient.cpp:210-290 | with a conforming slave an attempt reads exactly its registers |
| ModbusClient.DamagedReplyRejected | lib/modbus_client/src/ModbusClient.cpp:444-459 | a good reply damaged in up to three bits, or within sixteen consecutive ones, is never read as data |
| ModbusClient.Client.BuildReadFrame | lib/modbus_client/src/ModbusClient.cpp:519-543 | builds the request in the caller's buffer, or refuses a function that is not a read and leaves the buffer alone |
| ModbusClient.Client.ParseReadResponse | lib/modbus_client/src/ModbusClient.cpp:545-587 | fills exactly the words asked for, or refuses and leaves the caller's buffer alone |
| ModbusClient.Client.ReadOnce | lib/modbus_client/src/ModbusClient.cpp:210-290 | one transaction through request, reply check and parsing |
| ModbusClient.FirstGood | lib/modbus_client/src/ModbusClient.cpp:180-192 | the first attempt that yields words, all before it having failed |
| ModbusClient.Client.ReadWithRetry | lib/modbus_client/src/ModbusClient.cpp:168-208 | on failure the caller's buffer is unchanged over all attempts; on success it holds the words of the first good one; the waits are exactly 100 (2^(n-1) - 1) ms for n attempts |
| ModbusClient.WaitsInFigures | lib/modbus_client/src/ModbusClient.cpp:180-206 | failed reads of one, two, three and ten attempts wait 0, 100, 300 and 51100 ms |
| DeviceNumbers.DecimalIsExact | lib/inverters/src/GenericModbusDevice.cpp:22-52 | without a hex prefix, exactly the canonical decimal numerals of 32-bit numbers are accepted, each for its own number |
| DeviceNumbers.HexRoundTrip | lib/inverters/src/GenericModbusDevice.cpp:22-52 | every 32-bit number written in hex reads back |
| DeviceNumbers.HexIsExact | lib/inverters/src/GenericModbusDevice.cpp:22-52 | behind "0x" exactly these are accepted: blanks, a sign and a second prefix, each optional, then hex digits of a number that fits, for that number or its two's complement |
| DeviceNumbers.HexIsDocumentedIff | docs/CUSTOM_DEVICES.md:17 | the documented language, digits and nothing else, is met if and only if digits follow the prefix at once or no lenient form applies |
| DeviceNumbers.InnerSignAccepted | docs/CUSTOM_DEVICES.md:17 | "0x-1" is accepted, as 0xFFFFFFFF |
| DeviceNumbers.InnerBlankAccepted | docs/CUSTOM_DEVICES.md:17 | "0x 1" is accepted |
| DeviceNumbers.SecondPrefixAccepted | docs/CUSTOM_DEVICES.md:17 | "0x0x1" is accepted |
| DeviceNumbers.NegativeRoundTrip | lib/inverters/src/GenericModbusDevice.cpp:58-71 | a negative decimal numeral reads as two's complement bits exactly down to -2^31 |
| DeviceNumbers.NegativeIsExact | lib/inverters/src/GenericModbusDevice.cpp:58-71 | exactly a minus sign before a canonical decimal numeral or a hex form of a number up to 2^31 is accepted, as its two's complement bits |
| DeviceNumbers.InnerBlankNegated | lib/inverters/src/GenericModbusDevice.cpp:54-71 | "-0x 1" is accepted: the leniency carries over |
| DeviceSchema.MarkField | lib/inverters/src/GenericModbusDevice.cpp:565-573 | marks a field's words, or reports one that an earlier field has |
| DeviceSchema.CheckCoverage | lib/inverters/src/GenericModbusDevice.cpp:545-585 | accepts if and only if all fields lie within the group and no two share a word; then counts exactly the words left over; else names the first offender |
| DeviceSchema.CheckDuplicateNames | lib/inverters/src/GenericModbusDevice.cpp:594-641 | accepts if and only if all names that can be published, bits included, are pairwise different |
| DeviceSchema.CheckGroup | lib/inverters/src/GenericModbusDevice.cpp:497-592 | accepts exactly the valid groups |
| DeviceSchema.Parse | lib/inverters/src/GenericModbusDevice.cpp:204-261 | adds to the lists it is given exactly the entries before the first that does not do; succeeds if and only if all do and the names of old and new entries together differ |
| DeviceSchema.CheckDescription | lib/inverters/src/GenericModbusDevice.cpp:166-202 | accepts exactly the valid descriptions |
| DeviceSchema.AcceptedField | lib/inverters/src/GenericModbusDevice.cpp:263-447 | every field of an accepted description has a name and a known type; bits occur on uint16 only, named, with masks 0x0001 to 0xFFFE and shifts to 15; bits and sentinels only in schema 2 |
| DeviceSchema.AcceptedEntries | lib/inverters/src/GenericModbusDevice.cpp:166-261 | an accepted description has schema 1 or 2 and at least one entry, all of read functions 3 or 4; groups only in schema 2, named, of 1 to 125 words, none without fields |
| DeviceSchema.LoneRegisterAccepted | lib/inverters/src/GenericModbusDevice.cpp:449-495 | exactly which descriptions of one register that publishes a number are accepted, in figures |
| DeviceSchema.LoneGroupAccepted | lib/inverters/src/GenericModbusDevice.cpp:497-592 | exactly which descriptions of one group of one bit are accepted, in figures |
| DeviceSchema.NoEmptyName | lib/inverters/src/GenericModbusDevice.cpp:263-447 | no accepted description publishes an empty name |
| DeviceSchema.LeftoversClash | lib/inverters/src/GenericModbusDevice.cpp:204-261 | registers left behind by a failed load make loading the same registers again fail |
| DeviceValues.DecodedNumber | lib/inverters/src/GenericModbusDevice.cpp:649-679 | decoding gives the number of the field's type that the words stand for in two's complement, high word first |
| DeviceValues.SentinelIsRemainder | lib/inverters/src/GenericModbusDevice.cpp:690-698 | a sentinel matches exactly the raw values that agree with it in the field's own width |
| DeviceValues.FieldPublishes | lib/inverters/src/GenericModbusDevice.cpp:681-714 | whatever sentinel is given, exactly the words equal to it in the field's own width are suppressed; anything else is published as its number or as its bit fields |
| DeviceValues.NumberSuppressed | lib/inverters/src/GenericModbusDevice.cpp:313-345 | a sentinel that stands for a number of the field's type, negative or not, suppresses exactly that number |
| DeviceValues.DefaultShift | lib/inverters/src/GenericModbusDevice.cpp:434-441 | the default shift is the mask's trailing zeros: the shifted mask is odd and shifts back to the mask |
| DeviceValues.ExtractKeepsBits | lib/inverters/src/GenericModbusDevice.cpp:706-713 | a bit field publishes the word's bits under its mask, moved down, and loses none of them under a lossless shift |
| DeviceValues.FlagIsZeroOrOne | lib/inverters/src/GenericModbusDevice.cpp:706-713 | a single-bit field publishes 1 if its bit is set and 0 if not |
| DeviceValues.BitPointCarries | lib/inverters/src/GenericModbusDevice.cpp:700-713 | what a bit field publishes: unless the words are the sentinel, one point a bit, under the bit's name, whose value moved back up is the word under the mask if the shift loses nothing, and 1 or 0 for a single bit |
| DeviceValues.BitExamples | lib/inverters/src/GenericModbusDevice.cpp:706-713 | a flag and a four-bit state published from one word |
| DeviceReads.EmitField | lib/inverters/src/GenericModbusDevice.cpp:681-714 | appends what the field publishes from its words and nothing else; what that is say FieldPublishes and BitPointCarries |
| DeviceReads.Device.ReadFlatRegister | lib/inverters/src/GenericModbusDevice.cpp:716-739 | one transaction, and exactly the register's points or none |
| DeviceReads.Device.ReadGroup | lib/inverters/src/GenericModbusDevice.cpp:741-768 | one transaction for all fields; every slice is within the words read |
| DeviceReads.Device.Visit | lib/inverters/src/GenericModbusDevice.cpp:793-819 | an entry is read or failed, or skipped once the budget has run out, with elapsed time in 32-bit arithmetic; SkippedIffLate says when that is |
| DeviceReads.Device.ReadPhase | lib/inverters/src/GenericModbusDevice.cpp:783-830 | publishes exactly the points of the entries that were read, in order, counts every entry of each kind, and reports whether any was read |
| DeviceReads.Device.ReadBasic | lib/inverters/src/GenericModbusDevice.cpp:832-841 | clears the output and reads the basic phase, or nothing before initialisation |
| DeviceReads.Device.ReadStorage | lib/inverters/src/GenericModbusDevice.cpp:843-848 | the same for the storage phase |
| DevicePhases.BlockReadAgrees | lib/inverters/src/GenericModbusDevice.cpp:716-768 | for every register memory a group read publishes exactly what reading its fields one by one would, through request, slave, checksum, parsing and decoding |
| DevicePhases.FlatReadsRegister | lib/inverters/src/GenericModbusDevice.cpp:716-739 | if only the configured slave answers properly, a register read publishes what stands at its address, one word or two |
| DevicePhases.ThreeAttempts | lib/modbus_client/include/ModbusClient.h:55-59 | a device read gives the words of the first of three attempts that has any |
| DevicePhases.PhaseVisits | lib/inverters/src/GenericModbusDevice.cpp:783-830 | a phase visits exactly the entries with its storage flag, each as often as it is listed, all registers before all groups |
| DevicePhases.EntryReadsIffInRange | lib/inverters/src/GenericModbusDevice.cpp:449-528 | of the registers and groups the loader accepts, a healthy bus can read exactly those that end within the 65536 addresses |
| DevicePhases.AcceptedPastEnd | lib/inverters/src/GenericModbusDevice.cpp:449-528 | an accepted group and an accepted two-word register that do not |
| DeviceReads.AcceptedIsGood | lib/inverters/src/GenericModbusDevice.cpp:545-585 | an accepted description gives the readers all they rely on |
| DeviceReads.Device.Begin | lib/inverters/src/GenericModbusDevice.cpp:80-154 | initialises once; a new device exactly on a valid description; a failed load leaves the entries it had parsed, and the next adds to them |
| DevicePhases.NoNameTwice | lib/inverters/src/GenericModbusDevice.cpp:594-714 | whatever fails, is suppressed or is skipped, the names of both phases together are pairwise different |
| DevicePhases.ReadTelemetry | lib/poller/src/Poller.cpp:205-245 | one telemetry poll publishes the basic points if any basic entry could be read, behind them the storage points exactly when wanted and any of theirs could be, and no name twice |
| DevicePhases.EveryEntryCounted | lib/inverters/src/GenericModbusDevice.cpp:785-829 | read, failed and skipped add up to the entries of each kind |
| DevicePhases.SkipsAreSuffix | lib/inverters/src/GenericModbusDevice.cpp:790-801 | once one entry is skipped all later ones are, whatever the clock does |
| DevicePhases.SkippedIffLate | lib/inverters/src/GenericModbusDevice.cpp:790-801 | under a clock that never goes back, an entry is skipped, and publishes nothing, if and only if the budget is used up when its turn comes; else it is read exactly if its transaction succeeds |
| DevicePhases.PhaseCut | lib/inverters/src/GenericModbusDevice.cpp:790-829 | so a phase is cut in two: it publishes what the entries that come in time publish, and counts as skipped, of each kind, exactly those behind them |
| Poller.Poller.UpdateAvailability | lib/poller/src/Poller.cpp:123-162 | failure count, published state and announcements after one poll |
| Poller.Poller.DoPoll | lib/poller/src/Poller.cpp:47-121 | every branch of a poll counts it once, as successful exactly if both hardware checks and telemetry succeed, and updates availability once |
| Poller.Poller.Begin | lib/poller/src/Poller.cpp:20-45 | initialised exactly once bus and device are both ready, and then for good |
| Poller.FailuresAreTheRun | lib/poller/src/Poller.cpp:123-162 | the failure counter is the length of the failure run at the end of the history |
| Poller.CountersCount | lib/poller/src/Poller.cpp:47-121 | over every history the two counters count the successful polls and the others |
| Poller.AnnouncedState | lib/poller/src/Poller.cpp:123-162 | with every announcement delivered: offline on a run of three failures or more, else online once any poll succeeded, else unknown |
| Poller.AnnouncementsAlternate | lib/poller/src/Poller.cpp:123-162 | whatever is lost, delivered announcements strictly alternate, the believed state is the last of them, and every poll is counted |
| Poller.AnnouncementsAreTrue | lib/poller/src/Poller.cpp:123-162 | each offline follows three failures in a row or more, each online a success |
| Poller.DeliverySettles | lib/poller/src/Poller.cpp:123-162 | one poll with a reachable broker sets the published state right, whatever was lost before |
| Poller.OfflineIsRetried | lib/poller/src/Poller.cpp:148-161 | a long failure run goes unannounced only while every poll from the third failure on failed to deliver |

## Left out

- LogStore.Store.Next: returns level, timestamp and body; rendering them as text (`snprintf`, level names, output truncation) is not modelled, and a null output buffer is the same as one below two bytes.
- LogStore.Store.Begin: takes the boot line's text as a parameter; the boot number, reset reason and versions formatted into it are not modelled, only its cut to 159 bytes. Memory that merely passes the test, without coming from a run, is shown to stay in range and inside its segments, not to parse.
- LogStore.Store.Sink: a message is the bytes before its terminating zero. From garbage the salvage reset may fire inside the tail branch, after which a stale tail gap is added, as in the code; nothing beyond range safety is claimed there.
- LogStore.Store.ReadRaw: from garbage a body may be read past the region's end; such bytes come from a parameter standing for whatever lies there.
- LogFormat.EntryReads: headers are little-endian, as on the device.
- LogCapture.LinesCaptured: assumes timestamps in order and clear of the wrap of the 32-bit millisecond clock.
- LogReads.TourOnCourse: after a lap the records a reader goes on to yield are not specified; the code promises nothing about them.
- LogDump.Dump: the download's preamble and section headings are left out. After a lap only its end is specified.
- Crashes in the middle of a critical section, locks and tasks: each critical section is one step and reboots come between steps.
- ModbusClient.Attempt: what comes back over the wire is an arbitrary reply or none; byte timing, inter-frame gaps, transmit pins, LED and the frame log are left out.
- ModbusErrors.UpToThreeErrorsDetected: bounded by the register's period; TwoErrorsExactly is the unbounded statement. A Modbus frame has at most 256 bytes.
- DeviceReads.EmitField: keeps the raw number and its scale; the floating-point product and its two-decimal rendering are left out.
- DeviceValues.DecodedNumber: gives the integer; its product with the scale is left out with it.
- DeviceReads.Device.ReadPhase: the millisecond clock, the bus and the budget are parameters; deriving the budget from the poll interval is left out.
- DeviceSchema.CheckDescription: starts from extracted values. JSON parsing and type probing, error texts and the file size are left out, as is the truncation of a field offset above 255.
- DeviceSchema.MarkField: the field list so far is a specification-only parameter.
- Poller.Poller.DoPoll: hardware checks, telemetry and delivery are inputs of each poll; counters are unbounded; status messages are left out.
- WiFi, MQTT transport, web pages, OTA, configuration, the other drivers and the web log buffer.
