# Servo tool: a verified model

This project models the parts of the servo commissioning tool whose behaviour is hardest to see from
any one function, and proves what they promise. External parties (devices, slaves, EEPROM, the file
system, parsers, clocks) are arbitrary functions or maps; a promise holds for all of their behaviours
unless its contract names a condition.

- **Recorder** (`RecordingContent`, `RecorderSteps`, `RecorderRuns`, `RecorderLimits`, `RecorderStatus`,
  `Recorder`). `Content` says, as a function of the accepted log alone, what a session is meant to keep.
  `RecorderSteps` describes the atomic steps of all parties (emit, turn, handle, finish, close, start) and
  `After` any interleaving of them; `RecorderRuns` proves the invariant and what follows from it,
  `RecorderLimits` when a session on a working disk fails and when not, and `RecorderStatus` what its status
  shows. The class `Recorder` updates the fields of the source in place, and each of its methods is one such
  step.
- **Recording index** (`IndexScan`, `IndexResume`, `IndexLines`, `IndexMeaning`, `RecordingIndex`). `Scan`
  is one pass over all volumes from scratch. The class brings its tables up to date incrementally and is
  proved to agree with it. `IndexLines` and `IndexMeaning` say what the tables hold without any scan: in
  terms of the lines the volumes consist of.
- **Link ownership** (`LinkOwnership`). Two flags, one mutex and any number of workers as interleaved steps.
- **Register access** (`RegisterReads`, `BatchWrite`, `SerialReads`). Retries, chunks and groups against
  single-register reads; batches with preflight and read-back; and the retries over the serial client.
- **Modbus** (`ModbusCrc`, `ModbusPolynomial`, `ModbusAscii`, `ModbusDecode`, `ModbusClient`, `ModbusWire`,
  `ModbusRecords`). The checksum over bit-vectors and as a remainder of polynomials, the ASCII framing, the
  online client against any line, its agreement with the offline decoder, the bytes on the line, and what the
  decoder makes of any list of records.
- **EtherCAT** (`FrameParsers`, `FrameBuilder`, `EtherCatWire`, `Coe`, `SdoUpload`, `SdoDownload`,
  `MailboxDecode`, `MailboxMeaning`, `Eoe`, `EoeMeaning`, `SiiCache`, `Topology`, `PdoBits`). Frames built and
  parsed, SDO transfers, EoE fragments, the EEPROM cache, the parent search, and mapped process data.
- **Capture files** (`Pcapng`, `PcapngRoundTrip`, `PcapMeaning`, `PcapRefusals`, `PcapFile`). The writer and the
  reader, their round trip, what the reader gives for any well-formed file, whoever wrote it, and what it
  refuses.

`Bytes` holds the fixed-width integers. `dafny verify dfyconfig.toml` checks everything.

## Reading the contracts

- Source integers are mathematical integers with their range in the type or the contract; wrap-around
  and truncation are written out where the code can reach them. The Modbus modules use bit-vectors.
- I/O results are parameters: `Io` for the recorder's disk, a script of read and write events for the serial
  port, a `Device` that may answer by the whole history of requests for register access and for SDO uploads,
  `Answer`s for SDO downloads, `Formats` for the JSON parsers and the transaction decoder of the index.
- What a text, a frame or a file means is stated apart from the code that reads it, with the numbers of the
  source written out (`IndexMeaning`, `RecorderLimits`, `ModbusPolynomial`, `ModbusWire`, `ModbusRecords`,
  `EtherCatWire`, `MailboxMeaning`, `EoeMeaning`, `PcapMeaning`, `PcapRefusals`, and `Holds` and `Carries` for
  the SDO transfers), and then connected to it.
- A step of the recorder covers what the worker does between two looks at the queue. Producers may come in
  between; `EmitCommutes`, `PopCommutes`, `FlushCommutes` and `LeavingUnseen` show that this leaves the same
  state as one of the orders the steps allow. The deadline sorts the queue under the lock producers need.
- Where a promise does not hold for all inputs, the contract states exactly when it does: expedited SDO
  values in the frame decoder, EoE frames over 2016 bytes or of more than 256 fragments, ASCII payloads
  outside 2 to 254 bytes, Modbus reads past address 65535, packets the capture reader refuses, and empty
  expedited SDO downloads.
- SOEM copies into its mailbox buffer of 1487 bytes before it checks the mailbox length, which comes from
  the slave. `SdoDownload.CopyInside` and `Eoe.CopyFits` are proved to be exactly the mailboxes for which
  the copy stays inside; the SDO writer and the EoE send loop require them and nothing else of the mailbox.
- `recording.rs` calls the records of `recording-context` context records; they are written at once, so a
  triggered session starts with all of them and not in the order of acceptance. `Content` says so.

## Model

| member | source | states |
|---|---|---|
| RecordingContent.WindowIsLongest | src-tauri/src/recording.rs:372-384 | For every history of received records with non-decreasing elapsed time, the window is a suffix that always holds the newest record; it lies within the pre-trigger time of the newest and within 16 MiB (or is the newest alone), and no longer suffix does. |
| RecordingContent.WindowSnoc | src-tauri/src/recording.rs:372-384 | Evicting record by record keeps the window of everything received: evicting from the old window plus the new record is the window of the whole history. |
| RecordingContent.ContentAfter | src-tauri/src/recording.rs:328-341 | Once the trigger fired, the content of a session only grows, by exactly the later records up to the end time. |
| RecordingContent.ContentFires | src-tauri/src/recording.rs:382-396 | The record that fires makes the content the context records so far followed by the window that ends with it. |
| RecordingContent.HitMeans | src-tauri/src/recording.rs:385-396 | A record fires the trigger exactly when it is no context record and its detail has the keyword as a substring, upper or lower case alike; without a keyword, exactly for events whose detail has result=Err( or device-fault in it. |
| RecorderRuns.RunInv | src-tauri/src/recording.rs:298-466 | Every state of every interleaving of producers, worker, stop and restart satisfies the invariant: order and numbering of the log, conservation, and how far the volumes, the record in hand and the ring make up the content. |
| RecorderRuns.Conservation | src-tauri/src/recording.rs:237-431 | While a worker runs, accepted is exactly queued + ring + in hand + pending + written + discarded, and written + pending is what the volumes hold. |
| RecorderRuns.RingIsLongestSuffix | src-tauri/src/recording.rs:357-384 | In every armed state of every run the ring is the longest admissible suffix of the non-context records dealt with so far. |
| RecorderRuns.SuccessIsComplete | src-tauri/src/recording.rs:298-431 | Every worker exit without an error, by deadline or by stop, leaves volumes equal to the content of the accepted log, everything else discarded and counted, and nothing unwritten. |
| RecorderRuns.TriggeredContent | src-tauri/src/recording.rs:324-406 | Without the context records, a triggered session is the pre-trigger window up to the firing record, then every later record with elapsed time up to the trigger plus the post window, in order. |
| RecorderRuns.SummaryConsistent | src-tauri/src/recording.rs:433-499 | No summary of any run fails the consistency check, and the warning is silent exactly when there is no error, nothing dropped and nothing unwritten; without an error nothing is unwritten. |
| RecorderRuns.SilenceMeansComplete | src-tauri/src/recording.rs:479-509 | A silent warning can be believed: the log is numbered 1, 2, 3 and so on without a gap, the volumes hold exactly its content, and the count check is silent too. |
| RecorderRuns.VolumesBounded | src-tauri/src/recording.rs:401-424 | A session never writes more bytes than its capacity, and a volume exceeds the part limit only if it is a single record. |
| RecorderRuns.EmitCommutes | src-tauri/src/recording.rs:236-425 | A producer that comes in the middle of handling a record leaves the same state as one that comes behind it, or, if the handling fails, as one that comes just before the channel closes. |
| RecorderRuns.PopCommutes | src-tauri/src/recording.rs:342-348 | The same for the turn that pops from the draining ring and does not look at the queue. |
| RecorderRuns.FlushCommutes | src-tauri/src/recording.rs:350-354 | The same for the flush behind a time-out, once the queue has been found empty. |
| RecorderRuns.LeavingUnseen | src-tauri/src/recording.rs:428-431 | A worker only leaves when the run is out of its slot or inactive, and then no producer changes anything. |
| RecorderRuns.WorkerEnds | src-tauri/src/recording.rs:195-203 | With the run out of its slot, in every reachable state, the worker ends after at most a number of steps given by queue, ring and hand, whatever the disk does; without an error it leaves exactly the content of the log. |
| RecorderLimits.ErrorIff | src-tauri/src/recording.rs:298-466 | In every run whose flushes, syncs, opens and writes all succeed, the worker and the finished session report an error exactly when some record of the content has more than 1048575 bytes of text or the records up to it need more bytes than the limit; while it runs, all that is written fits, and when it fails it stopped at the first record that does not. |
| RecorderLimits.WorkerEndsIff | src-tauri/src/recording.rs:195-203 | On a working disk a worker whose run is out of its slot ends without an error exactly when the whole content fits, and then leaves exactly the content of the log. |
| RecorderLimits.AcceptedUnlessFull | src-tauri/src/recording.rs:224-261 | In every state of every run the queue holds at most 4096 records; a record offered to an active run is accepted under the next number when it holds fewer, and counted as dropped otherwise. |
| RecorderLimits.RunTidy | src-tauri/src/recording.rs:401-427 | In every run a volume was closed only when the next record no longer fitted its part limit, and fewer than 100 records are unflushed. |
| RecorderStatus.RunTruthful | src-tauri/src/recording.rs:134-466 | In every state of every run: while the worker runs the session is shown as active until its deadline and as armed until its trigger, once it has finished as neither; the bytes shown are those written; the time shown for the trigger and the end of the recording are those of the first record of the log that can fire it. |
| RecorderStatus.StartMeans | src-tauri/src/recording.rs:134-194 | A session starts active, armed if it has a trigger, with nothing queued, counted or reported. |
| RecorderStatus.DeadWorkerSeen | src-tauri/src/recording.rs:224-261 | A producer that finds the worker gone counts its record as dropped, ends the activity and reports it unless an error is there already; without an active run it changes nothing. |
| Recorder.Recorder.StartRun | src-tauri/src/recording.rs:134-194 | Refused exactly while the last run is active; otherwise its sender goes and its worker is joined. Then the run begins from a fresh and healthy state, or, if the folder, session.json or first volume cannot be created, there is none. |
| Recorder.Recorder.Stop | src-tauri/src/recording.rs:195-203 | Takes the run out of its slot and waits until its worker has finished; without an error the volumes then hold exactly the content of the log and nothing is unwritten. If the disk worked all along there is no error exactly when every record of the content fits its line and the total fits the limit. A second stop changes nothing. |
| Recorder.Recorder.Join | src-tauri/src/recording.rs:195-203 | Waiting for the worker ends, and its result is that of the worker running alone to its end and writing its summary. |
| Recorder.Recorder.EmitAt | src-tauri/src/recording.rs:224-261 | One producer step: numbered and queued, dropped when the queue is full, or the worker found dead; the invariant holds on. |
| Recorder.Recorder.Sift | src-tauri/src/recording.rs:328-341 | The deadline loop over the queue appends exactly the queued records up to the end time to the ring, in order, and counts the others as discarded. |
| Recorder.Recorder.TakeTurn | src-tauri/src/recording.rs:324-356 | The head of the worker loop: leave, deadline, pop from the ring, receive, time out; the invariant holds on, and so does health on a working disk. |
| Recorder.Recorder.Evict | src-tauri/src/recording.rs:372-384 | The eviction loop leaves, together with the new record, exactly the window of ring plus record, keeps the byte count exact and counts each eviction. |
| Recorder.Recorder.HandleRecord | src-tauri/src/recording.rs:357-427 | The rest of the turn for the record in hand: ring and trigger, discard, or write with capacity, rotation and flush; the invariant holds on. On a working disk health holds on: a record that fits is written. |
| Recorder.Recorder.FinishRecording | src-tauri/src/recording.rs:433-466 | The final status and the summary, also when the summary cannot be saved; the invariant and health hold on. |
| IndexResume.ScanResumes | src-tauri/src/recording_index.rs:252-307 | If a volume only grew at its end, the old scan joined with a scan from where it stopped is the scan of the whole volume: rows, end position, damaged count and failure. |
| IndexResume.RowsAgree | src-tauri/src/recording_index.rs:244-310 | Over any number of volumes, the rows of the last sync followed by the freshly read ones are the rows of a scan from scratch, in order. |
| IndexResume.RowStored | src-tauri/src/recording_index.rs:246-310 | Stored with the damaged count added up or skipped as unchanged, the row of every volume is that of a scan from scratch. |
| IndexResume.ContinuesHolds | src-tauri/src/recording_index.rs:185-228 | When no rebuild is due, known volumes come first and unchanged, but for the very last volume of the folder, which may have grown. |
| IndexResume.TransactionsPatch | src-tauri/src/recording_index.rs:311-343 | The row of a transaction differs from that of the earlier scan only if rows of that transaction arrived. |
| IndexResume.RefreshedIsScan | src-tauri/src/recording_index.rs:229-310 | Inserting only the fresh rows gives the records, contexts, observations and files of a full scan. |
| IndexLines.SplitExists | src-tauri/src/recording_index.rs:252-268 | Every content is newline-terminated lines with newline-free bodies and a newline-free tail. |
| IndexLines.SplitUnique | src-tauri/src/recording_index.rs:252-268 | It is so in one way only. |
| IndexLines.VolumeMeans | src-tauri/src/recording_index.rs:252-307 | A volume can be read exactly when no line or tail has more than 1048576 bytes and every parsed record can be stored; then each line that parses gives its row, at the total length of the lines before it, the damaged count is the number of lines that do not parse, and the position is the end of the last line. |
| IndexMeaning.ScanMeans | src-tauri/src/recording_index.rs:229-343 | For the lines of all volumes: the folder can be indexed exactly when the context is readable and every volume is; then the records are one row for each parsed line, volume by volume and line by line, and the file, context, observation and transaction tables are those the rows tell, transactions up to 4096 records and 2 MiB. |
| RecordingIndex.Inspect | src-tauri/src/recording_index.rs:185-228 | No rebuild is due exactly when every known volume is there and is as it was, in size and time, or is the last one and has grown. |
| RecordingIndex.IndexVolume | src-tauri/src/recording_index.rs:257-307 | The line loop fails exactly when the scan does, and otherwise inserts exactly its rows, marks exactly the transactions they touch, and returns its end position and damaged count. |
| RecordingIndex.Collect | src-tauri/src/recording_index.rs:321-334 | The records of a transaction are all read back from the volumes, in order, unless there are more than 4096 or more than 2 MiB of them. |
| RecordingIndex.UpdateTransactions | src-tauri/src/recording_index.rs:311-343 | Exactly the marked transactions get the row that is a function of all their records, or lose it; all others keep theirs. |
| RecordingIndex.IndexVolumes | src-tauri/src/recording_index.rs:244-310 | The volume loop succeeds exactly when every volume can be scanned, and reports an unfinished last line exactly when some volume has one. |
| RecordingIndex.RecordingIndex.Sync | src-tauri/src/recording_index.rs:146-366 | It succeeds exactly when, for the lines the volumes consist of, the folder can be indexed; then the tables hold exactly what those lines tell, an unfinished last line is reported exactly when there is one, and all five tables equal those of one scan from scratch. A failure changes nothing. The rebuild path needs no assumption on what happened to the folder. |
| RecordingIndex.RecordingIndex.SyncEach | src-tauri/src/recording_index.rs:185-344 | After any history of looks at a changing folder, readable or not at each of them, each succeeded exactly when the folder could be indexed as it was, and the tables hold exactly what the lines of the last such folder tell. |
| LinkOwnership.RunSafe | src-tauri/src/runtime.rs:489-531 | In every state of every interleaving, at most one of the connected session, the discovery workers and the scan workers has the link open, and no command body runs beside a search or beside a scan past its session check. |
| LinkOwnership.RunInv | src-tauri/src/runtime.rs:565-632 | Flags and mutex are always held by exactly the worker that stands where it should hold them, and a granted discovery and a granted scan exclude each other. |
| LinkOwnership.NothingLeaks | src-tauri/src/discovery.rs:53-58 | Once every worker is idle again both flags and the mutex are free: no path, including refused claims, leaves a lease behind. |
| LinkOwnership.StepsShrink | src-tauri/src/runtime.rs:489-531 | Under every schedule each step of a worker on its way brings it closer to its end and moves no other, so without new starts every history ends. |
| LinkOwnership.NeverStuck | src-tauri/src/runtime.rs:565-632 | As long as some worker is on its way, some worker can step: there is no deadlock between flags and mutex. |
| LinkOwnership.ComesToRest | src-tauri/src/scan.rs:42-47 | From every reachable state some schedule brings all workers home, with both flags and the mutex free: no lease can be held forever. |
| LinkOwnership.CommandGetsThrough | src-tauri/src/runtime.rs:489-531 | With all workers idle, some schedule takes any worker into the body of any command, whatever the session is. |
| LinkOwnership.DiscoveryGetsThrough | src-tauri/src/discovery.rs:53-100 | With all workers idle and no session, some schedule takes any worker to the point where a search opens the link. |
| LinkOwnership.ScanGetsThrough | src-tauri/src/scan.rs:42-90 | The same for a scan. |
| LinkOwnership.SessionCanChange | src-tauri/src/runtime.rs:565-632 | With all workers idle, some schedule connects a session or ends it. |
| RegisterReads.Session.ReadTransaction | src-tauri/src/modbus.rs:218-263 | For any address and count: at most retries + 1 reads, or none for a count outside 1 to 100, which fails; every reply but the last is one that is retried, and a failure means that the retries are used up or the last reply is not retried; every transaction is counted exactly once, as a first success, recovered or failed; a success inside the address space is what the registers hold. |
| SerialReads.SerialSession.ReadTransaction | src-tauri/src/modbus.rs:218-277 | The retries over real exchanges: on every device that gave the replies the line gave, of which there always is one (SomeDevice), the run is that of RegisterReads, request by request; a success is what the offline decoder reports, and a working port that brings a well-formed answer gives its registers. |
| SerialReads.RetriedErrors | src-tauri/src/modbus.rs:66-69 | Exactly checksum errors, LRC errors and time-outs are retried. |
| RegisterReads.Session.ReadHoldingRegisters | src-tauri/src/modbus.rs:199-215 | Refused without a read outside 1 to 100 registers or past the address space; otherwise it reads one chunk after the other from the first register on, each of the configured size but the last, repeating only what is retried, and the chunks together give what single-register reads give. |
| RegisterReads.Sorted | src-tauri/src/runtime.rs:1554-1554 | Sorting by address keeps exactly the same definitions, and those of one address in their old order. |
| RegisterReads.GroupEnd | src-tauri/src/runtime.rs:1558-1564 | A group is the longest run of consecutive addresses from its start that spans at most 100 registers. |
| RegisterReads.ReadDefinitions | src-tauri/src/runtime.rs:1550-1579 | Each definition comes back exactly once, in address order, with the value of its own register, and every read is a chunk of one of the groups. |
| BatchWrite.Plan | src-tauri/src/runtime.rs:1253-1283 | A plan exists exactly for distinct, known, writable, encodable items, and is the request in order. |
| BatchWrite.Preflight | src-tauri/src/runtime.rs:1615-1643 | Only reads are issued; it passes exactly when every register holds the value the user saw, on a device that stores what it is told. |
| BatchWrite.WritePlanned | src-tauri/src/runtime.rs:1644-1666 | One write, then only reads; success means it was accepted and read back, and on an accepting device it succeeds. |
| BatchWrite.RunPlan | src-tauri/src/runtime.rs:1303-1351 | The writes issued are a prefix of the plan in order, the completed list is exactly the verified prefix, and each reported previous value is what the register held just before its write. |
| BatchWrite.BatchWriteParameters | src-tauri/src/runtime.rs:1247-1354 | A refused batch or failed preflight writes nothing. Otherwise the writes are, for the first items of the request and in its order, the encoded value to the register of the parameter, all items being known, writable and encodable; what is reported of each completed item is its expected and its encoded value, and the failed one is the next. On a device that stores what it is told the expected values are what the registers held; on a fault-free accepting one a request that expects what is there completes. |
| ModbusCrc.ComputeCrc | src-tauri/src/modbus.rs:498-511 | The byte and bit loops compute the register as defined bit by bit. |
| ModbusCrc.RunLinear | src-tauri/src/modbus.rs:498-511 | The register is linear over GF(2): the exclusive or of two runs is the run of the exclusive or. |
| ModbusCrc.RunInjective | src-tauri/src/modbus.rs:498-511 | Over the same bytes, different start states end in different states. |
| ModbusCrc.AcceptedIffZero | src-tauri/src/modbus.rs:485-497 | A frame of at least four bytes passes exactly when the register over the whole frame is 0. |
| ModbusCrc.BurstDetected | src-tauri/src/modbus.rs:485-511 | Two different frames of equal length that differ only within two adjacent bytes are never both accepted. |
| ModbusCrc.WithCrc | src-tauri/src/modbus.rs:290-293 | A frame with its checksum appended is accepted. |
| ModbusPolynomial.CrcIsRemainder | src-tauri/src/modbus.rs:498-511 | The checksum is the only 16-bit remainder of the message polynomial, least significant bit first and its first 16 bits complemented, times x^16, modulo x^16 + x^15 + x^2 + 1. |
| ModbusPolynomial.AcceptedIffDivisible | src-tauri/src/modbus.rs:485-497 | A frame of at least four bytes is accepted exactly when its polynomial is divisible by x^16 + x^15 + x^2 + 1. |
| ModbusPolynomial.CheckValue | src-tauri/src/modbus.rs:498-511 | The nine digits 1 to 9 have the checksum 0x4B37. |
| ModbusAscii.EncodeAscii | src-tauri/src/modbus.rs:433-445 | The encoding loop gives colon, the hexadecimal pairs of payload and LRC, and the line end. |
| ModbusAscii.ParseAscii | src-tauri/src/modbus.rs:446-476 | The decoding loop is the decoder defined on whole texts, error by error. |
| ModbusAscii.AsciiRoundTrip | src-tauri/src/modbus.rs:433-476 | Decoding an encoded payload gives it back exactly for 2 to 254 bytes; every other payload is refused. |
| ModbusDecode.DecodeTransaction | src-tauri/src/modbus_decode.rs:134-219 | The record loop, with its early stop at oversized data, decodes like the definition over the whole list. |
| ModbusClient.SerialClient.ReadCaptured | src-tauri/src/modbus.rs:71-89 | Success fills the buffer with exactly the next recorded bytes; on a fault-free line with enough bytes it succeeds, whatever the chunks and interruptions. |
| ModbusClient.SerialClient.WriteAll | src-tauri/src/recorded_port.rs:50-65 | Success means the recorded sent bytes are exactly the request, whatever the port took at a time. |
| ModbusClient.SerialClient.ReceiveRtu | src-tauri/src/modbus.rs:325-365 | Success returns the payload of the received frame; a well-formed answer on a fault-free line is received. |
| ModbusClient.SerialClient.ReceiveAscii | src-tauri/src/modbus.rs:302-324 | The same for ASCII, byte by byte up to the line feed and bounded in length. |
| ModbusClient.SerialClient.Exchange | src-tauri/src/modbus.rs:283-421 | A success answers the request and leaves a recording that the offline decoder reads the same way; a well-formed answer on a fault-free line succeeds or reports its exception. |
| ModbusClient.SerialClient.ReadOnce | src-tauri/src/modbus.rs:265-277 | The registers of a successful read are those the offline decoder reports. |
| ModbusClient.OfflineAgrees | src-tauri/src/modbus_decode.rs:134-219 | For every complete recording of a successful exchange, under any fragmentation, the decoder reports the same values, and a match exactly when the address range does not wrap. |
| ModbusWire.RequestBytes | src-tauri/src/modbus.rs:283-293 | A request is slave, function, and the two halves of address and value, high byte first. |
| ModbusWire.RegisterBytes | src-tauri/src/modbus.rs:265-277 | Register i of an answer is its i-th pair of bytes, high byte first. |
| ModbusWire.FlaggedCodes | src-tauri/src/modbus.rs:376-421 | The exceptions of the two functions come as 0x83 and 0x86. |
| ModbusWire.AsciiBytes | src-tauri/src/modbus.rs:433-445 | An ASCII frame is 0x3A, two hexadecimal digits of each byte, those of the byte that makes the sum 0, and 0x0D 0x0A. |
| ModbusWire.Digits | src-tauri/src/modbus.rs:433-445 | The hexadecimal digits are 0 to 9 and capital A to F. |
| ModbusWire.MatchIff | src-tauri/src/modbus_decode.rs:134-219 | Offline, request and response match exactly when the response is, byte by byte, one that fulfils the request. |
| ModbusWire.ExceptionIff | src-tauri/src/modbus_decode.rs:134-219 | They show a device exception exactly when the response is three bytes of the same slave with the flagged function and a code. |
| ModbusRecords.DecodedIff | src-tauri/src/modbus_decode.rs:134-175 | A list of records is decoded exactly if it is one Modbus exchange, of one number, source and protocol, with at most 513 bytes each way. |
| ModbusRecords.OutcomeMeans | src-tauri/src/modbus_decode.rs:176-219 | The exchange has ended exactly if some event says so, and has failed exactly if one says that. |
| ModbusRecords.DurationMeans | src-tauri/src/modbus_decode.rs:150-219 | Its duration is the time from the first record with sent bytes to the last received or ending one; there is none without both, or if time ran backwards. |
| FrameParsers.DecodeFrame | src-tauri/src/ethercat.rs:80-205 | The decoder loops compute the result defined by recursion over positions, error by error. |
| FrameParsers.ValidateFrame | src-tauri/native/bridge.c:58-75 | The validator loop decides exactly the recursive language of well-formed chains. |
| FrameParsers.SameLanguage | src-tauri/native/bridge.c:58-75 | A wholly captured untagged type-1 frame passes the validator exactly when it has 28 to 1518 bytes and the decoder reports no error. |
| FrameBuilder.Port.SetupDatagram | src-tauri/native/soem/soem/ethercatbase.c:68-93 | The first datagram: headers, data (zeros for reads), work counter and length are in place. |
| FrameBuilder.Port.AddDatagram | src-tauri/native/soem/soem/ethercatbase.c:106-146 | One more datagram leaves all earlier ones in place with the follow flag set, and the returned offset is where its data sits in the stripped frame. |
| FrameBuilder.BuiltFrameAccepted | src-tauri/native/soem/soem/ethercatbase.c:31-146 | Every frame built from any number of datagrams passes the validator, and the decoder returns exactly those datagrams. |
| FrameBuilder.ChainPositions | src-tauri/native/soem/soem/ethercatmain.c:683-717 | In any received frame of status datagrams the data of the k-th one is where the positions array says. |
| FrameBuilder.FprdMulti | src-tauri/native/soem/soem/ethercatmain.c:683-717 | The frame sent asks every slave, and every slave status delivered is the data of its own datagram in whatever frame came back. |
| EtherCatWire.FrameMeans | src-tauri/src/ethercat.rs:80-205 | For every well-formed frame, with any tags and padding and any datagrams of up to 2047 bytes in all, the decoder reports exactly those datagrams with the positions they have. |
| EtherCatWire.OtherFrames | src-tauri/src/ethercat.rs:80-205 | Behind any tags: a cut-off tag, another ether type, a missing header, a length beyond the capture, another EtherCAT type, the reserved bit and each kind of damage behind any datagrams are told from the bytes, and get the result they should. |
| EtherCatWire.ShortFrame | src-tauri/src/ethercat.rs:80-95 | A frame is refused as too short for Ethernet exactly if it has less than 14 bytes. |
| EtherCatWire.StatusAsked | src-tauri/native/soem/soem/ethercatmain.c:683-717 | The k-th slave is asked for six bytes from 0x0130 at its configured address. |
| EtherCatWire.WireData | src-tauri/native/soem/soem/ethercatbase.c:31-66 | Commands that only read go out with zeros, all others with their data. |
| SdoUpload.Master.Read | src-tauri/native/soem/soem/ethercatcoe.c:120-286 | The requests are, byte for byte, the upload request for the object and subindex and then segment requests with alternating toggle, under mailbox counters 1 to 7 in turn, at most capacity + 2 of them. Against any device it succeeds exactly when the upload is defined, leaves exactly its bytes, and never writes past the capacity; whatever value a device holds and answers with, expedited, normal or in segments, is read exactly. |
| SdoUpload.Master.ReadSegments | src-tauri/native/soem/soem/ethercatcoe.c:214-286 | The segment loop terminates because each accepted segment that is not last shrinks what is missing. |
| SdoUpload.SegmentedUploadIff | src-tauri/native/soem/soem/ethercatcoe.c:203-286 | A segmented upload delivers data exactly when the slave sends the first part and then segments with alternating toggles, only the last one marked and possibly empty, adding up to the announced size. |
| SdoUpload.HeldIsRead | src-tauri/native/soem/soem/ethercatcoe.c:120-286 | A device that answers the requests for an object with a value of it by the rules of the protocol delivers that value. |
| SdoDownload.Master.Write | src-tauri/native/soem/soem/ethercatcoe.c:339-540 | For every mailbox whose first copy stays inside the buffer, and for expedited transfers any mailbox: every frame fits the mailbox; the write succeeds exactly if the first and the last exchange do (a segment lost in between is not noticed), and only a refusal ends it early. Unless refused, the frames are, byte for byte and under counters in turn, those that carry the written bytes to the object, and the upload side rules recover the bytes from them, except that an empty expedited download reads as four zeros; nothing goes out of a mailbox larger than the buffer. |
| SdoDownload.FirstCopyInsideIff | src-tauri/native/soem/soem/ethercatcoe.c:356-441 | The first copy, with its 16-bit size, stays inside the buffer exactly for mailboxes of 16 to 1487 bytes, or larger ones with at most 1471 bytes to write. |
| SdoDownload.LargeMailboxOverruns | src-tauri/native/soem/soem/ethercatcoe.c:409-441 | A mailbox of 2000 bytes and 4096 bytes to write are an input for which it does not. |
| SdoDownload.Master.WriteSegments | src-tauri/native/soem/soem/ethercatcoe.c:460-528 | The result is that of the last segment, and no earlier one was refused; unless the last one is, the segments are non-empty with alternating toggles, only the last one marked, and carry exactly the rest of the data. |
| MailboxDecode.HeaderAgrees | src-tauri/src/ethercat.rs:214-256 | The frame decoder shows the counter, service, command, index and subindex of every mailbox that starts a transfer as the master uses them. |
| MailboxDecode.TransferShownIff | src-tauri/src/ethercat.rs:249-269 | It shows the value of an expedited transfer, and the total size of a normal one, as the master reads them exactly when the size is indicated or four bytes are expedited. |
| MailboxDecode.DownloadShown | src-tauri/src/ethercat.rs:214-270 | The first frame of every download the master writes is shown with its counter, service, index and subindex, and with its value or its size. |
| MailboxDecode.SegmentsShown | src-tauri/src/ethercat.rs:270-272 | The segments of every download are shown with alternating toggles and only the final one as last, and the raw bytes of each start with the part it carries; the parts together are the data of the download. |
| MailboxMeaning.MailboxMeans | src-tauri/src/ethercat.rs:214-240 | Every mailbox with its header fields and payload, whatever follows it, is shown with exactly those. |
| MailboxMeaning.CutOff | src-tauri/src/ethercat.rs:214-222 | It is refused exactly if its header is not there, or not all of its payload. |
| MailboxMeaning.CoeMeans | src-tauri/src/ethercat.rs:238-245 | A CoE payload is shown with its service and number, and as an SDO exactly for services 2 and 3 with something behind the header. |
| MailboxMeaning.SdoMeans | src-tauri/src/ethercat.rs:241-275 | Every SDO is shown with its object if its command names one, the code of an abort, the value of an expedited and the indicated size of a normal transfer, and as a segment otherwise. |
| Eoe.Sender.SendFor | src-tauri/native/soem/soem/ethercateoe.c:345-398 | The send loop for any number of turns and any mailbox whose copies stay inside the buffer: what it has sent, with the eight-bit fragment number and the frame number that moves on when it wraps, that each fragment fits, and that it is finished exactly when the turns reach the end of the payload. |
| Eoe.SentAreFragments | src-tauri/native/soem/soem/ethercateoe.c:345-398 | As long as the end is not reached, what the turns sent followed by the fragments of the rest are the fragments of the payload. |
| Eoe.Sender.Send | src-tauri/native/soem/soem/ethercateoe.c:322-398 | The fragments sent are a prefix of those of the payload, all of them if no send fails, each fits the mailbox, and the frame number has moved on once for every 256 fragments begun. |
| Eoe.OneFrameIff | src-tauri/native/soem/soem/ethercateoe.c:345-398 | All fragments of a payload carry the same frame number exactly when there are at most 256 of them, that is, when the payload is no longer than 255 whole-block fragments and one full mailbox. |
| Eoe.CopyFitsIff | src-tauri/native/soem/soem/ethercateoe.c:342-388 | The copies of all turns stay inside the buffer exactly for mailboxes of at least 10 bytes, and either at most 1477 bytes of payload, or more than one fragment takes, of which the first has fewer than 47 blocks. |
| Eoe.Receiver.ReadFragment | src-tauri/native/soem/soem/ethercateoe.c:534-640 | One fragment changes receiver state and buffer exactly as the pure receiver does. |
| Eoe.Reassembled | src-tauri/native/soem/soem/ethercateoe.c:534-640 | From every stale receiver state, the fragments of a payload of up to 2016 bytes reassemble to exactly that payload. |
| Eoe.DeliveredIff | src-tauri/native/soem/soem/ethercateoe.c:322-398 | A sent frame arrives whole exactly when it has at most 2016 bytes. |
| Eoe.SenderFinishesIff | src-tauri/native/soem/soem/ethercateoe.c:345-372 | The sender reaches the last fragment exactly when a fragment can carry a 32-octet block or the payload fits one. |
| Eoe.FragmentBytes | src-tauri/native/soem/soem/ethercateoe.c:345-398 | The fields of every fragment a sender makes: length, type and counter, port and last mark, fragment number, offset or frame size in blocks, frame number, and its part of the payload. |
| Eoe.FragmentFields | src-tauri/native/soem/soem/ethercateoe.c:534-640 | Where a receiver finds the last mark, the time mark, fragment number, offset and frame number in the two words of a fragment. |
| EoeMeaning.OneFragment | src-tauri/native/soem/soem/ethercateoe.c:534-640 | What one fragment does in every state, told by the fragments taken so far: one of another mailbox type is refused with -3 and changes nothing, one that neither starts a frame nor follows is refused with -11 and drops the frame, any other is taken if it fits, and the last one delivers. |
| EoeMeaning.RunHolds | src-tauri/native/soem/soem/ethercateoe.c:534-640 | After any fragments in any order the receiver holds fragments of one frame only, numbered from 0 without a gap and each where the one before it ended. |
| EoeMeaning.DeliveredSound | src-tauri/native/soem/soem/ethercateoe.c:534-640 | Whatever came before, a delivered frame is the data of such fragments, in the order they came; nothing of another frame is in it. |
| SiiCache.Cache.GetByte | src-tauri/native/soem/soem/ethercatmain.c:334-397 | Whatever was queried before, the byte returned is what a direct EEPROM read gives, and the EEPROM is read only when the byte is not held for this slave. |
| SiiCache.Cache.GetBytes | src-tauri/native/soem/soem/ethercatmain.c:334-397 | The same for every sequence of queries over any mix of slaves and reader widths. |
| Topology.WalkToParent | src-tauri/native/soem/soem/ethercatconfig.c:440-470 | For every wiring below one first slave, the backward counting walk from any later slave settles exactly at its tree parent. |
| Topology.FindParent | src-tauri/native/soem/soem/ethercatconfig.c:440-470 | The counting loop returns the slave at which that walk settles. |
| Topology.ConfigureTopology | src-tauri/native/soem/soem/ethercatconfig.c:400-470 | Every slave gets its open port count as topology and its true tree parent. |
| Topology.OpenPortsCounted | src-tauri/native/soem/soem/ethercatconfig.c:406-428 | The port count is the number of ports whose link is open and whose communication is established. |
| PdoBits.Extract | src-tauri/src/ethercat.rs:180-183 | The bit loop gives the field of the little-endian number of all the data. |
| PdoBits.SignExtend | src-tauri/src/ethercat.rs:184-184 | Shifting up and arithmetically down gives the two's complement value of any width from 1 to 64. |
| PdoBits.ReadPdo | src-tauri/src/ethercat.rs:172-190 | An entry has a value exactly when all its bits lie in the datagram, and then it is that signed or unsigned field. |
| PcapFile.PcapWriter.WritePacket | src-tauri/src/pcap_file.rs:375-412 | The file is always the encoding of the packets so far. One packet appends, byte for byte, the interface of a new source with its name of up to 1024 bytes, under the next number, and the packet with the number of its interface; it changes nothing else. |
| PcapFile.CaptureReader.OpenFile | src-tauri/src/pcap_file.rs:63-96 | The first section header or classic header, as defined, error by error. |
| PcapFile.CaptureReader.ReadOptions | src-tauri/src/pcap_file.rs:174-197 | The option loop stays inside the block and reads resolution and offset as defined; OptionsRun says what that is for every list of options. |
| PcapFile.CaptureReader.NextRecord | src-tauri/src/pcap_file.rs:118-269 | The reading loop terminates on every input and gives the record, end or error of the definition; FileMeans and ClassicMeans say what that is for every well-formed file. |
| PcapngRoundTrip.RoundTrip | src-tauri/src/pcap_file.rs:343-412 | Reading what was written gives every packet back with its bytes, 64-bit stamp and length, in order, then the end of the file. |
| PcapngRoundTrip.InterfacesInjective | src-tauri/src/pcap_file.rs:382-402 | Two records share an interface exactly when their packets share a source. |
| PcapngRoundTrip.ReadBackIff | src-tauri/src/pcap_file.rs:118-240 | After readable packets, one more reads back exactly when its original length is not below its data, its block fits the reader's 16 MiB limit and it needs no 4097th interface. |
| PcapMeaning.OptionsRun | src-tauri/src/pcap_file.rs:174-197 | For every list of options in both byte orders, the resolution is the value of the last one-byte option 9, or 6, and the offset the signed value of the last eight-byte option 14, or 0. |
| PcapMeaning.FileMeans | src-tauri/src/pcap_file.rs:57-269 | Every PCAPNG file of well-formed blocks, in both byte orders, with any options, sections and unknown blocks, is read as exactly its packets, each with ticks over ticks per second rounded down to microseconds plus the offset of its interface, and then ends. |
| PcapMeaning.ClassicMeans | src-tauri/src/pcap_file.rs:57-173 | Every classic file, in its four variants, is read as exactly its packets with seconds and micro- or nanoseconds, and then ends. |
| PcapMeaning.OneSound | src-tauri/src/pcap_file.rs:118-269 | Whatever the bytes, the reader goes on only behind a block with the same length at both ends, and a record lies inside its block. |
| PcapRefusals.OpensIff | src-tauri/src/pcap_file.rs:63-117 | A file is opened exactly if it starts with a section header of version 1 with the same length at both ends or a classic header of version 2.4. |
| PcapRefusals.PacketGivenIff | src-tauri/src/pcap_file.rs:205-240 | A packet block gives a record exactly if its interface is there, it holds no more than the packet had, the resolution is at most 10^-38 or a power of two, and the time fits 64 bits. |
| PcapRefusals.SimpleGivenIff | src-tauri/src/pcap_file.rs:241-260 | A simple packet block gives one exactly if it holds what the snap length of the first interface leaves, padded. |
| PcapRefusals.InterfaceRefused | src-tauri/src/pcap_file.rs:166-204 | An interface block without its eight bytes, with an option longer than the block, or beyond the 4096th is refused. |
| PcapRefusals.BlockTakenIff | src-tauri/src/pcap_file.rs:118-165 | A block is taken exactly if it has the same length of at least 12 bytes at both ends, in whole words and at most 16 MiB, and its body is taken. |
| PcapRefusals.OtherKinds | src-tauri/src/pcap_file.rs:262-268 | The obsolete packet block is refused, every unknown kind skipped. |
| PcapRefusals.BreaksOff | src-tauri/src/pcap_file.rs:118-122 | The file has ended exactly where no byte is left; fewer than eight are an error. |
| PcapMeaning.BlocksAppend | src-tauri/src/pcap_file.rs:375-412 | The blocks of one more packet, in the terms in which the reader is described. |

## Left out

- SdoDownload.Master.Write: sizes of 65536 bytes and more; what the source does once its copy has left the buffer (FirstCopyInsideIff says when); and the emptying of the slave's mailbox before the first request.
- SdoUpload.Master.Read: the emptying of the slave's mailbox before the first request, and the recorded error codes.
- RecordingIndex.RecordingIndex.Sync: SQLite itself, the case where a file changes while it is being read, and the warning texts built from the summary; a failing database write other than an unstorable number.
- Recorder.Recorder.EmitAt: the elapsed time of a run is a parameter that must not run backwards; counters are unbounded; a panic of the worker thread and poisoned locks.
- Case folding of trigger keywords beyond ASCII letters; text lengths count the bytes of the encoded text.
- LinkOwnership.RunSafe: stated over steps of a state machine and not over a class, because the workers are threads; poisoned locks and the cancel flags.
- RegisterReads.ReadDefinitions: the overflow check of a debug build for two definitions that both sit at address 65535; scaling of raw values.
- BatchWrite.BatchWriteParameters: failing audit entries, the confirmation text itself (a flag says whether it matched) and the scaling of values (a partial function gives the raw value).
- SerialReads.SerialSession.ReadTransaction: the counts by kind of error, the event list and the text of the last failure.
- ModbusClient.SerialClient.Exchange: the time that ends an ASCII frame is an event of the script, a failing timeout setting inside the ASCII loop is one of its read errors, and statistics are modelled in RegisterReads.
- FrameBuilder.Port.SetupDatagram: the interrupt field of a datagram, which no function of the source writes, stays unspecified.
- SiiCache.Cache.GetByte: read windows that cross the end of the 4096-byte buffer, and failing EEPROM reads.
- PdoBits.Extract: the bits are joined by addition where the source uses a bitwise or of disjoint bits; scaling is not modelled.
- MailboxDecode.DownloadShown: the fields shown for protocols other than CoE.
- Eoe.Sender.SendFor: payloads of 65532 bytes and more, whose sizes no longer fit 16 bits, and what the source does once a copy has left the buffer (CopyFitsIff says when).
- Eoe.Receiver.ReadFragment: the time stamp at the end of a frame is counted but not interpreted.
- PcapFile.CaptureReader.NextRecord: the reader's position after an error, and paging of a capture.
- The serial probe order (plan and modes in discovery.rs) and the splitting of a register scan into blocks (scan.rs).
- TCP sessions, their statistics on malformed PDUs, and the simulator.
- Queries over the index (page, overview, history) and the export of records: SQL and formatting.
- Commands, dialogs, the user interface, distributed clocks, process data exchange, FoE and SoE.
