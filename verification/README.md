# SmartRoute model

SmartRoute is a gateway: it polls field devices over Modbus and PCLink, keeps their registers in a
table, records trends in `.tnd` files, stores its configuration in a database and serves it to
operator screens. These Dafny modules model its data paths and prove what they keep.

| files | part of the system |
|---|---|
| `TndFormat`, `TrendFileWriter`, `TrendFileRecorder`, `TrendFileReader` | the trend file as bytes behind a write buffer, torn appends included, whole recordings, and the readers of the bytes |
| `DataCollector`, `BatchOptimality`, `WirePolling` | polling in merged reads, why it equals reading each register alone, and what changes over the wire |
| `LinearRegister`, `Crc16`, `CrcDistance`, `CoilBits`, `Octets`, `ModbusPdu`, `ModbusExchange`, `ModbusFrames`, `ModbusAscii`, `WireFormat`, `ModbusClient`, `RegisterExecutor` | the Modbus clients in three framings against a conforming slave, the bytes they send, and register access on top of them |
| `PcLink` | the PCLink frame sum and read response |
| `RegisterTable` | decoding, scaling and the table of values |
| `HmiListing`, `HmiStore`, `HmiTables` | HMI project and screens: specification, runs, and the statements of the database code |
| `DeviceTables`, `DatabaseRuns`, `RestoreData`, `RestoreLaws`, `DeviceDatabase` | device, register and tag tables, address assignment, restore |
| `BackupManager`, `BackupRoundTrip` | the backup, and what restoring it gives |
| `DeviceCache`, `ApiServer`, `PollingManager` | the device list in memory, the handlers that change it, polling threads |
| `WriteQueue`, `WriteFlush`, `WriteRefinement` | queued writes: every interleaving, one pass, forwarded writes |

Conventions. Where the code changes things in place, a class or a loop does the same and its
contract ties the new state to a function of the old one; the properties are then lemmas about that
function. SQLite tables are maps, a transaction is carried out statement by statement with a
`statements` counter that makes any of them fail, and queries whose order does not matter return
rows in any order. The trend file is opened buffered: written bytes collect in up to 16 KiB and
reach the medium when the file is positioned, asked for its size, flushed or closed, and only as
many as it accepts. The far end of a Modbus line is a conforming slave following sections 6.1, 6.3,
6.5, 6.6, 6.11 and 6.12 of MODBUS Application Protocol V1.1b3, on a line that may lose requests or
answers; checksums follow sections 6.2.1 and 6.2.2 of MODBUS over Serial Line V1.02. An exception
the code throws is a `false` result. Scaled values are real numbers.

Places where the code does something its own text or a reader might not expect, kept as they are and
stated above or below: a record count of 0 for one kind of interrupted append (`TornCount`); a trend
file that opens on a full medium, an append that answers true although its last bytes, the ones that
count the record, are refused, because the last flush is not looked at, and counters that move
before the record is stored (`Open`, `AppendRecord`, `WriteRecord`); an exhausted address range
leaves a row behind that the list does not know (`AutoAssignment`, `SyncKeepsAgreement`); the two
older register types pass the column check but not a restore (`LegacyStopsRegisters`); revisions
start over after delete and insert (`LifetimesShareRevisions`); a retried write can be overtaken
(`RetryIsOvertaken`); a pass drops requests that still have retries when the connection cannot be
made at their turn (`DropsOnlySpentIff`); a write that counts as failed may have been carried out
(`UnwrittenMemory`); one register outside a device's memory makes its whole batch fail, although the
others read well alone (`AnsweredIff`); the range flag tells of the previous value (`UpdateState`),
although data_collection/store/RegisterTable.md:39-45 says otherwise; unused channel slots keep an
upper raw limit of 65535, although the comment at TrendHandler/TrendFileWriter.cpp:56 calls them
zero; deleting a device that is not listed throws after the database statement (`DeleteDevice`).

## Model

| member | source | states |
|---|---|---|
| TrendFileWriter.TornHistory | TrendHandler/TrendFileWriter.cpp:84-162 | for every history of appended records and every number of bytes of the next append that reached the file, a reader is shown either the history or the history and the new record |
| TrendFileWriter.TornAppendShows | TrendHandler/TrendFileWriter.cpp:100-158 | the same for any complete file; a finished append leaves a complete file, the 512-byte header is never touched and the size stays within 4 GiB |
| TrendFileWriter.FileAfterIsComplete | TrendHandler/TrendFileWriter.cpp:84-162 | after any completed appends the file has exactly the size of n records, every block counts its records and carries its own index |
| TrendFileWriter.CapacityIsExact | TrendHandler/TrendFileWriter.cpp:91-98 | the size check refuses an append exactly when 130,023,408 records are stored |
| TrendFileWriter.HeaderLayout | TrendHandler/TrendFileWriter.cpp:36-72 | each field of the 512-byte header at its offset: magic, version, channel count, start time, interval, codes, and the sixteen channel slots with the unused ones empty |
| TrendFileWriter.WholeAppend | TrendHandler/TrendFileWriter.cpp:100-158 | the bytes of a finished append in the file: the 32 of the record at its place, the count of its block behind it, and behind a full block 24 zeros and the next block header with a count of 0 |
| TrendFileWriter.Writer.Open | TrendHandler/TrendFileWriter.cpp:20-79 | true exactly when directory and file can be made, on a full medium too: header, sixteen channel slots and an empty first block, 520 bytes, stay in the write buffer and nothing is stored yet |
| TrendFileWriter.Writer.AppendRecord | TrendHandler/TrendFileWriter.cpp:84-162 | the file becomes the append stopped after as many bytes as the medium accepts; the answer is true exactly when the bytes before the last write are accepted, 32, or 58 for a block-filling record; refused exactly at capacity; after a medium has refused a byte no append succeeds and the file stays as it is |
| TrendFileWriter.Writer.WriteRecord | TrendHandler/TrendFileWriter.cpp:100-162 | the part behind the capacity check: its answer, its bytes, and both counters moved even if the medium refuses the record |
| TrendFileWriter.Writer.StoreRecord | TrendHandler/TrendFileWriter.cpp:100-124 | record, then count, in that order; true exactly when the 32 bytes are stored, the counters moving either way; the count is left in the buffer |
| TrendFileWriter.Writer.StartNextBlock | TrendHandler/TrendFileWriter.cpp:126-158 | stores count and padding, puts the header of the next block into the buffer and moves to it; true exactly when count and padding are stored |
| TrendFileWriter.TndFile.Write | TrendHandler/TrendFileWriter.cpp:108-111 | puts the data into the buffer and answers its length, whatever the medium will accept |
| TrendFileWriter.TndFile.Seek | TrendHandler/TrendFileWriter.cpp:117-120 | stores what is buffered, as far as the medium accepts it, and moves only if it accepts all |
| TrendFileWriter.TndFile.Size | TrendHandler/TrendFileWriter.cpp:182-185 | stores what is buffered; the size, or 0 if the medium refuses a byte |
| TrendFileWriter.TndFile.Flush | TrendHandler/TrendFileWriter.cpp:160-160 | stores a prefix of what is buffered at its offset; what was refused stays buffered |
| TrendFileRecorder.Recorder.Start | TrendHandler/TrendFileRecorder.cpp:22-65 | refused while recording, without channels, or when the file cannot be made; otherwise an empty recording |
| TrendFileRecorder.Recorder.OnTimer | TrendHandler/TrendFileRecorder.cpp:103-135 | records go on exactly while the file is below capacity and the medium has accepted the bytes before the last write of each; when they stop, the closed file shows exactly the records of whose count a byte was accepted |
| TrendFileRecorder.Recorder.Stop | TrendHandler/TrendFileRecorder.cpp:70-84 | the same for a recording that is stopped |
| TrendFileRecorder.ShownIffCounted | TrendHandler/TrendFileWriter.cpp:100-124 | the records shown are a prefix: those of whose count at least one byte reached the medium |
| TrendFileRecorder.OnlyTheLastIsLost | TrendHandler/TrendFileWriter.cpp:84-162 | of the records whose append was answered with true at most the last is not read back, and exactly if it is an ordinary record and its 32 bytes are the last the medium accepts |
| TrendFileReader.ReadLatest | TrendHandler/TrendFileReader.cpp:85-116 | for every history a file shows, the newest record of it, or none when it is empty |
| TrendFileReader.LatestIsLast | TrendHandler/TrendFileReader.cpp:93-113 | the backward walk from the last possible block finds the newest record, across torn headers and empty blocks |
| TrendFileReader.ReadSample | TrendHandler/TrendFileReader.cpp:121-187 | too short, invalid interval, or records of the shown history: the first candidate is record 0, or the one whose second the start of the range falls in; then every step-th record whose time is not past the end of the range, until the next one is past it or there are no more; none for a range that ends before the file starts |
| TrendFileReader.ScanLoop | TrendHandler/TrendFileReader.cpp:147-184 | the loop with its cached block header and early breaks returns what the uncached scan returns |
| TrendFileReader.ScanIsSampled | TrendHandler/TrendFileReader.cpp:147-184 | the scan of the bytes neither loses nor repeats a record of the shown history |
| TrendFileReader.SampledIsExact | TrendHandler/TrendFileReader.cpp:136-184 | element i of a sample is record start + i * step, and the sample ends only at the end of the range or of the records |
| TrendFileReader.ParseHeader | TrendHandler/TrendFileReader.cpp:192-231 | short file, wrong magic, or the bytes of the header as fields, start time and interval included; the end time is the start time plus one interval for each record, in 32 bits; the record count is right exactly when the file does not end between a full block and the next block header, and 0 otherwise |
| TrendFileReader.LastBlockCount | TrendHandler/TrendFileReader.cpp:212-227 | the last block header gives the number of records of the whole file |
| TrendFileReader.CompleteFileEndsWhole | TrendHandler/TrendFileReader.cpp:212-227 | after completed appends the file never ends between two blocks, so the count is the writer's |
| TrendFileReader.TornCount | TrendHandler/TrendFileReader.cpp:212-227 | the interrupted appends whose file counts 0 are exactly those of a block-filling record stopped after 58 to 65 bytes |
| TrendFileReader.AcknowledgedAppend | TrendHandler/TrendFileWriter.cpp:113-161 | of the appends answered with true exactly those of an ordinary record with 32 bytes stored are not read back, and exactly those of a block-filling one with 58 to 65 make the record count read 0 |
| TrendFileReader.InterruptedHistoryIsReadBack | TrendHandler/TrendFileReader.cpp:85-187 | both readers over every history and every interrupted append: the n records up to the record's own bytes, n + 1 from the first byte of the count on |
| TrendFileReader.HeaderIsReadBack | TrendHandler/TrendFileReader.cpp:192-231 | magic, channel count, start time and interval are read back as written, whatever follows |
| DataCollector.BuildBatches | data_collection/processor/DataCollector.cpp:40-94 | for any sorted order: the batches are contiguous reads of one type, at most 64 long unless a single field, each as long as it could be |
| DataCollector.CanMergeIsMergeable | data_collection/processor/DataCollector.cpp:71-77 | the merge test of the loop holds exactly when the run may grow by one field |
| DataCollector.BatchesPartition | data_collection/processor/DataCollector.cpp:68-91 | every register lies in exactly one slice, cut from the read of its own type at its own address with its own length |
| DataCollector.GreedyIsOptimal | data_collection/processor/DataCollector.cpp:66-91 | no other cut of the sorted order into legal reads has fewer reads |
| BatchOptimality.FewestReads | data_collection/processor/DataCollector.cpp:50-91 | when registers that one read could join are neighbours in sorted order, no family of legal reads in whatever grouping covers all registers with fewer reads |
| BatchOptimality.FewestBatches | data_collection/processor/DataCollector.cpp:40-94 | so the batches that are built are the fewest reads possible |
| BatchOptimality.ApartAreNext | data_collection/processor/DataCollector.cpp:50-91 | registers that do not overlap meet that condition |
| BatchOptimality.OverlapCanCostAnExtraRead | data_collection/processor/DataCollector.cpp:50-91 | overlapping registers that break the condition: three built reads where two legal ones suffice |
| DataCollector.SliceIsField | data_collection/processor/DataCollector.cpp:123-143 | a slice of a batch response, in the field's word order, is what reading the field alone gives |
| DataCollector.Collector.CollectField | data_collection/processor/DataCollector.cpp:25-38 | reading one register alone: word i is the word at its address plus i for an effective order of big endian, and the one at i from the end of the register for any other; coils in order |
| DataCollector.FieldReadsDevice | data_collection/processor/DataCollector.cpp:25-38 | the value of a register alone, as words and coils of the device at its addresses |
| DataCollector.Collector.CollectBatch | data_collection/processor/DataCollector.cpp:111-144 | the registers of one batch get their results, all others keep theirs |
| DataCollector.Collector.CollectAllFields | data_collection/processor/DataCollector.cpp:100-147 | register i gets what reading it alone gives, with the outcome of the one batch that contains it: the device's words at its own addresses, in its effective order |
| DataCollector.CollectAllEqualsEach | data_collection/processor/DataCollector.cpp:25-147 | with every batch answered, the batched and the single read of every register are equal |
| DeviceModels.ApplyByteOrder | data_collection/comm/RegisterExecutor.cpp:146-159 | word i of the result is word i for big endian and the i-th from the end for any other order |
| DeviceModels.OrderedByField | data_collection/comm/RegisterExecutor.cpp:146-159 | the order is the one of the register unless that is the default, and then the one of the device |
| DeviceModels.OrderedTwice | data_collection/comm/RegisterExecutor.cpp:146-159 | applying a word order twice gives the values back |
| WirePolling.AnsweredIff | data_collection/comm/RegisterExecutor.cpp:113-138 | over the wire a batch is answered exactly when each of its registers would be answered alone and it does not run past address 65535: one register outside the slave costs its whole batch |
| WirePolling.SliceIsAlone | data_collection/processor/DataCollector.cpp:123-143 | inside an answered batch every register is what it would be alone |
| WirePolling.CollectBatch | data_collection/processor/DataCollector.cpp:111-144 | one request per batch; its registers get their part, all others keep theirs |
| WirePolling.CollectAllFields | data_collection/processor/DataCollector.cpp:100-147 | through the client, register i gets its own value exactly when its batch is answered, and fails otherwise |
| Crc16.Compute | data_collection/comm/modbus/ModbusRTUClient.cpp:211-222 | the nested loops compute the checksum as a linear register fed byte by byte |
| Crc16.BurstDetected | data_collection/comm/modbus/ModbusRTUClient.cpp:211-222 | equal-length payloads that differ only in a burst of at most 16 bits have different checksums, at any length and position |
| Crc16.TwoByteChangeDetected | data_collection/comm/modbus/ModbusRTUClient.cpp:211-222 | payloads that differ only inside two consecutive bytes have different checksums |
| Crc16.OddErrorsDetected | data_collection/comm/modbus/ModbusRTUClient.cpp:211-222 | payloads that differ in an odd number of bits have different checksums |
| CrcDistance.OneReturnsIff | data_collection/comm/modbus/ModbusRTUClient.cpp:211-222 | the period of the checksum register: started at 1 it is back at 1 exactly after the multiples of 32767 shifts |
| CrcDistance.LeapSplits | data_collection/comm/modbus/ModbusRTUClient.cpp:211-222 | on registers of even parity 16p shifts are 2p shifts plus p shifts, for every power of two p |
| CrcDistance.TwoFlipsIff | data_collection/comm/modbus/ModbusRTUClient.cpp:211-222 | two flipped bits in different bytes go unnoticed exactly when their distance is a multiple of 32767, at any length |
| CrcDistance.TwoBitErrorsDetected | data_collection/comm/modbus/ModbusRTUClient.cpp:211-222 | payloads of up to 4095 bytes that differ in exactly two bits have different checksums, wherever the bits lie |
| CrcDistance.FewBitErrorsDetected | data_collection/comm/modbus/ModbusRTUClient.cpp:211-222 | the same for one, two or three bits |
| CrcDistance.FirstAndLastBitUndetected | data_collection/comm/modbus/ModbusRTUClient.cpp:211-222 | 4095 is the largest such length: in 4096 bytes the first and the last bit flip unnoticed |
| Crc16.ResidueIsZeroIff | data_collection/comm/modbus/ModbusRTUClient.cpp:290-299 | the checksum of a payload followed by two bytes is zero exactly when they are its checksum, low byte first |
| ModbusFrames.CrcOkIsZeroResidue | data_collection/comm/modbus/ModbusRTUClient.cpp:290-299 | the receiver's comparison is the zero residue of the whole frame |
| ModbusFrames.DamagedFrameRejected | data_collection/comm/modbus/ModbusRTUClient.cpp:273-299 | no version of an accepted frame damaged by a burst of at most 16 bits, payload or checksum, passes |
| ModbusFrames.OddlyDamagedFrameRejected | data_collection/comm/modbus/ModbusRTUClient.cpp:273-299 | nor any version with an odd number of flipped bits |
| ModbusFrames.SlightlyDamagedFrameRejected | data_collection/comm/modbus/ModbusRTUClient.cpp:273-299 | nor any version with one, two or three flipped bits, for frames of up to 4095 bytes |
| ModbusFrames.RtuRoundTrip | data_collection/comm/modbus/ModbusRTUClient.cpp:121-135 | a framed pdu passes the check and is recovered |
| ModbusFrames.TcpRoundTrip | data_collection/comm/modbus/ModbusTCPClient.cpp:204-214 | a pdu below 65536 bytes is recovered from its MBAP frame |
| WireFormat.RequestLayout | data_collection/comm/modbus/ModbusRTUClient.cpp:121-135 | unit, function, address and quantity of a request, high bytes first, for all integers |
| WireFormat.WriteCoilLayout | data_collection/comm/modbus/ModbusRTUClient.cpp:137-151 | FF00 or 0000 (hex) behind the address |
| WireFormat.WriteRegistersLayout | data_collection/comm/modbus/ModbusRTUClient.cpp:189-209 | quantity, twice the quantity as byte count, then each word with its high byte first |
| WireFormat.WriteCoilsLayout | data_collection/comm/modbus/ModbusRTUClient.cpp:169-187 | quantity, number of data bytes, then coil i as bit i % 8 of data byte i / 8 and zeros behind the last coil |
| WireFormat.CrcExample | data_collection/comm/modbus/ModbusRTUClient.cpp:211-222 | the checksum of 02 07 is 1241 (hex), sent as 41 12 |
| WireFormat.RequestExample | data_collection/comm/modbus/ModbusRTUClient.cpp:121-135 | the request for registers 108 to 110 of unit 17 is 11 03 00 6B 00 03 (hex) |
| WireFormat.AsciiExample | data_collection/comm/modbus/ModbusASCIIClient.cpp:115-122 | and as a line :1103006B00037E |
| WireFormat.TcpLayout | data_collection/comm/modbus/ModbusTCPClient.cpp:204-214 | transaction id, protocol 0 and length, each high byte first, then the pdu |
| CoilBits.PackCoils | data_collection/comm/modbus/ModbusRTUClient.cpp:224-232 | coil i becomes bit i % 8 of byte i / 8, unused bits zero |
| CoilBits.UnpackCoils | data_collection/comm/modbus/ModbusRTUClient.cpp:55-61 | coil i is bit i % 8 of data byte i / 8 |
| CoilBits.UnpackedPacked | data_collection/comm/modbus/ModbusRTUClient.cpp:224-232 | packing loses nothing, for any number of coils |
| ModbusPdu.AppendWords | data_collection/comm/modbus/ModbusRTUClient.cpp:200-203 | each word appended high byte first |
| ModbusPdu.DecodeWords | data_collection/comm/modbus/ModbusRTUClient.cpp:30-34 | word i from data bytes 2i and 2i + 1 |
| ModbusPdu.WordsReadBack | data_collection/comm/modbus/ModbusRTUClient.cpp:200-203 | words survive their bytes |
| ModbusPdu.AcceptedReadIsLongEnough | data_collection/comm/modbus/ModbusRTUClient.cpp:341-363 | an accepted read response holds all the data it announces |
| ModbusPdu.AcceptedIffAsked | data_collection/comm/modbus/ModbusRTUClient.cpp:301-363 | a response is accepted exactly if it comes from the unit asked, of the function asked and with as much data as asked; it is an exception exactly if its function has the high bit on top |
| ModbusPdu.ExceptionIsRejected | data_collection/comm/modbus/ModbusRTUClient.cpp:320-333 | an exception response is rejected with its code |
| ModbusAscii.ComputeLrc | data_collection/comm/modbus/ModbusASCIIClient.cpp:204-210 | the loop computes the negated byte sum |
| ModbusAscii.OneByteChangeDetected | data_collection/comm/modbus/ModbusASCIIClient.cpp:204-210 | one changed byte anywhere changes the LRC |
| ModbusAscii.FromHexToHex | data_collection/comm/modbus/ModbusASCIIClient.cpp:115-122 | upper-case hex digits decode to the bytes |
| ModbusAscii.AsciiRoundTrip | data_collection/comm/modbus/ModbusASCIIClient.cpp:241-281 | the parser recovers any pdu of at least two bytes behind colon-free noise and before trailing bytes |
| ModbusExchange.ReadRegistersServed | data_collection/comm/modbus/ModbusRTUClient.cpp:11-36 | function 03 against a conforming slave is accepted exactly for 1 to 125 registers inside its memory and then yields them, for every address and quantity |
| ModbusExchange.ReadCoilsServed | data_collection/comm/modbus/ModbusRTUClient.cpp:38-62 | function 01 likewise for 1 to 2000 coils |
| ModbusExchange.WriteRegisterServed | data_collection/comm/modbus/ModbusRTUClient.cpp:153-167 | function 06 writes one register or changes nothing |
| ModbusExchange.WriteCoilServed | data_collection/comm/modbus/ModbusRTUClient.cpp:137-151 | function 05 writes one coil or changes nothing |
| ModbusExchange.WriteRegistersServed | data_collection/comm/modbus/ModbusRTUClient.cpp:189-209 | function 10 (hex) writes all of 1 to 123 registers or nothing |
| ModbusExchange.WriteCoilsServed | data_collection/comm/modbus/ModbusRTUClient.cpp:169-187 | function 0F (hex) writes all of 1 to 1968 coils or nothing |
| ModbusClient.FrameVerified | data_collection/comm/modbus/ModbusTCPClient.cpp:291-366 | for each framing a framed response is judged exactly as its pdu |
| ModbusClient.AcceptedResponseHoldsItsData | data_collection/comm/modbus/ModbusRTUClient.cpp:341-363 | no accepted read response, whoever sent it, is indexed out of range, in any framing |
| ModbusClient.ExchangeIsTransparent | data_collection/comm/modbus/ModbusTCPClient.cpp:160-215 | through any framing an exchange comes out as if the pdus had been passed directly |
| ModbusClient.Client.BuildFrame | data_collection/comm/modbus/ModbusTCPClient.cpp:204-214 | the frame of the pdu; only TCP uses up a transaction id |
| ModbusClient.Client.Transact | data_collection/comm/modbus/ModbusRTUClient.cpp:234-260 | the request is served once if it arrives, and accepted exactly when the answer comes back and the checks accept it |
| ModbusClient.Client.ReadWords | data_collection/comm/modbus/ModbusRTUClient.cpp:11-36 | the registers of the slave, exactly when it is reached and the stretch is legal; the slave is unchanged |
| ModbusClient.Client.ReadBits | data_collection/comm/modbus/ModbusRTUClient.cpp:38-62 | the same for coils |
| ModbusClient.Client.WriteWords | data_collection/comm/modbus/ModbusRTUClient.cpp:64-88 | true exactly when a legal stretch of a reached slave is overwritten and answered; it is overwritten exactly when the request arrives, answered or not; one value and several take different functions |
| ModbusClient.Client.WriteBits | data_collection/comm/modbus/ModbusRTUClient.cpp:90-114 | the same for coils |
| RegisterExecutor.Executor.ReadField | data_collection/comm/RegisterExecutor.cpp:39-66 | bits for bit types; for word types word i is the slave's at the address plus i for an effective order of big endian and the one i from the end for any other; nothing for others |
| RegisterExecutor.Executor.WriteField | data_collection/comm/RegisterExecutor.cpp:68-111 | read-only, wrong count and unwritable types are refused before anything is sent; otherwise the slave holds each value at its own address, words in the effective order, and everything else as before, once the request arrives |
| RegisterExecutor.Executor.ReadBatch | data_collection/comm/RegisterExecutor.cpp:113-138 | the raw stretch of the memory of the type |
| RegisterExecutor.Executor.WriteThenRead | data_collection/comm/RegisterExecutor.cpp:39-111 | an accepted write is read back, for every writable register, legal quantity, word order and framing |
| RegisterExecutor.Executor.WriteThenReadOther | data_collection/comm/RegisterExecutor.cpp:39-111 | a register that shares no address with the written one reads as before |
| RegisterTable.Combine | data_collection/store/RegisterTable.cpp:101-129 | words on 64-bit arithmetic: any number of unsigned ones, modulo 2^64, and one to four signed ones in two's complement |
| RegisterTable.Read64IsExact | data_collection/store/RegisterTable.cpp:101-129 | up to four words give the number they spell; of more unsigned ones the last four are read |
| RegisterTable.Read64Spells | data_collection/store/RegisterTable.cpp:101-129 | the reading is the number the words spell in base 65536, less 2 to the power of all their bits if the register is signed and the first bit is set |
| RegisterTable.DecodedSplit | data_collection/store/RegisterTable.cpp:101-129 | decoding inverts the split of every number that fits, for any number of words |
| RegisterTable.SplitDecoded | data_collection/store/RegisterTable.cpp:101-129 | and the split inverts decoding |
| RegisterTable.StoredNumberReadsBack | data_collection/store/RegisterTable.cpp:101-129 | a number split, stored in the device's word order, read back and decoded is the number |
| RegisterTable.ComputeScaledValue | data_collection/store/RegisterTable.cpp:82-134 | the number the words spell, signed or not, or the number of true coils, times the scale; 0 for no values and other types |
| RegisterTable.ScaledMeans | data_collection/store/RegisterTable.cpp:82-134 | the specification function gives exactly that for every register type and signedness |
| RegisterTable.CountTrueIsSize | data_collection/store/RegisterTable.cpp:94-98 | the count is the number of positions with a true coil |
| RegisterTable.Table.UpdateState | data_collection/store/RegisterTable.cpp:23-68 | a good read stores time, values and the clamped scaled value; a failed one keeps the last ones; the range flag is judged on the previous value |
| RegisterTable.Table.ReadTwice | data_collection/store/RegisterTable.cpp:49-55 | with fixed limits the range flag is never set from the second good read on |
| PcLink.CalcBodySum | data_collection/comm/pclink/PcLinkSumTCPClient.cpp:149-154 | the byte sum of the body |
| WireFormat.PcLinkLayout | data_collection/comm/pclink/PcLinkSumTCPClient.cpp:138-147 | start mark, body, high and low digit of the sum, carriage return, line feed |
| PcLink.VerifyFrameSum | data_collection/comm/pclink/PcLinkSumTCPClient.cpp:156-170 | marks, length and sum digits of either case |
| PcLink.WrappedFrameVerifies | data_collection/comm/pclink/PcLinkSumTCPClient.cpp:138-170 | a wrapped frame passes exactly when its body is not empty |
| PcLink.DamagedBodyRejected | data_collection/comm/pclink/PcLinkSumTCPClient.cpp:156-170 | one changed body byte is detected |
| PcLink.SwappedBodyAccepted | data_collection/comm/pclink/PcLinkSumTCPClient.cpp:156-170 | two swapped neighbours are not |
| PcLink.ParseRsdResponse | data_collection/comm/pclink/PcLinkSumTCPClient.cpp:208-256 | error frame, bad sum, too short, bad header, bad value, or the values |
| PcLink.HexWordIsNumber | data_collection/comm/pclink/PcLinkSumTCPClient.cpp:239-250 | four hex digits are a number, highest digit first; anything else is none |
| PcLink.RsdMeans | data_collection/comm/pclink/PcLinkSumTCPClient.cpp:208-256 | an error frame is told by its two letters alone; values are given exactly if the sum is right, the response long enough, RSD,OK in place and every field asked for a comma and a value, and then they are these |
| PcLink.RsdRoundTrip | data_collection/comm/pclink/PcLinkSumTCPClient.cpp:208-256 | every printed value list is read back up to the requested count; a larger count is refused |
| HmiListing.QueryIds | data_collection/database/DeviceDatabase.cpp:1827-1838 | the ids by sort order, then by id |
| HmiListing.ListingIsUnique | data_collection/database/DeviceDatabase.cpp:1827-1838 | a table has one listing only |
| HmiListing.PermutationIff | data_collection/database/DeviceDatabase.cpp:1945-1952 | comparing the two sorted lists accepts exactly the permutations of the existing ids |
| HmiListing.QueryTopSort | data_collection/database/DeviceDatabase.cpp:2055-2061 | the largest sort order, or -1 |
| HmiStore.RefusedChangesNothing | data_collection/database/DeviceDatabase.cpp:1894-2251 | a refused operation leaves project and screens as they were |
| HmiStore.AcceptedIff | data_collection/database/DeviceDatabase.cpp:1447-2251 | each operation goes through exactly if room, revision, start screen, order and ids allow it, an order exactly if it is as long as there are screens and has them all; which refusal it is |
| HmiStore.StepMeans | data_collection/database/DeviceDatabase.cpp:1447-2251 | what an accepted operation stores, field by field: a new screen with its title, content and author at revision 1, a replaced one with the new content and title at the next revision, a project with what was given; everything else as before |
| HmiStore.StepKeepsInvariant | data_collection/database/DeviceDatabase.cpp:1894-2251 | start screen empty exactly without screens and else existing, sort orders distinct, ids not empty: kept by every operation, by a successful insert exactly when its id is not empty |
| HmiStore.InvariantOverRuns | data_collection/database/DeviceDatabase.cpp:1447-2251 | the invariant holds after every run of inserts, updates, deletes, restores and resets |
| HmiStore.StoreRefinesBook | data_collection/database/DeviceDatabase.cpp:1894-2251 | tables with sort orders behave as an ordered list of ids: same results, listing and project |
| HmiStore.InsertLandsLast | data_collection/database/DeviceDatabase.cpp:2074-2083 | an inserted screen is listed last |
| HmiStore.AcceptedOrderIsListing | data_collection/database/DeviceDatabase.cpp:1970-1977 | an accepted order is the new listing |
| HmiStore.DeleteKeepsOrder | data_collection/database/DeviceDatabase.cpp:2234-2236 | a delete keeps the order of the other screens |
| HmiStore.ScreenUpdateKeepsView | data_collection/database/DeviceDatabase.cpp:2111-2174 | screen updates change neither the project nor the listing |
| HmiStore.RestoredScreensLaws | data_collection/database/DeviceDatabase.cpp:1482-1509 | restoring screens fails exactly for a repeated id; otherwise the records with an id, numbered in order |
| HmiStore.RestoreMeans | data_collection/database/DeviceDatabase.cpp:1447-1537 | a restore goes through exactly if no screen id is given twice; then one screen for each record with an id, with its title, content and revision, in the order of the records; name and revision of the project from the backup, its start screen the given one if there is one, else the first |
| HmiStore.ProjectRevisionCounts | data_collection/database/DeviceDatabase.cpp:1840-1855 | without restore and reset, the project revision grows by the number of successful project changes |
| HmiStore.StaleProjectUpdateRefused | data_collection/database/DeviceDatabase.cpp:1921-1924 | of two project updates from one base revision at most one is carried out |
| HmiStore.ScreenRevisionCounts | data_collection/database/DeviceDatabase.cpp:2111-2174 | while a screen lives its revision grows by the number of its successful updates |
| HmiStore.StaleScreenUpdateRefused | data_collection/database/DeviceDatabase.cpp:2145-2150 | of two updates of a screen from one base revision, within one lifetime, at most one is carried out |
| HmiStore.LifetimesShareRevisions | data_collection/database/DeviceDatabase.cpp:2074-2083 | across delete and re-insert both may be: the new screen starts at revision 1 again |
| HmiTables.Tables.InsertScreen | data_collection/database/DeviceDatabase.cpp:2025-2109 | after success the new screen has the given title, content and author and revision 1, behind all others; the first one is the start screen; the project is one revision on, all else as before; the specified step, or nothing at all when any statement fails |
| HmiTables.Tables.UpdateScreen | data_collection/database/DeviceDatabase.cpp:2111-2174 | after success the screen has the given content, the new title or else the old one, the next revision, time and author, and its old place; the other screens and the project row are as before; refused or failed: nothing |
| HmiTables.Tables.DeleteScreen | data_collection/database/DeviceDatabase.cpp:2176-2251 | after success the screen is gone, and only it; the start screen only as the last one; the project is one revision on; refused or failed: nothing |
| HmiTables.Tables.CheckUpdate | data_collection/database/DeviceDatabase.cpp:1926-1952 | start screen and order are checked against the stored screens |
| HmiTables.Tables.Reorder | data_collection/database/DeviceDatabase.cpp:1970-1977 | one row update per id gives every screen its place in the order |
| HmiTables.Tables.UpdateProject | data_collection/database/DeviceDatabase.cpp:1894-1992 | after success name, start screen and order are the given ones or as before, each screen at its place in the order; refused or failed: nothing; the reported project is the stored one |
| HmiTables.Tables.RestoreHmi | data_collection/database/DeviceDatabase.cpp:1462-1537 | project and screens of the backup, record by record, or nothing |
| DeviceTables.QueryNextAuto | data_collection/database/DeviceDatabase.cpp:703-716 | one more than the largest address of the automatic range |
| DeviceTables.AutoAssignment | data_collection/database/DeviceDatabase.cpp:659-749 | an assigned address is in 1..4999 and above all others of the automatic range; it fails exactly when 4999 is taken or a statement fails, and then leaves a row without an address |
| DeviceTables.AutoReassignment | data_collection/database/DeviceDatabase.cpp:751-772 | asking again on an update fails exactly when 4999 is taken, even by the same register, and then changes nothing; otherwise the new address is above all others, the register's own included |
| DeviceTables.GivenAddressMeans | data_collection/database/DeviceDatabase.cpp:659-803 | with an address given, insert and update go through exactly if device and type are legal and no other register has it; the row is then stored as given, an updated one on its old device, and no other register changes |
| DeviceTables.DeviceChangesMean | data_collection/database/DeviceDatabase.cpp:480-574 | a device is stored exactly if its protocol is known and no other has its code; nothing but its row changes |
| DeviceTables.RegisterInsertedKeeps | data_collection/database/DeviceDatabase.cpp:659-749 | inserting a register keeps all constraints, whatever the outcome |
| DeviceTables.RegisterUpdatedKeeps | data_collection/database/DeviceDatabase.cpp:751-803 | so does updating one |
| DeviceTables.DeviceDeletedKeeps | data_collection/database/DeviceDatabase.cpp:576-595 | deleting a device takes its registers and their tags along and keeps all constraints |
| DeviceTables.DeviceDeletedMeans | data_collection/database/DeviceDatabase.cpp:576-595 | the device, its registers and their tags are gone; all other devices, registers and tags, the sequences and the HMI are as before |
| DeviceTables.RegisterDeletedMeans | data_collection/database/DeviceDatabase.cpp:805-819 | the register and its tags are gone, nothing else |
| DeviceTables.TagChangesMean | data_collection/database/DeviceDatabase.cpp:1738-1793 | a tag is stored exactly if its register is there, its access legal and, when new, its id free; an update keeps the creation time; nothing else changes |
| DatabaseRuns.DbStepKeeps | data_collection/database/DeviceDatabase.cpp:480-819 | every operation keeps the constraints and the HMI invariant |
| DatabaseRuns.ReachableDatabase | data_collection/database/DeviceDatabase.cpp:268-271 | in every reachable database non-negative unified addresses are pairwise distinct and no register or tag dangles |
| DeviceDatabase.Store.InsertRegister | data_collection/database/DeviceDatabase.cpp:659-749 | row first, then the query and the update of its address, any of which may fail, as specified |
| DeviceDatabase.Store.UpdateRegister | data_collection/database/DeviceDatabase.cpp:751-803 | address first, row second, as specified |
| DeviceDatabase.Store.DeleteDevice | data_collection/database/DeviceDatabase.cpp:576-595 | rows and everything that refers to them |
| DeviceDatabase.Store.SnapshotTags | data_collection/database/DeviceDatabase.cpp:1230-1255 | every tag once, with the unified address of its register |
| DeviceDatabase.Store.BuildIndex | data_collection/database/DeviceDatabase.cpp:1350-1358 | the register id of every assigned unified address |
| DeviceDatabase.Store.RelinkTags | data_collection/database/DeviceDatabase.cpp:1360-1390 | kept tags on the registers that have their addresses; kept and dropped add up |
| DeviceDatabase.Store.RestoreDevices | data_collection/database/DeviceDatabase.cpp:1272-1307 | the devices in order under fresh ids, and the map from old ids |
| DeviceDatabase.Store.RestoreRegisters | data_collection/database/DeviceDatabase.cpp:1309-1343 | the registers of known devices, re-mapped |
| DeviceDatabase.Store.RestoreTags | data_collection/database/DeviceDatabase.cpp:1542-1593 | tags resolved by unified address |
| DeviceDatabase.Store.RestoreAll | data_collection/database/DeviceDatabase.cpp:1194-1609 | for any backup and any choice of parts: with enough statements it succeeds exactly if the chosen parts are restorable, and then the database holds what their records say and the rest as it was; otherwise nothing changes |
| DeviceDatabase.Store.RestoreHmiPart | data_collection/database/DeviceDatabase.cpp:1447-1593 | the HMI part: project, screens and tags of the backup, or a reason why not |
| DeviceDatabase.Store.FactoryReset | data_collection/database/DeviceDatabase.cpp:1611-1684 | no devices, registers, tags, screens and project row, the id sequences going on; or everything as it was |
| RestoreData.RestoreKeepsConstraints | data_collection/database/DeviceDatabase.cpp:1194-1609 | whatever a backup holds, a restore keeps every constraint and the HMI invariant |
| RestoreLaws.RestoreGives | data_collection/database/DeviceDatabase.cpp:1194-1609 | for any backup, with or without devices, with or without HMI: it succeeds exactly if the device codes and addresses given do not repeat, protocols and types are legal, no screen repeats, and the tags with a known address repeat no id and have a legal access; HMI alone leaves devices, registers and sequences as they were; devices alone re-link the tags by address |
| RestoreLaws.TagsRestored | data_collection/database/DeviceDatabase.cpp:1542-1593 | a tag is there exactly for a record with an id and an address some register has, on that register, with the record's other fields |
| RestoreLaws.DevicesGiven | data_collection/database/DeviceDatabase.cpp:1272-1307 | device i of the backup gets the i-th fresh id with the record's row; an old id leads to its last record |
| RestoreLaws.RegistersGiven | data_collection/database/DeviceDatabase.cpp:1309-1343 | a register for each record whose device is in the backup, numbered in order, on that device and otherwise as recorded; records of unknown devices are skipped |
| RestoreData.RelinkConserves | data_collection/database/DeviceDatabase.cpp:1230-1397 | a tag is kept exactly when its unified address exists among the new registers, sits there, and is otherwise unchanged; kept plus dropped is all |
| RestoreData.TagsAreConserved | data_collection/database/DeviceDatabase.cpp:1230-1397 | the same for the whole restore of devices without HMI |
| RestoreData.IndexIsUnique | data_collection/database/DeviceDatabase.cpp:1350-1358 | with unique addresses the lookup table does not depend on the order of the rows |
| BackupManager.BuildDevices | maintenance/BackupManager.cpp:177-213 | one record per device, without the poll mode |
| BackupManager.BuildRegisters | maintenance/BackupManager.cpp:215-248 | one record per register, over all devices |
| BackupManager.UnifiedById | maintenance/BackupManager.cpp:292-304 | the unified address of every register by id |
| BackupManager.BuildScreens | maintenance/BackupManager.cpp:313-334 | one record per screen, in listing order |
| BackupManager.BuildTags | maintenance/BackupManager.cpp:336-350 | one record per tag, its register given by unified address |
| BackupManager.BuildAll | maintenance/BackupManager.cpp:177-358 | the whole backup |
| BackupRoundTrip.BackupThenRestore | maintenance/BackupManager.cpp:177-358 | backup and full restore into any database: succeeds exactly when no register has one of the two older type texts, and then gives the same database up to one-to-one renamings of device and register ids |
| BackupRoundTrip.DevicesComeBack | data_collection/database/DeviceDatabase.cpp:1272-1307 | the devices of a backup get consecutive fresh ids and are otherwise unchanged but for the poll mode |
| BackupRoundTrip.RegistersComeBack | data_collection/database/DeviceDatabase.cpp:1309-1343 | the registers likewise, on the renamed devices |
| BackupRoundTrip.LegacyStopsRegisters | data_collection/model/DeviceModels.h:332-341 | one register of an older type is printed as unknown and makes the restore fail |
| BackupRoundTrip.HmiComesBack | data_collection/database/DeviceDatabase.cpp:1447-1537 | same project, same screens, same listing |
| BackupRoundTrip.TagsComeBack | data_collection/database/DeviceDatabase.cpp:1542-1593 | the tags whose register has an address, on that address |
| DeviceCache.DeviceList.Reset | data_collection/store/DeviceList.cpp:9-18 | a new list, and no pending writes |
| DeviceCache.DeviceList.UpdateStatus | data_collection/store/DeviceList.cpp:20-29 | the status of a listed device; false where the code throws |
| DeviceCache.DeviceList.FindByUnifiedAddress | data_collection/store/DeviceList.cpp:104-118 | a register with the address, or none has it |
| DeviceCache.LookupIsUnambiguous | data_collection/store/DeviceList.cpp:104-118 | while the listed registers are as stored the lookup does not depend on the order of the hash |
| DeviceCache.SyncSteps | api/ApiServer.cpp:2334-2417 | from any list whose devices and registers are as stored: they stay so, and afterwards a device is listed completely exactly if it was loaded anew, or was complete and no row without an address was left behind on it; so adding a device, or a register operation on this one, repairs the list |
| DeviceCache.SyncKeepsAgreement | api/ApiServer.cpp:2334-2417 | list and database keep agreeing through every operation, successful or refused, except exactly when a register without an address is added to a stored device and 4999 is taken or a later statement fails |
| DeviceCache.ListedIffStored | data_collection/store/DeviceList.cpp:88-102 | under agreement a register is found in the list exactly when it is stored |
| DeviceCache.SyncKeepsOwned | api/ApiServer.cpp:2334-2417 | a listed register always names the device it is listed under, whatever became of the database |
| DeviceCache.SyncMeans | api/ApiServer.cpp:2334-2417 | what each handler leaves in database and list: the given rows stored, deleted ones gone, a deletion of an unlisted device still reaching the database, and a register changed or deleted only if the list has it |
| ApiServer.LoadRegisters | data_collection/database/DeviceDatabase.cpp:600-657 | every register of the device once |
| ApiServer.LoadDevices | data_collection/database/DeviceDatabase.cpp:421-478 | every device with its registers |
| ApiServer.Sync.AddDevice | api/ApiServer.cpp:2334-2345 | database, then the list anew |
| ApiServer.Sync.UpdateDevice | api/ApiServer.cpp:2347-2354 | database, then the listed device |
| ApiServer.Sync.DeleteDevice | api/ApiServer.cpp:2356-2363 | database, then the list |
| ApiServer.Sync.AddRegister | api/ApiServer.cpp:2365-2378 | database, then the registers of its device, from any list; false also when the list does not have the device |
| ApiServer.Sync.UpdateRegister | api/ApiServer.cpp:2380-2393 | the same for a changed register; "not found" only of a register that is not listed |
| ApiServer.Sync.DeleteRegister | api/ApiServer.cpp:2395-2417 | the same for a deleted one; under agreement the answer tells truly whether it was stored |
| PollingManager.NextKeepsSafe | api/ApiServer.cpp:366-374 | handlers turned away while polling runs keep every polled device in the list |
| PollingManager.ReportsNeverThrow | data_collection/polling/SerialWorker.cpp:152-152 | in every interleaving of handlers, start, stop and polling threads, a reporting thread finds its device; no configuration changes while a thread lives |
| PollingManager.RunsKeepAgreement | api/ApiServer.cpp:2334-2417 | in every such run without restore, reset or exhaustion, list and database agree all along |
| PollingManager.RunsReflect | api/ApiServer.cpp:2334-2417 | in every run without restore or reset, devices and listed registers are as stored, also after an exhaustion; in every run at all each listed register names its device |
| PollingManager.Assign | data_collection/polling/PollingManager.cpp:30-72 | every enabled device goes to exactly one thread, by its connection type |
| WriteQueue.RunsConserve | data_collection/processor/DataCollector.cpp:153-183 | in every interleaving each accepted request is in exactly one of queued, current pass, written, dropped |
| WriteQueue.AttemptsBounded | data_collection/processor/DataCollector.cpp:166-181 | no request is tried more than its retry count plus one times |
| WriteQueue.AttemptProgress | data_collection/processor/DataCollector.cpp:157-182 | every attempt lowers the sum of remaining retries plus one |
| WriteQueue.RunsDrain | data_collection/processor/DataCollector.cpp:153-183 | without new requests the attempts are bounded by that sum |
| WriteQueue.DrainedAfter | data_collection/processor/DataCollector.cpp:153-183 | and after that many attempts nothing waits any more |
| WriteQueue.StepOrder | data_collection/processor/DataCollector.cpp:157-182 | a step keeps all requests, carried out and waiting, in the order they were enqueued exactly if it does not refuse one that has retries left while others wait |
| WriteQueue.RunsInOrder | data_collection/processor/DataCollector.cpp:153-183 | over every run: in order at every moment exactly if there is no such step, and then what was written ascends |
| WriteQueue.RetryIsOvertaken | data_collection/processor/DataCollector.cpp:166-174 | such a run: a later request carried out before an earlier one |
| WriteFlush.FlushWrites | data_collection/processor/DataCollector.cpp:153-183 | one pass against the slave, each request with its own line and other threads enqueuing meanwhile: memory, queue, written and dropped requests as specified |
| WriteFlush.FlushOne | data_collection/processor/DataCollector.cpp:157-182 | one request of a pass: written, or queued again with one retry less behind what arrived meanwhile, or dropped for want of a connection or retries |
| WriteFlush.PassConserves | data_collection/processor/DataCollector.cpp:153-183 | a pass loses no request, its own or arriving, and each it takes makes what waits lighter by one |
| WriteFlush.PassKeepsWrites | data_collection/processor/DataCollector.cpp:153-183 | no request is altered: queued, written and dropped ones together write, register by register and value by value, what was taken and what arrived |
| WriteFlush.DroppedWithRetries | data_collection/processor/DataCollector.cpp:157-182 | of the dropped requests those with retries left are exactly the ones at whose turn the connection could not be made, in order |
| WriteFlush.DropsOnlySpentIff | data_collection/processor/DataCollector.cpp:157-182 | so a pass drops only requests without retries exactly when the connection fails at none that has some |
| WriteFlush.UnwrittenMemory | data_collection/processor/DataCollector.cpp:166-181 | a request that is not written leaves the memory as it was or as its write makes it, the latter only if the answer was lost |
| WriteFlush.WriteAgain | data_collection/processor/DataCollector.cpp:166-174 | carrying a write out a second time changes nothing |
| WriteFlush.RetryEndsTheSame | data_collection/processor/DataCollector.cpp:166-174 | a write whose answer was lost and whose retry is answered ends in the memory of a single write |
| WriteFlush.DownDropsAll | data_collection/processor/DataCollector.cpp:160-164 | without it every request is dropped, retries or not, and those that arrive are kept |
| WriteRefinement.PassIsRun | data_collection/processor/DataCollector.cpp:157-182 | a pass over real requests, connected or not at each and with others enqueuing in between, is a run of the queue: waiting ones in order, written and dropped ones on record |
| WriteFlush.CheckTargets | modbus_server/ModbusTcpServer.cpp:216-227 | the first pass stops at a read-only or disabled target |
| WriteFlush.ForwardWrite | modbus_server/ModbusTcpServer.cpp:209-242 | nothing at all if a target must not be written; otherwise the queue of each device grows by exactly one request for each k whose address is mapped to it, in the order of k, with the mapped register, the k-th value as its one word, no coils and three retries |
| WriteFlush.ForwardedIsWrites | modbus_server/ModbusTcpServer.cpp:229-242 | the same of the specification function, with the list of those k |
| WriteFlush.ReflectedIsUnambiguous | data_collection/store/DeviceList.cpp:104-118 | while the listed registers are as stored no address is mapped twice |

## Left out

- HTTP, JSON text, sessions, ZIP archives, hashes, users, login, network and time settings: plumbing around the modelled operations; JSON is the record it carries, and an absent poll mode reads as auto.
- Sockets, serial ports and timeouts: of an exchange the model keeps whether the request arrives and whether the answer does. Transaction ids are not matched by the code and not by the model.
- Function codes 02 and 04: the clients read discrete inputs with 01 and input registers with 03; the model has one bit and one word memory.
- DataCollector.Collector.CollectAllFields: for register lengths of at least 1; the device is two memories and one outcome per read, and `WirePolling.CollectAllFields` puts the Modbus client in its place.
- A seek of the trend file that fails for another reason than a full medium, a medium that accepts bytes again after refusing some, and a writer that changes the file during one read. The values of a record are parameters; the sampling of the register table and the status query are not modelled.
- Calendar conversion of the start time: it is a number; the end time wraps at 32 bits as in the code.
- The 50,000 record guard of the sample handler (api/ApiServer.cpp:3962-3969).
- RegisterTable.Combine: for at most four words when signed; beyond that the code shifts by more than 63 bits, which is undefined.
- RegisterTable.ComputeScaledValue: the same; and real numbers, without floating-point rounding.
- RegisterTable.Table.UpdateState: the same, for a good read.
- The range flag as a statement about the current value: the code does not make it one.
- Poll mode and tag times across a backup: not written, so not restored.
- BackupManager.BuildAll: without the users the backup also prints.
- DeviceDatabase.Store.RestoreAll: without the users a backup restores.
- DeviceDatabase.Store.FactoryReset: without the users and the administrator's password it resets.
- A null device code, which reads as empty text; null limits of a register, which read as the limits of the number type. A column holds what reading it gives.
- The order of rows other than screens: any order is allowed for.
- Failing statements of the single-row operations other than inserting a register: they change nothing. A reload of the list that fails after its database statement, which leaves the list as it was.
- HMI restore and reset do not touch the device list; the gateway restarts after them, so agreement is stated for runs without them; the handlers themselves are stated for any list.
- Delivery of forwarded writes: a request carries one word and no coils, so coils and longer registers are refused when it is tried; what is queued is stated.
- What the library makes of four characters that are not four hex digits in a PCLink value: a parameter of the parser. Building PCLink requests (decimal digits) and the variant without a sum.
- Revisions, ids and transaction sequences as 32-bit numbers: they do not wrap here, except the TCP transaction id.
