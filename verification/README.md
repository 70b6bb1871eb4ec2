# A verified model of rocksutil's stateful core

This Dafny project models the parts of rocksutil (utilities taken out of RocksDB) whose correctness
does not follow from reading one function: the write-ahead log, the LRU cache, the thread pool, the
buffered file writer and the readahead file, CRC32C, and the thread-local pointer registry. It
proves what each of them is for, over all inputs and all runs. `dafny verify dfyconfig.toml` checks
everything; no lemma is assumed.

## How it is laid out

| files | source | form |
|---|---|---|
| `Coding`, `Masks`, `Crc32c`, `CrcResidue`, `CrcCheck` | include/rocksutil/coding.h, include/rocksutil/crc32c.h, rutil/crc32c.cc | functions, and the checksum loop as a method |
| `LogFormat`, `LogDestination`, `LogWriter` | rutil/log_writer.cc | class `Writer` over the file writer of `FileWriter`, over a file that can fail at any call |
| `LogReader`, `LogReaderClass` | rutil/log_reader.cc | transition functions, and class `Reader` proved to make exactly them |
| `LogTermination`, `LogSoundness`, `LogSessions`, `LogParsing`, `LogRecords`, `LogRecovery`, `LogCorruption`, `LogAnomalies`, `LogTail`, `LogTailLimits`, `LogTailOffset`, `LogOffset`, `LogEndToEnd` | both | the theorems about the log |
| `LruShard`, `LruOps`, `LruRuns`, `LruPolicies`, `LruPromises` | rutil/lru_cache.cc:94-406 | a shard as transition functions with their invariant, and the theorems about its runs |
| `LruHandle`, `LruTable`, `LruList`, `LruCells` | rutil/lru_cache.h, rutil/lru_cache.cc:17-201 | heap classes: one handle object per entry, in bucket chains and on the circular doubly linked list with its boundary pointer at the same time |
| `LruSteps`, `LruShardClass` | rutil/lru_cache.cc:94-406 | class `LRUCacheShard` over that memory, proved to make exactly the transitions |
| `ShardedCache`, `ShardArray`, `ShardedCacheClass` | rutil/sharded_cache.cc, rutil/sharded_cache.h | the theorems about runs of the whole cache, and class `Cache` over shards with memory of their own |
| `ThreadPool`, `ThreadPoolRuns`, `ThreadPoolClass` | rutil/threadpool_imp.cc | a state machine of lock regions, its theorems, and class `ThreadPoolImpl` that runs them |
| `AlignedBuffer`, `FileWriter`, `Readahead` | rutil/aligned_buffer.h, rutil/file_reader_writer.cc | classes over arrays and an abstract file |
| `ThreadLocal`, `ThreadLocalRuns`, `ThreadLocalClass` | rutil/thread_local.cc | a state machine, its theorems, and class `StaticMeta` |

Three conventions hold throughout. A file, a heap or a scheduler that the code cannot control is a
parameter: `faults` says which calls fail and how much of a failed write still arrived, and signals
wake whichever waiters the environment picks. Code between lock and unlock is one atomic step, and
runs are arbitrary interleavings of such steps. Loops of the source are loops here, specified by a
recursive function on values about which the theorems are proved.

## What the code turns out to do

Some promises hold only under a condition; the model keeps the code's behaviour and proves the
condition.

- The log writer ignores the status of the append that fills a block trailer
  (rutil/log_writer.cc:58-59). The log that the file writer has taken is intact exactly if all
  trailer bytes were taken all the same. As long as every record was added they always are, because
  a trailer fits in the flushed buffer: up to the first failure a record reported as added is in the
  file itself, with all before it (`LogWriter.Writer.AddRecord`, `LogWriter.Writer.TrailerFits`).
  After a failure this is over: two records that cannot be flushed fill the buffer, the trailer
  before the next one is lost, and that record is reported as added (`LogWriter.HoleReported`).
- The writer stores 32 bits of the log number and the reader compares 64
  (rutil/log_writer.cc:116, rutil/log_reader.cc:375). A recyclable log is readable iff the reader
  is given the number modulo 2^32, so one numbered 2^32 or more is unreadable under its own number
  (`LogRecovery.ReadableIffNumberMatches`).
- In kSkipAnyCorruptedRecords a record of an older log makes ReadRecord loop for ever
  (rutil/log_reader.cc:167-190, 375-376). The outcome `Spin` of the model stands for that;
  `LogTermination.SpinMeansStuck` shows that the state is then its own successor, and that this
  happens nowhere else.
- Record type bytes 9 to 14 with a valid checksum are taken for the reader's internal codes, and
  type bytes from 128 on are sign-extended (rutil/log_reader.cc:358); the soundness theorem
  covers files with such bytes.
- A physical record with a wrong checksum or length costs the rest of its block, but in
  kTolerateCorruptedTailRecords, in a file whose first header is recyclable, it is taken for the end of
  the log and nothing is reported (rutil/log_reader.cc:192-210, `LogCorruption.CorruptLog`).
- A failed skip to the initial block is reported only if bytes were left in the buffer, because the
  offset test of ReportDrop subtracts them (rutil/log_reader.cc:44-65, 302-307): that of a new reader
  never is (`LogAnomalies.FailedSkip`).
- SetCapacity does not rebalance the high-priority pool (rutil/lru_cache.cc:218-225):
  `LruPolicies.PoolAfterSetCapacity` says exactly when its bound survives, and
  `LruPolicies.SetCapacityBreaksPoolBound` is an instance where it does not.
- A handle-less Insert that is dropped leaves an older entry of the key in place
  (rutil/lru_cache.cc:327-332, `LruRuns.InsertThenLookup`).
- A reader follows a growing log as long as the file ends between two records whenever the reader
  meets its end: at the end of a record or anywhere in the trailer after it (`LogTail.RunFollows`,
  `LogTailLimits.TrailerHarmless`). A reader that meets the end between two fragments of a record has
  forgotten the record when it resumes, and never returns it (`LogTailLimits.LostRecord`). Among the
  ends that split no physical record, the record is returned later exactly if the end is not past
  its trailer (`LogTailLimits.ReturnedIffInTrailer`). An end inside a fragment can even make payload
  come back as a record that was never added (`LogTailLimits.ForgedInstance`).
- A reader with an initial offset skips to its first block again at every call until it has returned
  a record (rutil/log_reader.cc:76-80). It follows the log exactly from a first call that returns a
  record on (`LogTailOffset.FollowsFromOffset`). Otherwise the second skip moves on from where the file
  stands: what it passes over is lost for good (`LogSessions.SkippedForGood`, `LogTailOffset.LostToSkip`).
  It also shifts the offset that the reader goes by, so that records are judged as if the log began
  where the file stood (`LogTailOffset.SkipShifts`, `LogTailOffset.JudgedFromBase`). With an offset in
  the first block nothing is skipped, but the position wraps below zero, and the records in the buffer
  are returned although they lie before the offset (`LogTailOffset.BufferedReturned`,
  `LogTailOffset.ReturnedTooEarly`).
- A failed Append of the file writer leaves bytes behind that its file size does not count
  (rutil/file_reader_writer.cc:74-97). A later Close truncates by that amount too early: the closed
  file holds all bytes taken iff no failed Append took any (`FileWriter.WriteFile`,
  `FileWriter.CloseCutsOff`). With the operating system's buffering a flush that failed after a part of
  the buffer arrived writes that part twice when it is retried (`FileWriter.WritableFileWriter.Flush`,
  `FileWriter.TornFlushRepeats`); without it a retry is always right.
- A failed range sync is not repeated, because the sync position advances regardless
  (rutil/file_reader_writer.cc:174-175).
- A failed readahead read can overwrite cached bytes (rutil/file_reader_writer.cc:365-369):
  `Readahead.AfterFailure` says which reads leave the cache true however they fail,
  `Readahead.StaleAnswer` shows a wrong answer.

## Model

| member | source | states |
|---|---|---|
| `Coding.Fixed32RoundTrip` | include/rocksutil/coding.h:83-137 | decoding an encoded 32-bit word gives the word back |
| `Coding.Fixed32Injective` | include/rocksutil/coding.h:83-137 | encoding what four bytes decode to gives those bytes back |
| `Masks.LowBitsAreRemainder` | rutil/lru_cache.cc:61 | masking with a power of two less one is the remainder, for all numbers |
| `Crc32c.ExtendImpl` | rutil/crc32c.cc:335-375 | for every start value, buffer and start address, the alignment-dependent loop with byte steps and slicing-by-4 steps computes the same as the bit-at-a-time register |
| `Crc32c.WordStepIsBitFold` | rutil/crc32c.cc:302-316 | four table lookups on a word equal 32 steps of the bit-serial register |
| `Crc32c.ByteStepIsBitFold` | rutil/crc32c.cc:343-346 | one table lookup on a byte equals 8 steps of the bit-serial register |
| `Crc32c.TableSteps` | rutil/crc32c.cc:24-288 | table k is what k+1 zero bytes do to a byte, by the formula of the tables |
| `Crc32c.ExtendIsPolynomialRemainder` | include/rocksutil/crc32c.h:19-27 | the checksum is the remainder of schoolbook polynomial division by the CRC32C polynomial (section 12.1 of RFC 3720), with the complemented start value folded into the front of the message |
| `Crc32c.ExtendComposes` | include/rocksutil/crc32c.h:19-27 | extending by a and then by b is extending by their concatenation |
| `CrcResidue.RemainderExists` | rutil/crc32c.cc:302-375 | every polynomial is a multiple of the CRC32C polynomial plus its remainder |
| `CrcResidue.RemainderIsUnique` | rutil/crc32c.cc:302-375 | that remainder is the only polynomial of degree below 32 of which this holds |
| `CrcResidue.ChecksumIsResidue` | include/rocksutil/crc32c.h:19-27 | the register after a message is exactly the residue of the message polynomial modulo the CRC32C polynomial |
| `Crc32c.MaskRoundTrip` | include/rocksutil/crc32c.h:36-46 | unmasking undoes masking |
| `Crc32c.UnmaskRoundTrip` | include/rocksutil/crc32c.h:36-46 | masking undoes unmasking, so both are bijections |
| `CrcCheck.CheckValue` | include/rocksutil/crc32c.h:19-27 | the checksum of five given bytes is a given number, which is the complement of the polynomial |
| `CrcCheck.MaskedCheckValue` | include/rocksutil/crc32c.h:29-39 | the four bytes that are stored for it |
| `CrcCheck.LegacyImage` | rutil/log_writer.cc:90-135 | the bytes of a legacy log of one record: masked checksum, length, type 1, payload |
| `CrcCheck.RecyclableImage` | rutil/log_writer.cc:90-135 | those of a recyclable log: masked checksum over type, number and payload, length, type 5, number, payload |
| `CrcCheck.FragmentTypes` | rutil/log_format.h:17-35 | for every record the type bytes in the file: 1, or 2, 3, ..., 4, with 4 more in a recyclable log, one at each multiple of 32768 |
| `LogWriter.Writer.constructor` | rutil/log_writer.cc:21-31 | the precomputed type checksums are those of the one-byte messages, and a new log is clean |
| `LogWriter.Writer.EmitPhysicalRecord` | rutil/log_writer.cc:90-135 | what the file writer takes is a prefix of header and payload in the on-disk format, all of it on success, which is that of the calls made; the checksum assembled from the type checksum is that of type, number and payload |
| `LogDestination.Destination.Append` | rutil/file_reader_writer.cc:36-99 | what one append does to the bytes taken, to the file below and to the buffer: a success keeps the file whole, data that fits stays in the buffer, an append that needs a flush which fails takes nothing, and the file never holds more than the bytes taken |
| `LogDestination.Destination.Flush` | rutil/file_reader_writer.cc:134-181 | the same for a flush; a success leaves everything in the file |
| `LogWriter.Writer.TrailerFits` | rutil/log_writer.cc:49-62 | with everything flushed, the trailer has room in the buffer, for every page size and with either kind of buffering |
| `LogWriter.Writer.AddRecord` | rutil/log_writer.cc:36-88 | for every record, offset and fault pattern of the file below the file writer: success iff every call but the trailer's succeeded; what is taken is what was taken of the trailer and then a prefix of the fragments, all of them on success; a clean log stays clean on success exactly if the trailer was taken fully, and if it was, a failure leaves a prefix of the clean log; from a healthy log, success means that the file itself holds the log of all records, and a failure leaves what was there and a beginning of the rest |
| `LogWriter.HoleReported` | rutil/log_writer.cc:49-62 | four records and three failing calls after which the last record is reported as added and the file is not the log |
| `LogReaderClass.Reader.ReadMore` | rutil/log_reader.cc:309-341 | the object makes the transition of the reader's block refill, also for a read that fails after delivering bytes |
| `LogReaderClass.Reader.ReadPhysicalRecord` | rutil/log_reader.cc:343-431 | the loop and its branches are the recursive parse of one physical record |
| `LogReaderClass.Reader.ReadRecord` | rutil/log_reader.cc:74-225 | the assembly loop in its four modes is the recursive definition that the theorems are about |
| `LogReaderClass.Reader.UnmarkEof` | rutil/log_reader.cc:235-296 | the object makes the transition of resuming after the end of the file, with the report of bytes that a failed read delivered |
| `LogReaderClass.Reader.SkipToInitialBlock` | rutil/log_reader.cc:44-65 | the object makes the transition of skipping to the initial block |
| `LogTermination.ReadRecordTerminates` | rutil/log_reader.cc:74-225 | on arbitrary bytes, state and failing reads, ReadRecord returns in every mode but kSkipAnyCorruptedRecords |
| `LogTermination.SpinMeansStuck` | rutil/log_reader.cc:167-190 | ReadRecord runs for ever only in that mode, only at a header of another log number, and there its state and its local variables are their own successors |
| `LogTermination.StaleSpins` | rutil/log_reader.cc:375-376 | conversely, every such header makes it run for ever |
| `LogTermination.ReadRecordUsesInput` | rutil/log_reader.cc:74-225 | returning a record uses up input, so only finitely many come from a file that stays as it is |
| `LogSoundness.HeaderIsGenuine` | rutil/log_reader.cc:365-415 | a header that passes the length, number and checksum tests is byte for byte the one the writer emits for that payload |
| `LogSoundness.PhysicalSound` | rutil/log_reader.cc:343-431 | a physical record returned from arbitrary bytes lies in the file as the writer would have written it, right after what was parsed before |
| `LogSoundness.UnmarkKeepsLoaded` | rutil/log_reader.cc:235-296 | resuming keeps the buffer equal to the stretch of the file before the file position, or before the position at which its read failed |
| `LogSessions.ReadRecordSound` | rutil/log_reader.cc:74-225 | in every mode and every state a reader can get into, with reads that have failed and skips that are repeated, a record returned by a checksumming reader is one Full payload or First, Middle*, Last payloads of genuine, adjacent fragments of the file |
| `LogSessions.UnmarkSane` | rutil/log_reader.cc:235-296 | resuming keeps those states; the buffer stays within its block and the subtraction of its size from the end-of-file offset does not go below zero |
| `LogSessions.LeftOverPhysical` | rutil/log_reader.cc:419-429 | after a repeated skip a physical read either drops left-over bytes without a record type, or has gone on to the file and found a genuine fragment there |
| `LogSessions.RunSound` | rutil/log_reader.cc:44-341 | from arbitrary bytes, for every initial offset, every pattern of failing reads and every interleaving of calls, resumptions and growth of the file, every record returned is one that the file holds |
| `LogSessions.SkippedForGood` | rutil/log_reader.cc:44-80 | whatever state a reader is in when a call skips to the initial block, no record returned by that call or in any later run has a fragment before where the skip ended |
| `LogRecords.FragmentsWhole` | rutil/log_reader.cc:74-225 | from any point of a record, the fragments that the writer emits for its rest are assembled to the record |
| `LogRecords.FragmentsCut` | rutil/log_reader.cc:147-165 | a file that ends anywhere inside those fragments yields no record, with a report exactly in absolute consistency mode |
| `LogRecords.RecordWhole` | rutil/log_reader.cc:74-225 | a whole record, with the trailer in front of it, is returned and nothing is reported |
| `LogRecords.RecordCut` | rutil/log_reader.cc:147-165 | a record cut at any byte is not returned; the cut is reported only in absolute consistency mode, unless it is silent |
| `LogRecovery.RoundTrip` | rutil/log_reader.cc:74-225 | every list of records, of any sizes, in both formats and all modes, is read back exactly, in order, with nothing reported, and then the reader returns false |
| `LogRecovery.CrashPrefix` | rutil/log_reader.cc:147-165 | the first n bytes of a log give back exactly the records they contain completely; something is reported iff the mode is absolute consistency and the cut is not silent |
| `LogRecovery.CompleteIsMaximal` | rutil/log_writer.cc:49-86 | the number of records given back is the largest whose bytes fit in n |
| `LogRecovery.LegacySilentCuts` | rutil/log_writer.cc:49-62 | in the legacy format the silent cuts are exactly the ends of records and of the trailers after them |
| `LogRecovery.WrongNumber` | rutil/log_reader.cc:367-377 | a recyclable log of another number yields no record at all, and spins in kSkipAnyCorruptedRecords |
| `LogRecovery.ReadableIffNumberMatches` | rutil/log_writer.cc:110-118 | a non-empty recyclable log is read back iff the reader's number is the writer's modulo 2^32 |
| `LogCorruption.PhysicalDamage` | rutil/log_reader.cc:378-415 | a header of this log whose checksum is not that of the bytes it covers, or whose length passes the block, drops the rest of the block and reports how much that is |
| `LogCorruption.DamageSkipsBlock` | rutil/log_reader.cc:192-210 | from every state in step with the file, at the first physical record of a record or a later one: exactly the records that begin after the damaged block are returned, and the reports are one of the dropped bytes, one of the payload assembled so far, and one for each fragment that lost its start; only a recyclable log whose tail may be corrupt ends there, unreported |
| `LogCorruption.CorruptLog` | rutil/log_reader.cc:192-210 | a log with one damaged physical record, read from its start in any mode: the records before it and those that begin in later blocks come back, with exactly these reports |
| `LogAnomalies.BrokenOff` | rutil/log_reader.cc:101-125 | a record that breaks off at a block where new records begin: they are all returned, and the payload assembled is reported as a record without an end |
| `LogAnomalies.UnknownRecord` | rutil/log_reader.cc:212-221 | a physical record of an unknown type with a right checksum is reported with what was assembled, and all records after it are returned |
| `LogAnomalies.ZeroedBlock` | rutil/log_reader.cc:183-190 | a block that was not written to its end: records that begin later are returned, and only what was assembled is reported |
| `LogAnomalies.OldTail` | rutil/log_reader.cc:167-181 | the records of an older recyclable log end the reading, with what was assembled reported only in absolute consistency mode, or never in kSkipAnyCorruptedRecords |
| `LogAnomalies.FailedRead` | rutil/log_reader.cc:309-325 | a failing read returns no record and is reported as one block, unless that would begin before the initial offset |
| `LogAnomalies.NothingAfterFailure` | rutil/log_reader.cc:309-341 | from then on every call and every resumption changes nothing |
| `LogAnomalies.FailedSkip` | rutil/log_reader.cc:44-65 | a failing skip returns no record, and is reported iff bytes were left in the buffer |
| `LogAnomalies.FailedResumption` | rutil/log_reader.cc:265-279 | a resumption whose read fails reports the bytes that arrived |
| `LogAnomalies.ChecksumIgnored` | rutil/log_reader.cc:402-415 | a reader that does not check gives the same answer whatever the checksum bytes are |
| `LogTail.UnmarkSynced` | rutil/log_reader.cc:235-296 | resuming leaves the reader in step with the file, able to see all of it; consumed, buffered and missing bytes make one block |
| `LogTail.RunFollows` | rutil/log_reader.cc:235-341 | in every interleaving of reads and resumptions with a writer that sends its bytes in pieces of any size, if the file ends between two records whenever the reader meets its end, at a record end or in a trailer, the reader has returned the records in order and stands before the next one; it has reported something iff a read in absolute consistency mode saw a part of a trailer that is not silent |
| `LogTail.TailFollowing` | rutil/log_reader.cc:235-341 | from any state in step with the log and at any initial offset: after a final resumption exactly the records that the file holds completely have been returned; what is left over is reported only in absolute consistency mode, unless it is silent |
| `LogTail.TailFromStart` | rutil/log_reader.cc:235-341 | from the start of the log these are the records that one pass over the final file returns |
| `LogTailLimits.LostRecord` | rutil/log_reader.cc:113-145 | whenever the file ends right after some of a record's fragments when the reader gets there, that record is never returned; after the rest has arrived each further fragment is reported as lacking a start, and all later records are returned |
| `LogTailLimits.LostInstance` | rutil/log_reader.cc:113-145 | for instance every log that starts with a record of more than a block, seen when only its first block was there |
| `LogTailLimits.ReadsWhatFollows` | rutil/log_reader.cc:235-296 | if the file ends anywhere in a record when the reader gets there, and what is missing of it are the bytes of some records, then those are returned later, and all records after them |
| `LogTailLimits.TrailerHarmless` | rutil/log_writer.cc:49-62 | an end anywhere in the trailer before a record loses nothing |
| `LogTailLimits.ReturnedIffInTrailer` | rutil/log_reader.cc:113-165 | for every end that splits no physical record of a record, the record is returned later iff the end is not past its trailer; the later ones always are |
| `LogTailLimits.ForgedInstance` | rutil/log_reader.cc:235-296 | a record seen when only its header was there, in whose place its payload is returned as a record |
| `LogTailOffset.FollowsFromOffset` | rutil/log_reader.cc:44-91 | a reader with an initial offset is in step with the log after its first call iff that call returned a record, which it does iff some record in the file has its header at or after the offset |
| `LogTailOffset.TailFromOffset` | rutil/log_reader.cc:44-91 | it then returns, over any such run, what one pass over the final file from that offset returns |
| `LogTailOffset.SkipShifts` | rutil/log_reader.cc:44-80 | a call that skips makes the reader take the place where the file stood for the start of the log |
| `LogTailOffset.KeepsShift` | rutil/log_reader.cc:235-341 | until the next skip no call, resumption or growth changes that |
| `LogTailOffset.JudgedFromBase` | rutil/log_reader.cc:419-429 | a genuine physical record is passed over iff its header lies less than the initial offset after that place, before which the subtraction wraps |
| `LogTailOffset.BufferedReturned` | rutil/log_reader.cc:44-65 | with an initial offset in the first block, a record at the start of the buffer is returned by every call that has returned none before, wherever it lies |
| `LogTailOffset.ReturnedTooEarly` | rutil/log_reader.cc:44-80 | two records before the offset of which the second is returned for that reason |
| `LogTailOffset.LostToSkip` | rutil/log_reader.cc:44-80 | three blocks of which the second is never returned because of a second skip |
| `LogOffset.BeforeIsExact` | rutil/log_reader.cc:419-429 | the records skipped are exactly those whose header lies before the initial offset |
| `LogOffset.InitialOffset` | rutil/log_reader.cc:44-91 | from every initial offset, in both formats and all modes, the reader returns exactly the records whose first header lies at or after it, up to its first false return |
| `LogOffset.OffsetNotBehind` | rutil/log_reader.cc:76-91 | the offset reported for a record is never before the initial offset, so the skip is not repeated, although it may point at the trailer in front |
| `LogEndToEnd.WriteLog` | rutil/log_writer.cc:36-88 | records are added up to the first failure; with the operating system's buffering the file then holds the log of all that were added, and at most a beginning of the next one |
| `LogEndToEnd.WriteCrashRead` | rutil/log_writer.cc:36-88 | log writer, file writer and a new reader, with either kind of buffering and a crash after any number of bytes of the closed file: the records complete by then come back |
| `LogEndToEnd.WriteFailRead` | rutil/log_writer.cc:36-88 | whatever calls of the file fail and however much of each write arrives, every record added before the first failure is read back, and at most one more |
| `LogEndToEnd.ReadLog` | rutil/log_reader.cc:74-225 | calling the reader object until it returns false collects the records of the specification |
| `LruTable.LRUHandleTable.FindPointer` | rutil/lru_cache.cc:60-66 | the walk along a bucket chain ends at the entry of the key, or at the end if there is none |
| `LruTable.LRUHandleTable.Lookup` | rutil/lru_cache.cc:30-32 | the entry the finite map holds for key and hash, or null |
| `LruTable.LRUHandleTable.Insert` | rutil/lru_cache.cc:34-48 | the map is updated at the entry's name, the entry replaced is returned, elems_ is exact and at most length_ afterwards |
| `LruTable.LRUHandleTable.Remove` | rutil/lru_cache.cc:50-58 | the map loses the name, and the entry is returned |
| `LruTable.LRUHandleTable.Resize` | rutil/lru_cache.cc:68-92 | the chains are rebuilt over a power-of-two length; the map is the same, and every entry is in the bucket of its hash |
| `LruTable.LRUHandleTable.Destruct` | rutil/lru_cache.cc:21-28 | the walk over all chains frees each entry with a single reference once and no other, although nothing is known of the links of freed entries |
| `LruList.LruList.LruRemove` | rutil/lru_cache.cc:152-166 | unlinking from the ring removes one position of the list, moves the boundary pointer and keeps both usage counters exact |
| `LruList.LruList.LinkNewest` | rutil/lru_cache.cc:171-179 | linking an entry at the newest end of the ring extends the high segment and keeps counters and flags exact |
| `LruList.LruList.LinkLow` | rutil/lru_cache.cc:181-189 | linking an entry at the boundary extends the low segment and moves the boundary pointer to it |
| `LruList.LruList.Demote` | rutil/lru_cache.cc:194-199 | the boundary pointer moves over the oldest high-pool entry, whose flag and charge leave the pool |
| `LruCells.Cells.TableInsert` | rutil/lru_cache.cc:34-48 | on handles that sit in table and list at once, inserting into the chains changes the abstract table at that name and nothing else |
| `LruCells.Cells.TableRemove` | rutil/lru_cache.cc:50-58 | removing from the chains changes the abstract table at that name and nothing else |
| `LruCells.Cells.ListRemove` | rutil/lru_cache.cc:152-166 | unlinking from the ring is the abstract removal from the list; table and counts stay |
| `LruCells.Cells.Free` | rutil/lru_cache.h:102-108 | a handle is deallocated only when neither chain nor ring leads to it |
| `LruShardClass.LRUCacheShard.LruInsert` | rutil/lru_cache.cc:168-191 | linking, flags, counters and pool maintenance on the ring make the abstract insertion |
| `LruShardClass.LRUCacheShard.MaintainPoolSize` | rutil/lru_cache.cc:193-201 | the loop on the boundary pointer makes the abstract rebalancing; the asserted non-empty pool holds |
| `LruShardClass.LRUCacheShard.EvictFromLru` | rutil/lru_cache.cc:203-216 | the loop over the oldest handles makes the abstract eviction |
| `LruShard.EvictFromLru` | rutil/lru_cache.cc:203-216 | eviction keeps the whole invariant and leaves room for the charge or an empty list |
| `LruShard.MaintainKeeps` | rutil/lru_cache.cc:193-201 | rebalancing changes only pool flags, ends within the bound and demotes no more entries than needed |
| `LruOps.LookupInv` | rutil/lru_cache.cc:238-249 | Lookup keeps every accounting invariant |
| `LruOps.ReleaseInv` | rutil/lru_cache.cc:258-293 | Release keeps them, in all its branches; so the asserted empty list of an overfull cache holds |
| `LruOps.InsertInv` | rutil/lru_cache.cc:295-370 | Insert keeps them, whether it inserts, replaces, drops or rejects |
| `LruOps.DisplaceInv` | rutil/lru_cache.cc:372-395 | Erase, and replacing an entry, keep them and remove the name from the table |
| `LruOps.SetRatioInv` | rutil/lru_cache.cc:251-256 | changing the pool ratio keeps them and brings the pool within its bound |
| `LruRuns.RunReady` | rutil/lru_cache.cc:94-406 | the invariant holds in every state of every run with correct handle use: reference counts, table membership, list membership, three exact counters, deleter calls, the latest entry per key |
| `LruRuns.PinnedUsage` | rutil/lru_cache.cc:402-406 | usage less LRU usage is exactly the charge of the entries callers hold |
| `LruRuns.ThreeStates` | rutil/lru_cache.h:25-42 | every allocated entry is in one of the three documented states, and the state decides table, list and pinning |
| `LruRuns.LookupReturnsLatest` | rutil/lru_cache.cc:238-249 | a lookup returns the latest entry accepted under the key and a handle to it, or null if the table has none |
| `LruRuns.InsertThenLookup` | rutil/lru_cache.cc:325-360 | after an Insert the new entry is found exactly unless it was rejected or dropped, and then the table is as eviction left it |
| `LruRuns.EvictsShortestPrefix` | rutil/lru_cache.cc:203-216 | eviction frees the shortest oldest-first prefix of the list that makes room, and nothing else |
| `LruRuns.StrictLimitHolds` | rutil/lru_cache.cc:325-360 | in every run with the strict limit on and the capacity never lowered, usage stays within capacity |
| `LruPromises.LookupPromise` | rutil/lru_cache.cc:238-249 | a lookup gives out the entry of the key with one more handle, takes it out of the order of eviction, and changes nothing else |
| `LruPromises.ReleasePromise` | rutil/lru_cache.cc:258-293 | exactly if the last reference goes, or only the table's is left and the cache is overfull, the entry is freed and leaves the table; otherwise nothing is freed, every key is found as before, and an entry nobody holds any more is the newest of its pool |
| `LruPromises.ReleasedIsFound` | rutil/lru_cache.cc:258-293 | so a key whose handle was given back is found afterwards iff the entry was not let go |
| `LruPromises.ErasePromise` | rutil/lru_cache.cc:372-395 | the key is gone, every other key is found with its entry, and the value is freed iff nobody holds it |
| `LruPromises.EvictionPromise` | rutil/lru_cache.cc:203-216 | the keys lost are exactly those of the entries freed |
| `LruPromises.InsertPromise` | rutil/lru_cache.cc:295-370 | whether there is room is decided by what callers hold; the status, the handle, the values freed in order, the keys found afterwards and the new entry's fields, in all cases |
| `LruPromises.SetCapacityPromise` | rutil/lru_cache.cc:218-231 | the capacities are set, and the shortest sufficient prefix of the list is freed and lost |
| `LruPromises.SettersPromise` | rutil/lru_cache.cc:233-256 | the other settings are set and move no entry |
| `LruPromises.EraseUnRefPromise` | rutil/lru_cache.cc:112-133 | exactly the entries that nobody holds are freed, oldest first, and lost |
| `LruPromises.HeldIsFound` | rutil/lru_cache.cc:112-400 | in every run a key whose entry somebody holds is found with that entry until the key is erased or inserted again or the handle given back |
| `LruPolicies.PoolBoundKept` | rutil/lru_cache.cc:152-201 | every operation but SetCapacity keeps the high-priority pool within its bound |
| `LruPolicies.PoolAfterSetCapacity` | rutil/lru_cache.cc:218-231 | SetCapacity keeps it iff what eviction leaves of the high segment fits the new pool capacity |
| `LruPolicies.SetCapacityBreaksPoolBound` | rutil/lru_cache.cc:218-231 | a run of three calls after which a SetCapacity breaks it |
| `LruPolicies.DeleterDiscipline` | rutil/lru_cache.h:102-108 | in every run each value is freed at most once, never while allocated or held, and in the state that Free asserts |
| `LruPolicies.RejectionCallsNoDeleter` | rutil/lru_cache.cc:333-337 | a rejected Insert never frees the value it was given |
| `LruPolicies.DestructionFreesAll` | rutil/lru_cache.cc:21-28 | with all handles released, destruction has freed every accepted value exactly once |
| `LruShardClass.LRUCacheShard.Destruct` | rutil/lru_cache.cc:21-28 | the destructor on the heap does that: its order of visits is the one assumed there, no value held is freed, and with all handles released no handle stays allocated |
| `LruShardClass.LRUCacheShard.Lookup` | rutil/lru_cache.cc:238-249 | the statements of the source, on the chains and the ring, make the transition of the model |
| `LruShardClass.LRUCacheShard.Release` | rutil/lru_cache.cc:258-293 | the statements of the source, on the chains and the ring, make the transition of the model; a null handle changes nothing |
| `LruShardClass.LRUCacheShard.Insert` | rutil/lru_cache.cc:295-370 | allocating, evicting, entering the table, releasing the replaced handle and listing, in the order of the source, make the transition of the model |
| `LruShardClass.LRUCacheShard.Erase` | rutil/lru_cache.cc:372-395 | the statements of the source, on the chains and the ring, make the transition of the model |
| `LruShardClass.LRUCacheShard.SetCapacity` | rutil/lru_cache.cc:218-231 | the statements of the source make the transition of the model |
| `LruShardClass.LRUCacheShard.EraseUnRefEntries` | rutil/lru_cache.cc:112-133 | the loop removes every unpinned entry |
| `LruShardClass.LRUCacheShard.GetPinnedUsage` | rutil/lru_cache.cc:402-406 | the asserted inequality holds, and the result is the charge held by callers |
| `ShardedCache.ShardIsInterval` | rutil/sharded_cache.h:81-84 | the top bits split all 32-bit hashes into 2^bits intervals of equal length, and the shard number is in range |
| `ShardedCache.SplitCovers` | rutil/sharded_cache.cc:22-30 | the shards' capacities together cover the capacity and exceed it by less than the number of shards |
| `ShardedCache.EntriesStayHome` | rutil/sharded_cache.cc:41-62 | in every interleaving of calls, an entry lives only in the shard of its key's hash, so handles return to the shard they came from and no other shard has the key |
| `ShardedCache.TotalStaysBelow` | rutil/sharded_cache.cc:78-86 | in every interleaving with the strict limit on and no capacity lowered, total usage stays below capacity plus the number of shards |
| `ShardedCache.NewCacheFacts` | rutil/lru_cache.cc:408-418 | a new cache starts with its shares of the capacity, the strict flag and the pool ratio set and no usage |
| `ShardedCache.TotalsFollow` | rutil/sharded_cache.cc:78-100 | the totals change by what the changed shard's own usage and held charge change |
| `ShardedCache.SweepErases` | rutil/sharded_cache.cc:110-115 | clearing the cache leaves in no shard an entry that nobody holds |
| `ShardArray.Shards.On` | rutil/lru_cache.cc:422-428 | a call on one shard's memory is the step of that shard, and leaves the memory of all others as it was |
| `ShardedCacheClass.Cache.constructor` | rutil/lru_cache.cc:408-418 | builds that cache |
| `ShardedCacheClass.Cache.SetCapacity` | rutil/sharded_cache.cc:22-30 | the loop gives every shard its share |
| `ShardedCacheClass.Cache.Insert` | rutil/sharded_cache.cc:41-47 | only the shard of the key's hash changes, by one shard insert |
| `ShardedCacheClass.Cache.Lookup` | rutil/sharded_cache.cc:49-52 | finds the key iff some shard has it, and changes only its own shard |
| `ShardedCacheClass.Cache.Release` | rutil/sharded_cache.cc:54-57 | the shard computed from the entry's hash is the one the handle came from |
| `ShardedCacheClass.Cache.Erase` | rutil/sharded_cache.cc:59-62 | afterwards no shard has the key |
| `ShardedCacheClass.Cache.GetUsage` | rutil/sharded_cache.cc:78-86 | the sum over the shards |
| `ShardedCacheClass.Cache.GetPinnedUsage` | rutil/sharded_cache.cc:92-100 | the charge that callers hold, summed over the shards |
| `ThreadPool.WorkConserving` | rutil/threadpool_imp.cc:111-147 | in every reachable state before shutdown: if a worker below the limit sleeps, the awake idle ones suffice for the queue; the last excessive thread is awake; a non-empty queue has a worker that is not asleep; worker ids are exactly 0..size-1; after shutdown nobody sleeps |
| `ThreadPool.ScheduleAttentive` | rutil/threadpool_imp.cc:244-275 | one signal, or a broadcast while there are excessive threads, is enough for one more job |
| `ThreadPool.StepAttentive` | rutil/threadpool_imp.cc:111-302 | every lock region and every spurious wake-up keeps that invariant |
| `ThreadPool.JobsConserved` | rutil/threadpool_imp.cc:244-302 | in every reachable state accepted jobs are exactly partitioned into started, unscheduled and queued, started in order of acceptance, and only by workers with an id below the limit of that moment |
| `ThreadPool.FrozenAtExit` | rutil/threadpool_imp.cc:88-101 | from the moment exit is set until the joins are done the list of threads does not change |
| `ThreadPoolRuns.SchedulePromise` | rutil/threadpool_imp.cc:244-275 | before shutdown the job is the last of the queue with its tag and the next number, the threads are at least as many as the limit, the signalled sleepers are awake, or all if there are excessive threads, and nothing else changes |
| `ThreadPoolRuns.UnSchedulePromise` | rutil/threadpool_imp.cc:277-302 | exactly the jobs of the tag leave the queue and are counted as taken back; the others keep their order |
| `ThreadPoolRuns.SetThreadsPromise` | rutil/threadpool_imp.cc:199-213 | the limit becomes the larger of 1 and the number asked for exactly if that raises it or lowering is allowed; then all threads are awake and at least as many as the limit |
| `ThreadPoolRuns.TakesFrontJob` | rutil/threadpool_imp.cc:111-147 | an awake worker below the limit starts the front job |
| `ThreadPoolRuns.TakesNothing` | rutil/threadpool_imp.cc:111-137 | any other worker takes none: it leaves, is detached, or sleeps |
| `ThreadPoolRuns.ShutdownPromise` | rutil/threadpool_imp.cc:88-94 | shutdown wakes everybody and loses no job |
| `ThreadPoolRuns.EveryCallCounts` | rutil/threadpool_imp.cc:88-302 | in every run the accepted jobs are exactly the Schedule calls before shutdown, numbered in order; each is started once, taken back or queued, and a queued job carries its call's tag |
| `ThreadPoolRuns.LimitIsLastSet` | rutil/threadpool_imp.cc:199-221 | in every run the limit is what the calls before shutdown made it, and while jobs are queued there are that many threads |
| `ThreadPoolClass.ThreadPoolImpl.BGThread` | rutil/threadpool_imp.cc:111-147 | a worker's passage through the mutex makes the step of the state machine |
| `ThreadPoolClass.ThreadPoolImpl.Schedule` | rutil/threadpool_imp.cc:244-275 | makes the step of the state machine |
| `ThreadPoolClass.ThreadPoolImpl.UnSchedule` | rutil/threadpool_imp.cc:277-302 | the erasing loop removes exactly the jobs of the tag, in order, and counts them |
| `ThreadPoolClass.ThreadPoolImpl.SetBackgroundThreads` | rutil/threadpool_imp.cc:199-213 | makes the step of the state machine |
| `ThreadPoolClass.ThreadPoolImpl.StartBGThreads` | rutil/threadpool_imp.cc:223-242 | the loop starts threads up to the limit |
| `ThreadPoolClass.ThreadPoolImpl.BeginShutdown` | rutil/threadpool_imp.cc:88-94 | makes the step of the state machine |
| `AlignedBuffer.TruncateIsBelow` | rutil/aligned_buffer.h:16-20 | the mask computes the greatest multiple of the page size that is not above |
| `AlignedBuffer.RoundupIsLeast` | rutil/aligned_buffer.h:22-24 | rounding up gives the least multiple that is not below |
| `AlignedBuffer.Buffer.AllocateNewBuffer` | rutil/aligned_buffer.h:88-102 | for every address the allocator may choose, the aligned region of the rounded capacity lies inside the allocation |
| `AlignedBuffer.Buffer.Append` | rutil/aligned_buffer.h:105-114 | as much as fits is appended, and nothing else changes |
| `AlignedBuffer.Buffer.PadToAlignmentWith` | rutil/aligned_buffer.h:126-135 | the contents stay, and padding fills the last page; the asserted room exists |
| `AlignedBuffer.Buffer.RefitTail` | rutil/aligned_buffer.h:138-143 | the tail becomes the contents, also when the ranges overlap |
| `FileWriter.PagedWritten` | rutil/file_reader_writer.cc:256-311 | writing the padded buffer at the next offset leaves all data plus zero padding to the page end in the file |
| `FileWriter.PagedTorn` | rutil/file_reader_writer.cc:284-290 | a positioned write that fails after any number of bytes loses nothing |
| `FileWriter.WritableFileWriter.WriteUnbuffered` | rutil/file_reader_writer.cc:256-311 | writes only whole pages from an aligned address to an aligned offset; afterwards the file is the padded data and the buffer its last partial page, or on failure the buffer and offset are as before |
| `FileWriter.WritableFileWriter.WriteBuffered` | rutil/file_reader_writer.cc:224-245 | hands the bytes to the file and empties the buffer, or keeps the buffer |
| `FileWriter.WritableFileWriter.Flush` | rutil/file_reader_writer.cc:134-181 | the status says whether a call of the file failed; success means that the file holds everything that file and buffer held and was told to flush it; a failure changes nothing of that, except that a torn buffered write leaves the part that arrived twice |
| `FileWriter.WritableFileWriter.SyncBehind` | rutil/file_reader_writer.cc:164-178 | the ranges asked for tile the file from its start, page by page, stay 1 MB behind the end and within the written data; each is at least bytes_per_sync_ long, and less than that is left over |
| `FileWriter.WritableFileWriter.Append` | rutil/file_reader_writer.cc:36-99 | success takes all data; a failure takes exactly nothing if the buffer could not be flushed first, with the operating system's buffering else what the file took of the data, and without it what went through the buffer before the flush that failed, which is nothing iff the buffer was full and its first flush failed; data that fits stays in the buffer and cannot fail; the file size counts successes only; the loop ends |
| `FileWriter.WritableFileWriter.Close` | rutil/file_reader_writer.cc:101-131 | whatever fails, the file is closed; a successful close leaves the first fileSize bytes of what file and buffer held, which are all of them iff their lengths agree; a second close does nothing |
| `FileWriter.WritableFileWriter.Sync` | rutil/file_reader_writer.cc:183-222 | success means that the file holds everything and, unless I/O is direct, that its contents were synced since the last append; a sync call of the kind asked for is made iff one is pending after the flush, and if it fails the status says so and it stays pending |
| `FileWriter.FailedSyncStays` | rutil/file_reader_writer.cc:183-196 | a failing sync call: Sync fails, nothing is durable, and the next Sync makes the call again |
| `FileWriter.Serve` | rutil/file_reader_writer.cc:36-196 | for every sequence of requests and every fault pattern: the bytes taken are the data of the appends, up to where each failed; the file size counts them all iff no failed Append took bytes; flushed bytes plus buffer are exactly them iff no buffered write was torn; unless I/O is direct or a write was torn, everything accepted up to the last successful Sync is durable |
| `FileWriter.WriteFile` | rutil/file_reader_writer.cc:36-131 | a file closed without a torn write holds the first fileSize bytes taken, all of them iff no failed Append took any, and the plain concatenation if every Append succeeded |
| `FileWriter.TornFlushRepeats` | rutil/file_reader_writer.cc:224-245 | a failed and repeated flush that leaves a byte in the file twice |
| `FileWriter.CloseCutsOff` | rutil/file_reader_writer.cc:101-131 | a failed and a successful Append after which Close leaves a byte of the failed one only |
| `Readahead.ReadIsDirect` | rutil/file_reader_writer.cc:336-383 | a read that does not fail returns what a direct read returns, and leaves a true cache |
| `Readahead.Transparent` | rutil/file_reader_writer.cc:336-383 | so does every sequence of such reads |
| `Readahead.ReadFetches` | rutil/file_reader_writer.cc:358-379 | a read that goes to the file caches a whole buffer from the first byte it did not have |
| `Readahead.ReadsAhead` | rutil/file_reader_writer.cc:336-383 | every sequence of reads within those bytes is answered right even if the file fails every time |
| `Readahead.FailuresPassed` | rutil/file_reader_writer.cc:336-371 | an error is returned iff the file fails and the cache did not have all the bytes |
| `Readahead.AfterFailure` | rutil/file_reader_writer.cc:365-369 | a read leaves the cache true however it fails iff it is read directly, is served by the cache, or nothing was cached |
| `Readahead.AfterOneFailure` | rutil/file_reader_writer.cc:365-369 | after a particular failure the cache is true iff, besides, no cached byte was overwritten by another |
| `Readahead.StaleAnswer` | rutil/file_reader_writer.cc:365-369 | a failed read followed by a wrong answer from the cache |
| `Readahead.ReadaheadRandomAccessFile.Read` | rutil/file_reader_writer.cc:336-383 | the object makes the transition of the model on its buffer |
| `ThreadLocal.RunKeeps` | rutil/thread_local.cc:54-283 | in every run live ids are distinct from free ones and together fill 0..next-1, and cells and handlers of ids not in use are null |
| `ThreadLocal.ReachStays` | rutil/thread_local.cc:170-200 | whatever other threads do after a thread has lengthened its vector, it stays long enough |
| `ThreadLocal.RegionsAreOperations` | rutil/thread_local.cc:170-200 | registration, lengthening and access in lock regions of their own make the same as the operation in one step |
| `ThreadLocalRuns.FreshInstance` | rutil/thread_local.cc:242-251 | in every run a new instance, on a new or recycled id, reads null in every thread and has no handler |
| `ThreadLocalRuns.SwapIsolated` | rutil/thread_local.cc:170-188 | a store changes what one instance reads in one thread and nothing else |
| `ThreadLocalRuns.CompareIsolated` | rutil/thread_local.cc:190-200 | so does a compare-and-swap, exactly when the expected pointer is stored |
| `ThreadLocalRuns.ScrapeReturnsAll` | rutil/thread_local.cc:202-214 | Scrape returns each non-null pointer as often as threads hold it, and replaces exactly the cells that exist |
| `ThreadLocalRuns.PointersConserved` | rutil/thread_local.cc:54-283 | in every run, every store of a pointer is still in place, was overwritten or handed back, was unreffed, or was let go without a handler; so one stored once is unreffed at most once |
| `ThreadLocalRuns.UnrefsExactly` | rutil/thread_local.cc:54-81 | each step calls a handler with a pointer exactly as often as that pointer is still stored, under an instance with that handler, when its thread exits or its instance is destroyed |
| `ThreadLocalRuns.StepReads` | rutil/thread_local.cc:54-276 | what every thread reads of every instance after each kind of step |
| `ThreadLocalRuns.HandlerIsLastSet` | rutil/thread_local.cc:228-240 | in every run the handler of an id is the one last set since it was last reclaimed, or none |
| `ThreadLocalRuns.UnrefsOverRuns` | rutil/thread_local.cc:54-81 | in every run a thread's exit and an instance's destruction call exactly the handlers last set, once for each cell that still holds the pointer |
| `ThreadLocalClass.StaticMeta.OnThreadExit` | rutil/thread_local.cc:54-81 | the loop over the entries makes the step of the state machine |
| `ThreadLocalClass.StaticMeta.ReclaimId` | rutil/thread_local.cc:261-276 | the loop over the threads makes the step of the state machine |
| `ThreadLocalClass.StaticMeta.Scrape` | rutil/thread_local.cc:202-214 | the loop over the threads makes the step of the state machine |
| `ThreadLocalClass.StaticMeta.CompareAndSwap` | rutil/thread_local.cc:190-200 | the step of the state machine; returns the pointer found and whether it was the expected one |
| `ThreadLocalClass.StaticMeta.GetId` | rutil/thread_local.cc:242-251 | pops a free id, or takes the next one |

## Left out

- rutil/env_posix.cc, rutil/io_posix.cc and rport: files are abstract, with the contracts of
  include/rocksutil/env.h.
- Loggers, varint coding, Slice, Status, Random, autovector: they would only add easy members.
- SSE4.2 checksums and the choice between the two implementations.
- Mutex implementations: a lock region is one atomic step; a condition signal wakes at least one
  waiter if there is any, and waits may return without a signal.
- Recycled log files whose tail is another log's bytes: what a reader makes of a cut there depends
  on checksum collisions.
- `Crc32c.ExtendImpl`: the register is 32 bits; the source carries it in 64 bits of which the upper
  half stays zero. The tables are defined by formula, not copied.
- `LogTail.RunFollows`: a reader that meets the end of the file inside a fragment is not followed
  further, except by `LogSessions.RunSound` and where `LogTailLimits.ReadsWhatFollows` applies; what it
  makes of the rest depends on the bytes of the payload.
- `LogEndToEnd.WriteFailRead`: with the operating system's buffering only; without it a failed write
  leaves part of a zero-padded page after the records added.
- `LogReader`: offsets are unbounded, except that the subtractions of the source that can go below
  zero wrap at 2^64.
- `LruShardClass.LRUCacheShard`: deleters run inside the operation that decides on them rather than
  after its lock region.
- Charges and sizes are unbounded, and the pool ratio is a real number rather than a double.
- Hash is any function of the key; ApplyToAllCacheEntries, NewId and DisownData are not modelled.
- `ThreadPool`: thread creation does not fail; I/O priorities are not modelled; unschedule functions
  are the tickets recorded in `unscheduled`.
- `FileWriter`: preallocation (PrepareWrite), InvalidateCache and SyncWithoutFlush; Truncate beyond
  the end extends with zeros, which only happens after a failed flush.
- `FileWriter.Serve`: the request list is the caller's; a Close in the middle is not a request.
- `ThreadLocalClass.StaticMeta.OnThreadExit`: the ring of ThreadData structures is a sequence of
  threads and a map of their vectors (the ring surgery is that of `LruList`).
- `ThreadLocalClass.StaticMeta`: Fold and PeekId are not modelled; instances are used only between
  construction and destruction.
