# NormFS, verified

NormFS is a persistent queue. Entries get consecutive ids in memory and go through a reordering
buffer into rotating write-ahead-log (WAL) files. Once a block is in its file its last entry is
acknowledged, and acknowledged entries may leave memory. Finished WAL files are turned into store
files. Reads find a file by binary search over file ids, walk files forward, and finish from memory.

This project models these parts in Dafny and proves what they promise together. From the bottom up:

- `Bytes`, `WalCodec`, `WalScan`, `Selection`, `WalReader`, `Disk`: the WAL format, what a scan finds
  in a file cut at any byte, and the two range readers, measured against one plain filter.
- `UintNs`, `FilePaths`: the six-variant identifier, shown to compute with plain numbers as long as its
  machine widths are minimal, and the file path of an id. The other modules use plain numbers for ids.
- `OrderedBuffering`, `AckFileWriting`, `WalWriting`, `MemQueues`, `Recovery`: the components of the
  write path. Each has its state as a value, the operations on it, and a class whose methods are proved
  to be these operations.
- `Durability`: the write path as one state machine. Enqueueing, submission in any order, reordering,
  writing with rotation, flushing that lands or fails, acknowledgement, eviction, and crashes that cut
  the newest file anywhere, followed by recovery, interleave freely.
- `FileOrder`: what the files of a reachable state look like: numbered without gaps, headers true, and
  without entries only where recovery's header was too narrow for the next id.
- `StoreCodec`, `StoreConversion`, `TierRecovery`: store files, the conversion from WAL files under
  crashes, and recovery from whatever both tiers hold.
- `WholeSystem`: the write path and conversions as one state machine over both tiers. Conversion steps
  interleave freely with writing, and crashes hit both, followed by recovery over both tiers.
- `Lookup`, `ReaderFsm`, `DenseRead`: the read path. The lookup works on layouts with gaps and empty
  files; the reader's transitions are proved to be a simple walk over files and memory.
- `EndToEnd`: reads of a reachable state of the whole system return what was enqueued, exactly when.
  `TornRead`: a run after which one does not.

Main results: `Durability.NothingIsLost`, `Durability.CrashRecovers`, `Durability.AckedForever`,
`WholeSystem.TiersHoldFiles`, `WholeSystem.RecoversFromTiers`, `DenseRead.RightExactly`,
`ReaderFsm.PrefetchMakesNoDifference`, `EndToEnd.ReadReturnsLog`, `EndToEnd.ReaderExists`,
`Lookup.FindFile` with `Lookup.NeverTooLate` and `Lookup.ExactFile`, `UintNs.SubExactly`.

Some properties hold only under a condition. Each of these has its exact condition and an input that
breaks it: release of everything that could be released (`AcceptsMaximalExactly`,
`SuccessorLeftPending`); a block written once (`WrittenOnceExactly`, `SyncRetryDoubles`); a read that
returns what it asks for (`RightExactly`, `ReadReturnsLog`; `SystemLeavesOut` where a crash cut an entry
off, `SkippedForever` where it never ends); survival of acknowledged entries without fsync (`LossExactly`,
`UnsyncedAckIsLost`); a lookup that answers (`FindFailsExactly`, `MissingFileFails`; `DismissedExactly`,
`EmptyLastFile`) and one that starts at or before its target (`StartsBeforeExactly`, `HoleOvershoots`); a
true recorded range (`RangeIsTrueExactly`, `EmptyFileRange`); subtraction and fixed-width writing of
identifiers (`SubExactly`, `WideZeroWraps`, `WriteWithSizeExactly`, `WideFormSpills`).

The hash, compression, encryption and signing are function parameters; `StoreCodec.Crypto.Lawful` states
the inverse laws used. Time, scheduling and the outcome of writes are choices of the step sequences.

## Model

| member | source | states |
|---|---|---|
| `Bytes.LeRoundTrip` | uintn-rs/src/lib.rs:574-588 | a number written little-endian in n bytes reads back as itself whenever it fits n bytes |
| `Bytes.LePlaces` | uintn-rs/src/lib.rs:574-588 | byte i of a number is the one that counts for 256 to the power i |
| `Bytes.LeInverse` | uintn-rs/src/lib.rs:507-552 | bytes read as a number and written in as many bytes come back |
| `Bytes.IdWidthMonotone` | uintn-rs/src/lib.rs:554-566 | a larger identifier never gets fewer bytes, across the 1, 2, 4, 8, 16 and big widths |
| `WalCodec.WalHeader.Resize` | normfs-wal/src/wal_header.rs:67-80 | the widened header holds the given entry, still holds everything the old one held, and is the old one when that already sufficed |
| `WalCodec.HeaderRoundTrip` | normfs-wal/src/wal_header.rs:101-183 | the in-memory and the stream decoder both give back a written WAL header and its size, whatever bytes follow |
| `WalCodec.HeaderTorn` | normfs-wal/src/wal_header.rs:101-174 | a header cut at any byte is refused; the stream decoder reports it as too short, the in-memory decoder reports an identifier error once the 24 fixed bytes are there |
| `WalCodec.HeaderFromBytesExactly` | normfs-wal/src/wal_header.rs:101-125 | any bytes decode to a header exactly when they start with that header's bytes; foreign versions and short bytes are told apart |
| `WalCodec.HeaderFromReaderExactly` | normfs-wal/src/wal_header.rs:127-174 | the same for the stream decoder, which refuses numbers of more than 10 MiB |
| `WalCodec.DefaultHolds` | normfs-wal/src/wal_header.rs:56-80 | a new queue's header holds exactly ids below two to the power 32 and records of any length |
| `WalCodec.PaddedValue` | uintn-rs/src/lib.rs:596-625 | a number is written in exactly the asked-for bytes and reads back as itself, or is refused exactly when its width is larger |
| `WalCodec.EncodeEntryHeader` | normfs-wal/src/wal_entry.rs:68-83 | encoding succeeds exactly when the file header can hold id and record size, and then has the announced size |
| `WalCodec.EntryHeaderRoundTrip` | normfs-wal/src/wal_entry.rs:68-113 | an encoded entry header decodes to the same id, record size and hash, whatever follows |
| `WalCodec.EncodesLayout` | normfs-wal/src/wal_entry.rs:68-83 | the encoded entry header is version, id, record length and checksum, each in its place and width |
| `WalCodec.DecodesExactly` | normfs-wal/src/wal_entry.rs:85-113 | any bytes decode to an entry header exactly when they start with its bytes; foreign versions and short bytes are told apart |
| `WalCodec.RunBytesConcat` | normfs-wal/src/writer.rs:216-233 | the encoding of two runs of entries is the concatenation of their encodings |
| `Selection.SelectedConcat` | normfs-wal/src/reader.rs:568-575 | the filter a stepped, bounded read stands for works piece by piece on any split of the entries |
| `Selection.LimitIsEnd` | normfs/src/reader_fsm/fsm.rs:273-278 | taking the first n entries in step and bounding ids by start + (n-1) * step select the same entries of a gapless run |
| `WalScan.ScanPrefix` | normfs-wal/src/reader.rs:86-145 | scanning any byte prefix of encoded entries finds exactly the whole entries in it |
| `WalScan.ScanExactly` | normfs-wal/src/reader.rs:86-145 | the scan of any bytes is the one run of entries that stand in a row, each behind a header with the checksum of its record, with no entry standing after them |
| `WalScan.ScanStopsAtDamage` | normfs-wal/src/reader.rs:113-130 | whole entries followed by a header whose checksum is not that of the record after it scan to exactly those entries |
| `WalScan.WholeEntriesMaximal` | normfs-wal/src/reader.rs:86-145 | that run of whole entries is the longest whose bytes fit in the prefix |
| `WalScan.NextOfTorn` | normfs-wal/src/reader.rs:90-130 | an entry cut short is never taken for a whole one, and its id shows exactly when its header is complete |
| `WalReader.GetWalRange` | normfs-wal/src/reader.rs:55-145 | the loop returns the header and the first and last id of the scanned entries, or the not-found, empty and bad-header errors |
| `WalReader.GetWalContent` | normfs-wal/src/reader.rs:158-256 | the loop returns the header count, the number of scanned entries and the bytes, or the matching error |
| `WalReader.StreamPass` | normfs-wal/src/reader.rs:305-416 | the streaming loop sends, sees and stops exactly as the one specified pass does |
| `WalReader.SlicePass` | normfs-wal/src/reader.rs:494-642 | the in-memory loop sends, sees and stops exactly as the same specified pass does |
| `WalReader.ReadWalFileRange` | normfs-wal/src/reader.rs:269-447 | entries sent and verdict (complete, or partial with the last read id) of a range read from a file |
| `WalReader.ReadWalBytesRange` | normfs-wal/src/reader.rs:449-679 | the same for bytes in memory, where a short header is a partial read and not an error |
| `WalReader.WalkPrefix` | normfs-wal/src/reader.rs:502-642 | over any byte prefix of a gapless run the pass sends exactly the selected whole entries, and sees the end of the range exactly when a complete entry header carries an id that reaches it |
| `WalReader.WalkSendsScanned` | normfs-wal/src/reader.rs:502-642 | on any bytes a pass sends only selected entries that the scan finds, all of them unless it stops at the end of its range |
| `WalReader.WalkStopsAtDamage` | normfs-wal/src/reader.rs:524-575 | a record that is not what its checksum says is not sent nor anything after it, and its id still shows |
| `WalReader.OddFiles` | normfs-wal/src/reader.rs:55-84 | what the four readers say about missing and empty files and about foreign versions |
| `WalReader.CutHeaderRange` | normfs-wal/src/reader.rs:449-500 | a cut header: an error for the file reader, nothing read yet for the in-memory one while the fixed part is cut |
| `WalReader.UntornRange` | normfs-wal/src/reader.rs:449-679 | on an untorn file the reader sends exactly the selected entries and says complete exactly when the last id reaches the end of the range |
| `WalReader.EarlyComplete` | normfs-wal/src/reader.rs:524-545 | on a cut file the reader says complete without having reached the end exactly when the end is the cut entry and its header survived |
| `WalReader.ReadersAgree` | normfs-wal/src/reader.rs:269-447 | once the header is whole the streaming and the in-memory reader send the same entries and give the same verdict |
| `WalReader.FilePrefix` | normfs-wal/src/reader.rs:55-256 | for a file cut at any byte, range and content agree with the longest whole run, and a cut header is an error |
| `Disk.ScanCutFile` | normfs-wal/src/reader.rs:55-145 | a cut file scans to exactly its surviving entries, none if the header is cut |
| `Disk.WalRangeIsScan` | normfs-wal/src/reader.rs:55-145 | the range reader reports a range exactly when the scan finds entries, and then their first and last id |
| `OrderedBuffering.OrderedBuffer.constructor` | normfs-wal/src/writer_buffer.rs:12-18 | the buffer starts with nothing pending after the given id |
| `OrderedBuffering.OrderedBuffer.CheckCanWrite` | normfs-wal/src/writer_buffer.rs:20-25 | only the successor of the last written id, or 0 at first, may be written |
| `OrderedBuffering.OrderedBuffer.CanWrite` | normfs-wal/src/writer_buffer.rs:27-34 | accepts exactly the next id and then moves on to it, else changes nothing |
| `OrderedBuffering.OrderedBuffer.WaitForOrder` | normfs-wal/src/writer_buffer.rs:36-114 | pending and new entry together are what is released and what stays, in id order, and the release runs on from the next id until it breaks off |
| `OrderedBuffering.SortById` | normfs-wal/src/writer_buffer.rs:64-67 | an ordered permutation of the pending entries |
| `OrderedBuffering.CountReady` | normfs-wal/src/writer_buffer.rs:69-92 | how many entries at the front run on from the last written id, and the id they end at |
| `OrderedBuffering.AcceptsConserves` | normfs-wal/src/writer_buffer.rs:20-114 | whatever the writer does with an arrival, nothing is lost or doubled and releases continue from the next id |
| `OrderedBuffering.WaitsMaximal` | normfs-wal/src/writer_buffer.rs:36-114 | buffering fresh entries leaves nothing pending that could be written |
| `OrderedBuffering.ArrivalPossible` | normfs-wal/src/writer_buffer.rs:20-114 | whatever arrives in whatever state of the buffer can be accepted |
| `OrderedBuffering.AcceptsMaximalExactly` | normfs-wal/src/writer.rs:171-187 | an accepted fresh entry leaves the release maximal except exactly when it goes straight through while its successor is pending |
| `OrderedBuffering.SuccessorLeftPending` | normfs-wal/src/writer.rs:171-187 | that exception happens: 2 arrives, then 1, and 2 stays pending |
| `OrderedBuffering.RunReleasesInOrder` | normfs-wal/src/writer_buffer.rs:20-114 | over any run and any arrival order the released ids are last+1, last+2, ... each once, and arrivals equal released plus pending as multisets |
| `OrderedBuffering.RunReleasesAll` | normfs-wal/src/writer_buffer.rs:36-114 | a run that brings every id up to a bound once and whose last arrival has to wait releases them all |
| `AckFileWriting.AckFileWriter.constructor` | normfs-wal/src/ack_file_writer.rs:52-99 | a new file holds its header, nothing is buffered |
| `AckFileWriting.AckFileWriter.Write` | normfs-wal/src/ack_file_writer.rs:106-116 | the entry is appended to the buffer, its id to the acknowledgements, its size to the count |
| `AckFileWriting.AckFileWriter.StartFlush` | normfs-wal/src/ack_file_writer.rs:163-184 | the whole buffer becomes the block on its way, with only its last acknowledgement |
| `AckFileWriting.AckFileWriter.FinishFlush` | normfs-wal/src/ack_file_writer.rs:192-243 | after up to 1000 attempts the file has grown by one copy of the block per successful write, and either the acknowledgement is sent or the block is back in front of the buffer |
| `AckFileWriting.AckFileWriter.Close` | normfs-wal/src/ack_file_writer.rs:118-125 | the block on its way ends, then the buffer is flushed; state and sent acknowledgements are those of the specified closing |
| `AckFileWriting.WrittenOnceExactly` | normfs-wal/src/ack_file_writer.rs:192-218 | a block ends up acknowledged and in the file exactly once if and only if no failed sync comes before the successful attempt |
| `AckFileWriting.SyncRetryDoubles` | normfs-wal/src/ack_file_writer.rs:192-218 | a failed sync, then success: the block is acknowledged and in the file twice, and the entries a scan finds are no longer numbered one after the other |
| `AckFileWriting.NothingLostOnTheWay` | normfs-wal/src/ack_file_writer.rs:106-243 | file, block and buffer together are the header and all entries in write order |
| `AckFileWriting.FlushStepKeeps` | normfs-wal/src/ack_file_writer.rs:106-243 | every append, take, landing and failure keeps that and the acknowledgement invariant |
| `AckFileWriting.FlushProtocol` | normfs-wal/src/ack_file_writer.rs:106-243 | in every state any interleaving reaches: nothing lost, the file is a front of what was appended, every sent acknowledgement names an entry of that front |
| `AckFileWriting.CloseFileLaid` | normfs-wal/src/ack_file_writer.rs:118-154 | closing leaves a file with every entry and acknowledges only entries of that file |
| `AckFileWriting.ClosedIsAcked` | normfs-wal/src/ack_file_writer.rs:118-154 | closing acknowledges the last entry unless all were in the file before |
| `MemQueues.MemQueue.constructor` | normfs/src/mem/mod.rs:56-69 | memory starts empty after the given id |
| `MemQueues.MemQueue.Enqueue` | normfs/src/mem/mod.rs:71-108 | the entry gets the next id, memory is looked after, the queue stays consistent |
| `MemQueues.MemQueue.EnqueueBatch` | normfs/src/mem/mod.rs:110-162 | the batch gets consecutive ids, memory is looked after once, the queue stays consistent |
| `MemQueues.MemQueue.Ack` | normfs/src/mem/mod.rs:168-176 | the greatest acknowledged id is kept and memory looked after |
| `MemQueues.MemQueue.CleanupUnlocked` | normfs/src/mem/mod.rs:178-208 | over the limit, exactly the acknowledged front is let go, with sizes and first id kept true |
| `MemQueues.MemQueue.Read` | normfs/src/mem/mod.rs:210-294 | refused exactly when it starts before what memory holds, else sends exactly the selected entries |
| `MemQueues.MemQueue.ReadNegative` | normfs/src/mem/mod.rs:296-397 | start counted back from the last id, refused when memory does not reach it, else the first entries in step up to the limit |
| `MemQueues.StepWalk` | normfs/src/mem/mod.rs:255-276 | the stepping candidate sends exactly the ids the plain filter selects |
| `MemQueues.CountedWalk` | normfs/src/mem/mod.rs:340-380 | the counting walk sends exactly the first selected entries up to the limit |
| `MemQueues.CatchUp` | normfs/src/mem/mod.rs:255-276 | the candidate ends at the first multiple of the step not below the entry |
| `MemQueues.BatchIsOneByOne` | normfs/src/mem/mod.rs:71-162 | a batch leaves the same memory and ids as its entries one by one, although it cleans up once |
| `MemQueues.OperationsKeepValid` | normfs/src/mem/mod.rs:71-208 | enqueue, batch and ack keep entries consecutive up to the last id, usage the sum of sizes, and first id present exactly with entries |
| `MemQueues.CleanupDropsAcked` | normfs/src/mem/mod.rs:178-208 | cleaning up keeps a suffix and drops only acknowledged entries |
| `MemQueues.CleanupExactly` | normfs/src/mem/mod.rs:178-208 | within the limit, or with nothing acknowledged, everything stays; else an entry goes if and only if its id is acknowledged |
| `MemQueues.HeldExactly` | normfs/src/mem/mod.rs:71-208 | exactly which entries memory holds after an enqueue, a batch and an acknowledgement |
| `MemQueues.GreatestAckKept` | normfs/src/mem/mod.rs:168-176 | after any acknowledgements the kept one is the greatest of them and of the one before |
| `MemQueues.TailReadExactly` | normfs/src/mem/mod.rs:296-397 | a tail read starts so many ids before the last, is refused exactly when memory does not reach back that far, and else sends all entries in step or as many as the limit allows |
| `MemQueues.TailReadIsBoundedRead` | normfs/src/mem/mod.rs:296-397 | what memory serves from the tail equals the bounded read from the resolved start |
| `WalWriting.WriterState.constructor` | normfs-wal/src/writer.rs:39-90 | a writer on a new file, empty reordering buffer after the given id |
| `WalWriting.WriterState.Write` | normfs-wal/src/writer.rs:163-247 | the arrival is accepted by the buffer and exactly what that releases is written, through rotations |
| `WalWriting.WriterState.WriteBatch` | normfs-wal/src/writer.rs:249-266 | a batch is a run of arrivals; what it releases, numbered on from the next id, is what gets written |
| `WalWriting.WriterState.WriteEntry` | normfs-wal/src/writer.rs:197-244 | one entry goes to the current file, or to a new one when size or widths demand it |
| `WalWriting.WriterState.Rotate` | normfs-wal/src/writer.rs:268-321 | the file is closed and reported, the next one has a header widened for the entry and numbered by it |
| `WalWriting.Rotated` | normfs-wal/src/writer.rs:268-310 | the new header can hold the entry that caused the rotation |
| `WalWriting.MovesOnExactly` | normfs-wal/src/writer.rs:197-310 | the file id changes if and only if the header is too narrow or something was written and the record would exceed the limit; what is closed, reported, acknowledged and started then |
| `WalWriting.LeftFull` | normfs-wal/src/writer.rs:197-200 | a file left for its size would have exceeded the limit with the next record |
| `WalWriting.ReportsInOrder` | normfs-wal/src/writer.rs:268-300 | over any released run exactly the files left are reported complete, in order |
| `WalWriting.StorableExactly` | normfs-wal/src/wal_header.rs:127-174 | the ids the writer may number a file with are exactly those the stream decoder reads back |
| `WalWriting.ClosedFileGood` | normfs-wal/src/writer.rs:268-321 | a closed file holds exactly its entries, numbered from the id its header announces, and with two or more entries exceeds the size limit by at most one entry header |
| `WalWriting.RotateKeeps` | normfs-wal/src/writer.rs:268-321 | rotation loses and reorders nothing and keeps every file good |
| `WalWriting.WriteOneKeeps` | normfs-wal/src/writer.rs:197-244 | writing the next entry appends exactly it to the content of all files and buffers; new acknowledgements name entries in files |
| `WalWriting.WriteAllKeeps` | normfs-wal/src/writer.rs:163-247 | the same for any released run, over any number of rotations |
| `Recovery.FileEnd` | normfs-wal/src/lib.rs:105-119 | the last id of a WAL file, none exactly when it holds no valid entry |
| `Recovery.LastWithEntries` | normfs/src/lib.rs:634-715 | the greatest file id that holds a valid entry, with none after it |
| `Recovery.RecoveryResumes` | normfs/src/lib.rs:610-718 | when all valid entries are numbered from 0, recovery resumes one past the greatest, in a file that holds no valid entry and has none after it, and the other files still hold everything |
| `Recovery.ResumesWithHeader` | normfs/src/lib.rs:643-689 | recovery goes on with the header of the last file that holds an entry, numbered one past its last surviving one; whatever fitted that file fits |
| `Recovery.LongHeaderMissed` | normfs-wal/src/reader.rs:14-53 | a header of more than 128 bytes is not found by those who read only so many |
| `Durability.MaxAck` | normfs-wal/src/ack_file_writer.rs:220-228 | one more than the greatest acknowledged id, the least such bound |
| `Durability.EnqueueKeeps` | normfs/src/lib.rs:799-810 | numbering an entry keeps the whole-system invariant |
| `Durability.BatchKeeps` | normfs/src/lib.rs:812-836 | numbering a batch keeps the whole-system invariant |
| `Durability.ReleasedIsNext` | normfs-wal/src/writer_buffer.rs:36-114 | whatever was submitted in whatever order, a release is the next piece of the log and the rest stays to be released |
| `Durability.WriteNextKeeps` | normfs-wal/src/writer.rs:197-244 | filing a released entry, with or without rotation, keeps the invariant |
| `Durability.FlushLandsKeeps` | normfs-wal/src/ack_file_writer.rs:192-228 | a landed block and its acknowledgement keep the invariant |
| `Durability.DeliverKeeps` | normfs/src/mem/mod.rs:168-208 | an acknowledgement that reaches memory, and the eviction it allows, keep the invariant |
| `Durability.CrashKeeps` | normfs/src/lib.rs:610-718 | a crash at any byte of the newest file followed by recovery keeps the invariant |
| `Durability.ResumesAfterSurvivors` | normfs/src/lib.rs:610-718 | recovery resumes right after the last surviving entry with a header it can write |
| `Durability.StepKeeps` | normfs-wal/src/writer.rs:163-320 | every step of the system keeps the invariant |
| `Durability.RunKeeps` | normfs-wal/src/writer.rs:163-320 | so does every run |
| `Durability.FilesAreOneRun` | normfs-wal/src/writer.rs:163-320 | the valid entries of all files are one gapless run from id 0 with the data that was enqueued, in good files only |
| `Durability.NothingIsLost` | normfs/src/mem/mod.rs:168-208 | in every reachable state every assigned id is in memory or in a file with its data, everything evicted is in a file, everything acknowledged is in a file |
| `Durability.LandedIsAcked` | normfs-wal/src/ack_file_writer.rs:192-228 | once a block has landed everything in files is acknowledged |
| `Durability.AckedMeansSent` | normfs-wal/src/ack_file_writer.rs:220-228 | only what is sent counts as acknowledged, and a crash acknowledges nothing |
| `Durability.RunDelivers` | normfs/src/mem/mod.rs:168-176 | in every reachable state memory knows the greatest acknowledgement delivered to it |
| `Durability.WorkGoesOn` | normfs-wal/src/writer.rs:163-320 | nothing gets stuck half way: whatever has come somewhere can go on from there |
| `Durability.CutsPossible` | normfs-wal/src/ack_file_writer.rs:200-218 | a crash may take all that is not synced or nothing, and never more |
| `Durability.CrashRecovers` | normfs/src/lib.rs:610-718 | from every reachable state and every cut of the newest file: recovery succeeds, resumes one past the greatest surviving id, never at or below an acknowledged one with fsync, and truncates a file without valid entries |
| `Durability.AckedForever` | normfs-wal/src/ack_file_writer.rs:200-228 | with fsync, over any run with any number of crashes, acknowledged entries keep id and data and stay on disk |
| `Durability.LossExactly` | normfs-wal/src/ack_file_writer.rs:200-228 | every possible crash keeps every acknowledged entry exactly when fsync is on or nothing in the newest file is acknowledged |
| `Durability.UnsyncedAckIsLost` | normfs-wal/src/ack_file_writer.rs:200-228 | without fsync one written and acknowledged entry can be gone after a crash |
| `FileOrder.StepTidy` | normfs-wal/src/writer.rs:268-321 | every step keeps files numbered without gaps and every readable header true |
| `FileOrder.RunTidy` | normfs/src/lib.rs:610-718 | so does every run with crashes |
| `FileOrder.StepEmpties` | normfs-wal/src/writer.rs:268-321 | every step keeps that a finished file without entries is nothing but the header recovery gives it, too narrow for the next id |
| `FileOrder.ReuseChangesNothing` | normfs/src/lib.rs:663-689 | when recovery takes up the id of a finished file again it writes the very bytes that file held, and the next entry again does not fit |
| `FileOrder.CrashResumesWide` | normfs/src/lib.rs:651-689 | after a crash of a queue in order the writer goes on with the widths of the last file that holds an entry |
| `FileOrder.RunReports` | normfs-wal/src/writer.rs:281-300 | over any run the files reported complete are those between the one the process started with and the current one, in order |
| `FileOrder.RunForCause` | normfs-wal/src/writer.rs:197-200 | in runs without crashes every finished file was left because the next entry did not fit its header or would have exceeded the limit |
| `Lookup.FindValidFileBackward` | normfs/src/lookup.rs:47-74 | the nearest file at or before the start that holds data, none, or an error when a broken file comes first |
| `Lookup.BinarySearch` | normfs/src/lookup.rs:257-486 | the loop ends on every layout and computes the specified search; from every state a search can be in, its answer is not too late, starts at or before the target outside holes, and is the exact place when every file holds data |
| `Lookup.SearchIsGood` | normfs/src/lookup.rs:257-486 | the same for the specified search, round by round |
| `Lookup.FindFile` | normfs/src/lookup.rs:76-254 | the whole lookup computes the specified one, which fails first when the store's range of either end cannot be read; without files there is no answer, on sound layouts there is one exactly when the target is not dismissed, and an answer is good as above |
| `Lookup.FindIsGood` | normfs/src/lookup.rs:76-254 | the answer of the specified lookup is good on every layout |
| `Lookup.DismissedExactly` | normfs/src/lookup.rs:229-236 | in an ordered layout the lookup gives up on a target exactly when the last data is a store file with an empty range that starts there |
| `Lookup.EmptyLastFile` | normfs/src/lookup.rs:229-236 | it does so for store files 0..3 and 4..3 and target 4, although the layout is ordered, contiguous and sound |
| `Lookup.FindFailsExactly` | normfs/src/lookup.rs:76-486 | with no broken file and data in the first one, the lookup fails exactly when the target is not answered at either end or dismissed and the rounds of the search come to a WAL file, not after the target, whose next file holds no data; the condition to check beforehand is that of NoStumbling |
| `Lookup.NoStumbling` | normfs/src/lookup.rs:412-470 | a condition on the layout alone under which no search fails: every WAL file strictly between the ends is followed by a file with data |
| `Lookup.MissingFileFails` | normfs/src/lookup.rs:412-470 | it does stumble: WAL files 1, 2 and 4, file 3 gone, a target in file 2 |
| `Lookup.OddNextFile` | normfs/src/lookup.rs:412-470 | which error the file in the way gives |
| `Lookup.EndsDecide` | normfs/src/lookup.rs:138-227 | what the first and last file decide before any search, and that walking back the nearest broken file does |
| `Lookup.NeverTooLate` | normfs/src/lookup.rs:198-254 | wherever the target or the next existing id is, the answer is not a later file |
| `Lookup.StartsBeforeExactly` | normfs/src/lookup.rs:282-312 | an answer other than the first file starts at or before every target that is in no id hole right after a store file; when every file holds data, exactly for those targets |
| `Lookup.ExactFile` | normfs/src/lookup.rs:156-254 | with every file holding data and no id missing, the answer is the one file with start <= target < next start, the last file beyond |
| `Lookup.HoleOvershoots` | normfs/src/lookup.rs:282-312 | store files 0..3 and 8..9: the lookup answers target 5 with the file that starts at 8 |
| `Lookup.MoveRightBack` | normfs/src/lookup.rs:345-395 | replacing the left end by the end of the file found by walking back keeps the search sound |
| `ReaderFsm.StepMeaning` | normfs/src/reader_fsm/fsm.rs:75-138 | a transition sends a front of what its state stands for and the new state stands for the rest, prefetched or not |
| `ReaderFsm.EndsExactly` | normfs/src/reader_fsm/fsm.rs:35-72 | the machine ends in a given state with given entries sent exactly when the specified walk over files and memory says so |
| `ReaderFsm.PrefetchMakesNoDifference` | normfs/src/reader_fsm/fsm.rs:141-256 | with or without fetching ahead, the same ends with the same entries, or none, whatever files are missing, unreadable or not extractable |
| `ReaderFsm.FetchesAhead` | normfs/src/reader_fsm/fsm.rs:642-744 | the next file is fetched ahead exactly when that is on, every entry is asked for, and more than one is left |
| `ReaderFsm.NeverOver` | normfs/src/reader_fsm/fsm.rs:746-872 | a read whose entry is nowhere is not over after any number of steps |
| `ReaderFsm.UnansweredEnds` | normfs/src/reader_fsm/fsm.rs:376-417 | how reads end that memory does not serve and the lookup does not answer |
| `ReaderFsm.EmptyTailEnds` | normfs/src/reader_fsm/fsm.rs:318-374 | a tail read of a queue without entries completes with none |
| `ReaderFsm.FaultyFile` | normfs/src/reader_fsm/fsm.rs:429-744 | a tier that cannot be read ends a read with its error; a file missing from both, not extractable or without a readable header is passed over |
| `ReaderFsm.Read` | normfs/src/reader_fsm/fsm.rs:35-72 | the read loop, run for any number of rounds: a read that ends is over after as many rounds as its rank, with the specified outcome; one that does not is never over, and what it sent so far is a front of its outcome |
| `ReaderFsm.TailReadIsAbsolute` | normfs/src/reader_fsm/fsm.rs:318-351 | a limited tail read and the absolute read at max(0, last - offset) have the same outcome |
| `DenseRead.AbsoluteRead` | normfs/src/reader_fsm/fsm.rs:258-316 | over gapless files, some cut off by crashes, and memory, the outcome of every absolute read: exactly the existing ids in step, each once with its data; or without the last id, when a file is cut off in that entry after its header and memory does not take over before; or never an end; or a failed lookup |
| `DenseRead.RightExactly` | normfs/src/reader_fsm/fsm.rs:258-316 | the read returns what it asks for if and only if memory serves its start, or the lookup answers and no file from there on is cut off in the last entry asked for and the read finishes, or that entry does not exist or memory takes over before; else it leaves out exactly that entry |
| `DenseRead.WalkToTorn` | normfs/src/reader_fsm/fsm.rs:642-744 | the walk to a file cut off in the last entry asked for ends there without that entry, unless memory takes over after an earlier file |
| `DenseRead.MachineReads` | normfs/src/reader_fsm/fsm.rs:35-72 | the machine, prefetching or not, ends with exactly the wanted entries if and only if the read is right, and otherwise as its outcome says |
| `DenseRead.TailRead` | normfs/src/reader_fsm/fsm.rs:318-351 | outcome and exact condition of a limited read from the tail |
| `DenseRead.StaysOnTrack` | normfs/src/reader_fsm/fsm.rs:694-715 | after a partial read the next id is right: what it selects from then on continues what was sent |
| `DenseRead.MemoryAnswers` | normfs/src/reader_fsm/fsm.rs:765-792 | memory ends a read exactly when it reaches back to the next id, and then sends exactly what is left |
| `DenseRead.TornEnd` | normfs-wal/src/reader.rs:526-545 | coming to a file cut off in the last entry asked for, the read ends with exactly what came before |
| `DenseRead.CutRange` | normfs-wal/src/reader.rs:449-679 | sent entries and verdict of the range reader on a file that may be cut off |
| `DenseRead.LayoutInOrder` | normfs/src/lookup.rs:156-254 | such files are in order and contiguous and none is broken, in whichever tier they are found, and also when empty ones are not found |
| `DenseRead.LookupOnTrack` | normfs/src/reader_fsm/fsm.rs:376-417 | where the lookup answers, it is with a file before which nothing is wanted |
| `DenseRead.LookupAnswers` | normfs/src/reader_fsm/fsm.rs:376-417 | when memory does not serve the start and every file is found, the lookup answers |
| `DenseRead.MemoryAndFileAgree` | normfs/src/mem/mod.rs:255-276 | the memory walk and the file reader send the same out of the same entries, for every start, end and step |
| `DenseRead.SkippedForever` | normfs/src/reader_fsm/fsm.rs:746-872 | the never-ending read happens: every second id from 0, with 0 gone, 1 in the file and 2 in memory |
| `EndToEnd.ProbeTells` | normfs/src/lookup.rs:156-170 | probing a file of a reachable state tells the id it starts at |
| `EndToEnd.ProbeExactly` | normfs-wal/src/reader.rs:14-53 | what probing tells about any file: missing, of a foreign version, with a header within the first 128 bytes, or without one there |
| `EndToEnd.StoreAskedFirst` | normfs/src/lookup.rs:47-74 | the store's range decides, its error is the lookup's, and only without either is the WAL asked |
| `EndToEnd.FilesAreDense` | normfs-wal/src/writer.rs:163-320 | files and memory of every queue in order are the gapless run the reader needs |
| `EndToEnd.ReaderReturnsLog` | normfs/src/reader_fsm/fsm.rs:35-72 | a limited read by any reader of a queue in order ends with exactly the enqueued entries it asks for if and only if it is right in the sense of RightExactly; a read for which the lookup answers always ends and leaves out at most the last entry |
| `EndToEnd.ReadReturnsLog` | normfs/src/reader_fsm/fsm.rs:35-72 | in every reachable state of the whole system, conversions and crashes in any order included, so does every limited read over its own tiers and memory |
| `EndToEnd.LookupFailsExactly` | normfs/src/lookup.rs:76-486 | in every reachable state of the whole system the lookup fails exactly when the rounds of its search come to a WAL file followed by a file that is not found; the condition to check beforehand, also stated, is that every WAL file is followed by one that is found |
| `EndToEnd.ReaderExists` | normfs-store/src/writer.rs:79-312 | every reachable state of the whole system, conversions before, between and after writes and crashes, has a reader over both tiers; the files it does not find are exactly the empty ones whose WAL file is deleted and whose range is not cached |
| `EndToEnd.NoCrashNoTear` | normfs-wal/src/writer.rs:268-321 | in runs without crashes no file is cut off and no finished file is without entries |
| `EndToEnd.CrashFreeRead` | normfs/src/reader_fsm/fsm.rs:35-72 | in such runs, whatever is converted meanwhile, every limited read returns exactly the enqueued entries it asks for |
| `TornRead.TheRun` | normfs-wal/src/writer.rs:163-321 | a run: entry 0 written and acknowledged, a crash after the header of entry 1, recovery, entry 1 written again, synced, acknowledged and evicted |
| `TornRead.AckedEntryLeftOut` | normfs-wal/src/reader.rs:524-545 | after it every reader, asked for entries 0 and 1, ends with entry 0 only |
| `TornRead.SystemLeavesOut` | normfs-wal/src/reader.rs:524-545 | it is a run of the whole system, whose own reader over both tiers then leaves the acknowledged entry out |
| `StoreCodec.AuthRoundTrip` | normfs-store/src/header.rs:149-188 | the 152 signature bytes decode to the same signatures, whatever follows |
| `StoreCodec.AuthExactly` | normfs-store/src/header.rs:149-188 | any bytes decode to signatures exactly when they start with them |
| `StoreCodec.StoreHeaderRoundTrip` | normfs-store/src/header.rs:220-274 | the store header decodes to the same packing and numbers, whatever follows |
| `StoreCodec.PackingNumbers` | normfs-store/src/header.rs:75-81 | the numbers of the packings: these and no others |
| `StoreCodec.StoreHeaderExactly` | normfs-store/src/header.rs:220-254 | any bytes decode to a store header exactly when version, packing and both numbers stand in their places |
| `StoreCodec.StoreHeaderRefused` | normfs-store/src/header.rs:220-254 | which error other bytes give |
| `StoreCodec.ExtractRoundTrip` | normfs-store/src/lib.rs:441-517 | extracting a written store file gives the original bytes for every packing that can be written, with or without checking signatures |
| `StoreCodec.ExtractExactly` | normfs-store/src/lib.rs:441-517 | any store file that decodes is extracted exactly when its signatures hold, if they are to be checked, and its payload decrypts and decompresses as its header says |
| `StoreCodec.UndecodedRefused` | normfs-store/src/lib.rs:441-517 | a file whose headers do not decode is not extracted |
| `StoreCodec.RangeRoundTrip` | normfs-store/src/ranges.rs:98-160 | the range read from the first 256 bytes is the one written, none for zero entries, while the two numbers take at most 64 bytes |
| `StoreCodec.RangeExactly` | normfs-store/src/ranges.rs:98-160 | the range of any store file whose first 256 bytes decode, with its signature checked if asked for |
| `StoreConversion.StepKeepsFile` | normfs-store/src/writer.rs:79-186 | every step of a conversion, range lookups and crashes included, keeps what is left of a file standing for the original |
| `StoreConversion.ConversionKeepsFiles` | normfs-store/src/writer.rs:79-312 | at every point of any number of conversions and crashes every finished file reads as its original bytes, and a nonempty store file has one range, cached or read |
| `StoreConversion.ConvertedAsAsked` | normfs-store/src/writer.rs:79-312 | a file is converted if and only if its header can be read and its packing written; the store file is signed, announces the packing asked for and the true numbers, and its payload is compressed and encrypted accordingly |
| `StoreConversion.ProcessedAsAsked` | normfs-store/src/writer.rs:188-312 | so is whatever the worker puts into the store |
| `StoreConversion.DeletedLast` | normfs-store/src/writer.rs:149-186 | a WAL file is deleted only with its store file in place and its range known |
| `StoreConversion.FoundIsCached` | normfs-store/src/ranges.rs:163-214 | a range once found stays at hand, and nothing else in the cache changes |
| `StoreConversion.RestartForgets` | normfs-store/src/lib.rs:402-439 | a restart leaves the files of both tiers alone and forgets temporary files and cached ranges |
| `StoreConversion.RangeIsTrueExactly` | normfs-store/src/writer.rs:134-166 | the recorded range is the range of the entries exactly when there is an entry or none was written before |
| `StoreConversion.EmptyFileRange` | normfs-store/src/writer.rs:134-166 | an empty file after other entries is recorded as a range that ends before it starts |
| `StoreConversion.ProcessingIsSteps` | normfs-store/src/writer.rs:79-186 | an uninterrupted conversion is the steps write, rename, record, delete, as far as the range can be computed |
| `StoreConversion.StoreWorker.constructor` | normfs-store/src/writer.rs:27-40 | a worker over unconverted WAL files |
| `StoreConversion.StoreWorker.ProcessEntry` | normfs-store/src/writer.rs:79-186 | files, ranges and cache after a conversion, and no change when the file cannot be read or packed |
| `StoreConversion.StoreWorker.WriteStoreFile` | normfs-store/src/writer.rs:238-312 | the store file is in place and the temporary one gone |
| `StoreConversion.StoreWorker.LookUp` | normfs-store/src/ranges.rs:163-214 | the cached range, else the one in the file, which then is cached; none for a missing or empty file |
| `TierRecovery.ContinueQueue` | normfs/src/lib.rs:386-718 | the latest id of both tiers, then the backward loop over end ids and headers from WAL and store, ends and decides as specified; for a latest file id 0 it resumes in file 1 after its entries, or fails if it has none |
| `TierRecovery.FileSeen` | normfs/src/lib.rs:452-606 | in whichever tiers a file is, after a start the end id and the header recovery gets are those of the original WAL file |
| `TierRecovery.RecoverySeesOriginals` | normfs/src/lib.rs:386-718 | after any conversion run that ends in a crash, recovery over both tiers finds the latest id and makes the decision of the original WAL files |
| `TierRecovery.TiersResumeWithHeader` | normfs/src/lib.rs:552-689 | the header it goes on with is that of the last file with an entry, in whichever tier that is |
| `TierRecovery.WalAlone` | normfs/src/lib.rs:610-718 | where nothing was converted the WAL files decide alone, whatever they hold |
| `WholeSystem.ConvertKeeps` | normfs-store/src/writer.rs:79-186 | a conversion step between any two steps of the write path keeps every file standing for what it was finished with, and touches nothing under the current id |
| `WholeSystem.WriteKeepsFiled` | normfs-wal/src/writer.rs:268-321 | so does writing with rotation; a file taken up again that is in the store is left as it is |
| `WholeSystem.FailDecides` | normfs/src/lib.rs:386-718 | from what both tiers hold after a crash recovery decides as on the files as they were finished |
| `WholeSystem.FailIsCrash` | normfs/src/lib.rs:610-718 | a crash of the whole is always possible to recover from and is for the queue a crash of the write path |
| `WholeSystem.EventKeeps` | normfs-store/src/writer.rs:79-186 | every event keeps the invariant of the whole, and is for the queue a step of the write path or nothing |
| `WholeSystem.RunKeepsSystem` | normfs/src/lib.rs:720-797 | so does every run, and the queue goes through a run of the write path |
| `WholeSystem.TiersHoldFiles` | normfs/src/reader_fsm/fsm.rs:429-466 | in every reachable state of the whole what readers get from both tiers is exactly the files that were written, byte for byte, the current one included |
| `WholeSystem.NothingLostInTiers` | normfs/src/mem/mod.rs:168-208 | in every reachable state of the whole every assigned id is in memory or in the tiers, everything evicted or acknowledged is in the tiers |
| `WholeSystem.AckedStaysInTiers` | normfs-wal/src/ack_file_writer.rs:200-228 | with fsync, over any run with conversions and crashes, acknowledged entries keep id and data and stay in the tiers |
| `WholeSystem.RecoversFromTiers` | normfs/src/lib.rs:386-718 | from every reachable state of the whole and every cut of the newest file recovery over both tiers succeeds, resumes one past the greatest surviving id, and with fsync above everything acknowledged |
| `WholeSystem.ResumesWide` | normfs/src/lib.rs:552-689 | after a crash of the whole the writer goes on with the widths of the last file that holds an entry |
| `WholeSystem.ReportedExactly` | normfs-wal/src/lib.rs:277-337 | the finished files are exactly those reported complete since the start and those before the file the process started with, so every file a conversion touches is one of them |
| `WholeSystem.EveryFileConverts` | normfs-store/src/writer.rs:79-186 | in every reachable state every finished file in the WAL can be converted to the end, and is then in the store, packed as asked |
| `WholeSystem.WritePathAlone` | normfs/src/lib.rs:720-797 | every run of the write path with short ids is a run of the whole without conversions |
| `UintNs.From` | uintn-rs/src/lib.rs:688-754 | the narrowest variant that holds the number |
| `UintNs.MinimalExactly` | uintn-rs/src/lib.rs:688-754 | a machine-width value is minimal exactly when it is too large for every narrower variant |
| `UintNs.ComparisonIsNumeric` | uintn-rs/src/lib.rs:66-119 | equality and order, arm by arm over all variant pairs with their casts, are those of the numbers |
| `UintNs.AddIsNumeric` | uintn-rs/src/lib.rs:272-399 | addition, arm by arm over all variant pairs with casts and overflow into the next width, adds the numbers and keeps values minimal |
| `UintNs.IncrementIsNumeric` | uintn-rs/src/lib.rs:216-255 | the successor, moving to the next width at each limit, is one more and minimal |
| `UintNs.DecrementIsNumeric` | uintn-rs/src/lib.rs:257-270 | one less and minimal, refused for zero only, and the inverse of the successor |
| `UintNs.MiddleIsNumeric` | uintn-rs/src/lib.rs:473-501 | the middle, arm by arm over all variant pairs with its casts up and down, is half the sum and minimal |
| `UintNs.RemIsNumeric` | uintn-rs/src/lib.rs:783-815 | the remainder, arm by arm over all variant pairs, is that of the numbers, in minimal form |
| `UintNs.MinimalIsClosed` | uintn-rs/src/lib.rs:216-501 | every operation keeps machine-width values minimal |
| `UintNs.CanonicalIsClosed` | uintn-rs/src/lib.rs:216-501 | operations on values in their one form give values in their one form, so big integers appear only beyond the machine widths |
| `UintNs.SubIsNumeric` | uintn-rs/src/lib.rs:401-462 | on minimal values subtraction is subtraction and every underflow is noticed |
| `UintNs.SubExactly` | uintn-rs/src/lib.rs:401-462 | on any values subtraction is right exactly when it does not go through an unchecked arm into an underflow |
| `UintNs.WideZeroWraps` | uintn-rs/src/lib.rs:413-413 | a value kept too wide does wrap around |
| `UintNs.MiddleIsBetween` | uintn-rs/src/lib.rs:473-501 | the middle of two numbers that are not neighbours lies strictly between them |
| `UintNs.InStepIsNumeric` | uintn-rs/src/lib.rs:669-685 | the step test on identifiers is the step test on numbers |
| `UintNs.SizeIsWidth` | uintn-rs/src/lib.rs:554-566 | a canonical value takes the width the file formats give its number |
| `UintNs.ReadValue` | uintn-rs/src/lib.rs:527-552 | bytes of any length read as a minimal value with the right number |
| `UintNs.ReadForm` | uintn-rs/src/lib.rs:527-552 | of the machine lengths the narrowest variant is read, of any other length a big integer |
| `UintNs.SerialRoundTrip` | uintn-rs/src/lib.rs:507-594 | length-prefixed values read back equal, and identical when canonical, whatever follows |
| `UintNs.PrefixedIsIdentifier` | uintn-rs/src/lib.rs:507-525 | the length-prefixed numbers of the file formats are identifiers |
| `UintNs.WriteWithSizeExactly` | uintn-rs/src/lib.rs:596-625 | the output has the asked-for size exactly when the form is not wider, always so for minimal values that are not refused |
| `UintNs.WriteRefused` | uintn-rs/src/lib.rs:596-625 | which values are refused for a size, and with which error |
| `UintNs.WideFormSpills` | uintn-rs/src/lib.rs:596-625 | a value in too wide a form does write more bytes than it reports |
| `UintNs.PaddedIsIdentifier` | uintn-rs/src/lib.rs:596-625 | fixed-width numbers in entry headers are identifiers written with that size |
| `FilePaths.ToFilePath` | uintn-rs/src/lib.rs:627-663 | the loop splits the padded hexadecimal form into the groups of three and adds the extension |
| `FilePaths.PathToId` | uintn-rs/src/paths.rs:226-237 | the loop joins the components without the extension and reads them as hexadecimal |
| `FilePaths.PaddedIsGroups` | uintn-rs/src/lib.rs:627-663 | padding the hexadecimal form to whole groups is writing out the digits to the base 4096 |
| `FilePaths.LeadingZero` | uintn-rs/src/lib.rs:138-152 | the zero added to make the number of digits even changes nothing |
| `FilePaths.PathRoundTrip` | uintn-rs/src/paths.rs:226-237 | the path made for an id reads back as the id, for every id and extension |
| `FilePaths.PathsDiffer` | uintn-rs/src/lib.rs:627-663 | different ids have different paths |
| `FilePaths.SamplePaths` | uintn-rs/src/lib.rs:627-663 | two paths written out, one without extension |
| `FilePaths.OrderOfPaths` | uintn-rs/src/lib.rs:627-663 | numeric order is the order of the paths, extension included: fewer components first, then lexicographic by component |

## Left out

- The cloud tier, in lookup and reader: network behaviour, with retries that make no progress.
- Follow mode and subscriptions (reads without a limit): the snapshot and the registration are separate moments.
- Directory scans for the least and greatest file id: the first and last id of each tier are given.
- The disk monitor, the server, protocol code, command line and configuration: plumbing.
- Compression, cryptography, hashing and big-integer arithmetic themselves: other libraries.
- The receiver of a read is taken to stay open, and storage and memory to stay as they are during one read.
- A step of 0 is taken to be normalised to 1 before a read starts, and the end id of a limited read is not wrapped at 64 bits.
- AckFileWriting.AckFileWriter.Close: takes the last flush to succeed; when it fails for all attempts the source drops what is buffered without an error.
- AckFileWriting.AckFileWriter.FinishFlush: a failed write is taken to leave nothing in the file.
- Durability.CanStep: in whole-system runs a flush repeats no write, so a failed sync followed by a retry is only covered by WrittenOnceExactly; a crash cuts the newest file only, with every earlier file still there; ids stay below the width a header can announce.
- WholeSystem.Can: ids stay below 2 to the power 256, so that headers fit the first 128 and 256 bytes that are read of them.
- WholeSystem.Event: ranges that recovery itself puts into the cache are range lookups right after it; the order in which reported files are converted is free.
- UintNs.Sub: wraps around in the unchecked arms as a release build does; a debug build stops there instead.
- Zero as a big integer is taken to have no bytes.
- Errors of the store tier other than a missing file are one error in the lookup.
- Extraction of Gzip and Xz store files: modelled as the source does it (Gzip goes through the Zstd decoder), but nothing is proved, since they cannot be written.
