# Verified models of the controller's crash-safe stores and protocols

This project models the parts of the controller that have to stay right through
crashes, concurrent readers and retention, and proves what their documentation
and tests promise. `dafny verify dfyconfig.toml` checks the whole project.

- **Process log** (`LogRecord`, `LogRecordBuffer`, `LogSegment`, `LogLines`,
  `LogStore`, `ProcessLog`, `LogRecovery`, `LogTail`, `LogReaders`,
  `LogRetention`, `LogExamples`). An append-only log of records over segment files, with a
  sparse offset index, a line index for each stream, open lines, retention and
  observers. The simple model is one list of records and an `earliest` cut; the
  class that updates its fields the way the original does is proved to refine it
  through writes, finalization, retention, a crash at any byte of the last
  segment, and under observers and resumed snapshots that anything may interleave
  with. Retention over all logs is proved to be exactly turns in order, no more
  of them than the limit needs.
- **Resumable upload** (`UploadProtocol`, `UploadSession`, `UploadStore`,
  `UploadCleanup`, `UploadRuns`). One step for each durable effect, a crash
  possible between any two, and recovery as the restart step. The session class is
  proved to take only steps of the protocol; the store class keeps the reservation
  accounting, over whole runs of admission, transfers, resolution, abort, cleanup
  and restarts.
- **Query record** (`QueryRecord`, `QueryRecovery`, `QueryWriter`,
  `QueryObserve`, `QueryCrash`, `QueryExamples`). Framed records in rotated segments, a byte cap,
  observers that are kicked when they fall behind, disk replay joined to a live
  subscription under every interleaving, and recovery of a record whose
  controller died.
- **Script policy** (`ScriptPolicy`). The static analysis of tool scripts
  against an evaluator whose every choice, the order of operands included, comes
  from an oracle, and the runtime budget it makes redundant.
- **Process registry** (`Registry`). The maps, counter and order list of managed
  processes through every step and every run.
- **Algorithms**: unified patches (`Patch`, `PatchParser`), path globs (`Glob`),
  completion quoting (`Completion`) and keyset pagination (`Paging`).

Where an object is updated in place it is a class here, its fields assigned by
its methods and tied by `Valid()` to a specification on values; loops are loops
with invariants. `Options`, `Bytes` and `Crc32c` are the groundwork.

Some promises do not hold of the code as it stands. They are kept as the code
has them, shown to fail on a concrete input, and proved with the exact condition
under which they do hold:

- A reopened live log whose last segment holds only a header cannot be appended
  to: the next segment has the same name and is opened exclusively.
  `ProcessLog.Write` succeeds exactly otherwise; `HeaderOnlyLogFails`.
- Such a failed write leaves a line begun in memory, and a tail then counts that
  line of no record: it selects the wrong lines exactly when as many are asked for
  as there are and the first record is a line of its own, and its truncation flag is
  wrong exactly when one more is asked for than a trimmed log has: `TailIsRightIff`,
  with `HeaderOnlyLogFails` again.
- A log that ends with no active segment (it was reopened and never written to)
  does not enter its open lines in the indexes, so a tail cannot select them:
  `EndLog` says when, in terms of the log before it ends; `OpenLineIsForgotten`.
- The query writer accepts a frame larger than the 8 MiB a reader accepts.
  Replay ends silently there and the live frames then follow with a gap, exactly
  when such a frame is retained, something had to be replayed and something
  follows: `GapFreeIff` and `Observe`; `GapHappens`.
- Replay opens segments that lie wholly before the window asked for, so it can
  report a pruned window because such a segment went. `Replay` says exactly when
  it reports one, `NeedlessIff` and `SpuriousPrune` when that is spurious;
  `SpuriousPruneHappens`.
- A patch of a text is undone by the swapped patch exactly when every added line
  has text, and a newline unless it ends the result, and a last original line
  without a newline is removed or has nothing added after it: `TextInvertsIff`;
  `NotUndone`.
- After a pending backslash a completion reads back exactly if its text survives
  it, and an empty finished completion outside quotes closes no token:
  `CompletionReadsBackIff`, `FinishedClosesIff`; `PendingSpaceIsLost`,
  `EmptyFinishMakesNoToken`.

Code and its own comments disagree in three places, and the model follows the
code: observing a running query without `follow` still delivers live frames
(`internal/agent/service.go:436-533`); a record whose state file is unreadable
is served with an empty window although the comment calls the segments the truth
(`internal/agent/query_store.go:223-234`); and an observer that goes away keeps
its slot until the writer kicks it or finishes
(`internal/agent/query_writer.go:190-217`).

## Model

| member | source | states |
|---|---|---|
| Bytes.BigEndianRoundTrip | internal/process/log_v2.go:455-460 | a fixed-width big-endian field that the value fits in decodes to the value |
| LogRecord.ReadWindow | internal/process/log_v2.go:472-508 | a file holding an encoded record at a position reads back exactly that record and the position after it |
| LogRecord.ReadInvertsEncode | internal/process/log_v2.go:452-508 | decoding inverts encoding, with any bytes before and after |
| LogRecord.TornPrefixIsEof | internal/process/log_v2.go:472-492 | every strict prefix of an encoded record at the end of a file reads as the end of the file, never as a record or as corruption |
| LogRecordBuffer.Put | internal/process/log_v2.go:455-460 | putting an integer into a buffer in place writes its big-endian bytes at the position and leaves every other byte alone |
| LogRecordBuffer.FillFields | internal/process/log_v2.go:453-462 | filling the fixed fields in place gives magic, total length and the 32 bytes the checksum covers |
| LogRecordBuffer.EncodeRecord | internal/process/log_v2.go:452-470 | the buffer filled in place, checksum last but one, is the encoding that decoding inverts |
| LogSegment.ReadHeaderInverts | internal/process/log_v2.go:428-437 | a segment header declares the first offset it was written with |
| LogSegment.WholeIsLongest | internal/process/log_v2.go:1114-1123 | the number of whole records before a cut is the largest number of records that fit |
| LogSegment.ScanOfCut | internal/process/log_v2.go:1111-1146 | scanning a record file cut at any byte after its header finds exactly the whole records before the cut |
| LogSegment.Indexed | internal/process/log_v2.go:1129-1144 | the index entries one recovered record adds: an offset entry at every multiple of the stride, a line entry of its own stream at a line end |
| LogSegment.Rebuild | internal/process/log_v2.go:1059-1149 | rebuilding fails exactly on a wrong header or a corrupt or misnumbered record; otherwise the file is cut to its whole records and all three indexes are those of these records |
| LogSegment.Grow | internal/process/log_v2.go:327-375 | what one more record appends to the record file and to each index |
| LogSegment.OffsetIndexSound | internal/process/log_v2.go:510-515 | offset index entries are in offset order and each points at the byte where its record starts |
| LogSegment.Seek | internal/process/log_v2.go:834-869 | the binary search ends at the last entry at or before the offset, or at the first record when there is none |
| LogSegment.StartOf | internal/process/log_v2.go:834-869 | a read starts at a record boundary whose record is at or before the requested offset |
| LogSegment.ReadSegment | internal/process/log_v2.go:789-830 | reading a segment through its sparse index emits exactly the abstract records of the range that pass the stream and line filters, in order, with the truncated-line marks |
| LogSegment.EmittedSplit | internal/process/log_v2.go:777-832 | what a read emits splits at any record boundary |
| LogLines.OpenLineIsLatest | internal/process/log_v2.go:1013-1024 | the open line of a stream is the line of its latest record, which does not end it |
| LogLines.AppendKeepsLines | internal/process/log_v2.go:277-313 | a record appended with the line start the writer tracks keeps every line well formed, and the tracked state is the one recovery would rebuild |
| LogLines.SuffixOpenLine | internal/process/log_v2.go:1003-1055 | rebuilding open lines from retained records alone either forgets a line entirely or restores it exactly |
| LogStore.AddSegment | internal/process/log_v2.go:377-397 | opening the next segment keeps the segments tiling [earliest, next) |
| LogStore.DropFirst | internal/process/log_v2.go:871-890 | dropping the first segment keeps the rest tiling from the next segment on |
| LogStore.AppendToLast | internal/process/log_v2.go:327-375 | appending to the active segment keeps every segment holding exactly its records and indexes |
| LogStore.AddOpenEntries | internal/process/log_v2.go:555-570 | finalization only adds line entries, to the last segment |
| ProcessLogs.TrimmedIsSuffix | internal/process/log_v2.go:871-890 | retention drops the shortest prefix of segments that brings the log within its limit, and keeps the last segment of a live log |
| ProcessLogs.IndexByte | internal/process/log_v2.go:287-290 | the first newline of what is left to write |
| ProcessLogs.NextRecord | internal/process/log_v2.go:282-301 | the next record ends at the first newline or at the frame limit and carries the start of its line |
| ProcessLogs.ProcessLog.constructor | internal/process/log_v2.go:193-211 | a new log is empty, complete and live |
| ProcessLogs.ProcessLog.Trim | internal/process/log_v2.go:871-890 | exactly the prefix the limit asks for is dropped, nothing while observed, and earliest follows |
| ProcessLogs.ProcessLog.EnsureActive | internal/process/log_v2.go:377-397 | room for a record can be made unless the last segment of a reopened log is header-only: the next segment would have its name and is opened exclusively |
| ProcessLogs.ProcessLog.AppendRecord | internal/process/log_v2.go:327-375 | one append adds exactly one record to the log, or changes nothing, exactly when there is no room for it |
| ProcessLogs.ProcessLog.Write | internal/process/log_v2.go:262-318 | a write succeeds exactly when the log is live, unbroken and not header-only; it adds the payload split at newlines and the frame limit, byte for byte; a failed write adds nothing, breaks the log and leaves its stream’s line open or a line of no record |
| ProcessLogs.ProcessLog.CloseLines | internal/process/log_v2.go:555-577 | the open lines are entered in the last segment’s indexes exactly when a segment is active |
| ProcessLogs.ProcessLog.Finalize | internal/process/log_v2.go:549-582 | finalization is idempotent, loses no record, enters the open lines and then trims, and moves nothing while observed |
| ProcessLogs.ProcessLog.TrimOldest | internal/process/log_v2.go:910-931 | the oldest segment goes exactly when nobody observes and it is not the active one |
| ProcessLogs.ProcessLog.Expire | internal/process/log_v2.go:933-946 | expiry empties exactly a finished, unobserved log and leaves earliest equal to next |
| ProcessLogs.ProcessLog.AcquireObserver | internal/process/log_v2.go:612-620 | observers are admitted up to the limit |
| ProcessLogs.ProcessLog.ReleaseObserver | internal/process/log_v2.go:622-631 | the last release trims exactly as retention would; until then nothing moves |
| ProcessLogs.ProcessLog.LockForDeletion | internal/process/log_v2.go:633-642 | a log can be locked for removal exactly while nobody observes it |
| ProcessLogs.ProcessLog.WritePiece | internal/process/log_v2.go:276-313 | one turn of the write loop: after it the state of both lines is what recovery would rebuild, or, when the append failed, a line begun of which no record exists |
| ProcessLogs.ProcessLog.PrepareOffset | internal/process/log_v2.go:648-658 | a read may start exactly within [earliest, next] |
| ProcessLogs.ProcessLog.ReadRange | internal/process/log_v2.go:777-832 | reading a range through the segments emits exactly the selected abstract records, in order: the log refines one list of records with an earliest cut |
| LogRecovery.RebuildOfCut | internal/process/log_v2.go:1059-1149 | rebuilding one cut segment gives exactly its surviving records |
| LogRecovery.RecoverAfterCrash | internal/process/log_v2.go:961-1057 | cutting the last segment anywhere after its header and recovering loses exactly the records that do not fit whole, and leaves the segments and indexes appending the rest would have written |
| LogRecovery.FollowLines | internal/process/log_v2.go:1013-1024 | the open lines rebuilt record by record are those of the recovered records |
| LogRecovery.RebuildAll | internal/process/log_v2.go:961-1057 | the segments of a log are rebuilt in name order, failing exactly when one of them cannot be |
| LogRecovery.OpenLog | internal/process/log_v2.go:213-252 | reopening fails exactly when a segment cannot be rebuilt; complete stays set exactly when no bytes were dropped |
| LogRecovery.CrashAndReopen | internal/process/log_v2.go:213-252 | a crash at any byte after the last header and a reopen give a valid log of the longest prefix of whole records, same earliest, and complete cleared exactly when bytes were dropped |
| LogTail.LastLineEntries | internal/process/log_v2.go:735-775 | reading the line indexes backwards gives the last entries of a stream, newest first |
| LogTail.SortNewest | internal/process/log_v2.go:685-690 | candidates end up in descending order of their last offset, none lost |
| LogTail.TopOfBoth | internal/process/log_v2.go:666-690 | the first n of both streams’ last n entries and open lines, sorted, are the first n of all entries |
| LogTail.Choose | internal/process/log_v2.go:691-711 | the first n sorted lines are selected and the start covers all of them |
| LogTail.PrepareTail | internal/process/log_v2.go:660-713 | the selected lines are exactly the n with the greatest last offset over the chosen streams, and truncation is reported exactly when fewer are left of a trimmed log; a line that a failed write only began takes a place exactly when fewer than n lines end after the first record |
| LogTail.TailIsRightIff | internal/process/log_v2.go:660-713 | on a log broken by a failed write the lines are the wrong ones exactly when as many are asked for as there are and the first record is a line of its own, and the truncation flag is wrong exactly when one more is asked for than there are of a trimmed log |
| LogTail.PhantomTaken | internal/process/log_v2.go:681-711 | when the entry of a line that was only begun is among the first n |
| LogTail.TailSeesEveryLine | internal/process/log_v2.go:549-575 | every retained record belongs to a line a tail can select, exactly unless the log ended without listing a line that is open and still retained; on a broken log too |
| LogTail.EndLog | internal/process/log_v2.go:549-582 | after finalization tails can name every retained record exactly when a segment was active or no retained line was open |
| LogTail.TailReadsWholeLines | internal/process/log_v2.go:660-713 | reading the selected lines from the resolved start gives every retained record of the chosen lines and nothing else |
| LogReaders.WindowsJoin | internal/process/log_service.go:95-131 | reading two adjacent windows emits what reading both at once does |
| LogReaders.Prepare | internal/process/log_service.go:50-67 | where an observation or snapshot starts and what it shows: an offset within [earliest, next] and everything from there, or exactly the retained records of the last n lines |
| LogReaders.Other | internal/process/log_v2.go:262-646 | no write, finalize, retention, deletion or other observer moves earliest or removes the log while an observer is held |
| LogReaders.Turn | internal/process/log_v2.go:262-646 | any number of such steps: only a deletion among them removes the log, earliest never goes back, and not at all while an observer is held |
| LogReaders.Follow | internal/process/log_service.go:104-134 | under every interleaving the follow loop sends every later record of its streams once, in order; it is never overtaken, ends only when everything was sent of a finalized log, and at the latest at the second look after that |
| LogReaders.Observe | internal/process/log_service.go:18-135 | under every interleaving, also between preparing and reading the history, an observer from an accepted offset or of the last n lines gets the history asked for and then every later record, once and in order; it is refused exactly when it should be, ends with the log’s completeness no later than the second look at a finalized log, and never finds its offset expired |
| LogReaders.TakeSnapshot | internal/process/snapshot.go:43-146 | a snapshot from an offset or of the last n lines holds exactly the records asked for up to its next offset, within the byte budget, and stops early only at a record that does not fit |
| LogReaders.StallsIff | internal/process/snapshot.go:113-135 | a truncated snapshot gets nowhere exactly when the first selected record alone is over the budget, which takes a budget below the frame limit |
| LogReaders.Bounded | internal/process/snapshot.go:92-145 | the records read through the log’s filters are taken one by one while the budget lasts |
| LogReaders.SnapshotLogs | internal/process/snapshot.go:61-146 | a snapshot holds an observer only while it is taken, and is refused exactly for a bad request or at the observer limit; earliest never goes back |
| LogReaders.Round | internal/process/snapshot.go:53-146 | after whatever others do, the next snapshot continues exactly where the last ended, or says why not |
| LogReaders.SnapshotAll | internal/process/snapshot.go:53-146 | with any writes, finalization, retention or deletion between two of them, repeated snapshots give exactly the selected records once each and in order, up to where the last one ended; with a budget of at least the frame limit and observers free that is the end of the log, unless it was deleted or retention passed the first offset; and if retention dropped nothing the chunks are one full read |
| LogRetention.TrimRound | internal/process/log_service.go:247-262 | in one round every log that can spare a segment gives exactly one, in order, up to the log after which the total fits; at every earlier point it did not fit |
| LogRetention.TrimAll | internal/process/log_service.go:247-262 | the rounds end at the first point where the total fits, or when no log can spare a segment, and each log has given exactly what its turns come to |
| LogRetention.SortCandidates | internal/process/log_service.go:237-246 | logs of ended processes come first, the oldest first among each, none lost |
| LogRetention.ExpireAged | internal/process/log_service.go:221-229 | exactly the finished, unobserved logs of processes past their age give up everything; the others are untouched |
| LogRetention.EnforceLogRetention | internal/process/log_service.go:208-263 | logs past their age are emptied; then the logs take turns in order and give no segment more than the limit needs; observed logs keep everything |
| LogExamples.HeaderOnlyLogFails | internal/process/log_v2.go:377-397 | a reopened log whose last segment is header-only refuses a write, and a tail of one line then selects a line that does not exist instead of the one that does |
| LogExamples.OpenLineIsForgotten | internal/process/log_v2.go:549-577 | a log reopened with an open line and finalized: a tail of one line selects none |
| UploadProtocol.StepKeeps | internal/files/transfer_upload.go:204-537 | every step of the upload protocol, crashes and recovery included, keeps the invariant that ties record, staged file and target |
| UploadProtocol.RunsKeepInv | internal/files/transfer_store.go:349-427 | the invariant holds after every run from an empty disk |
| UploadProtocol.Publication | internal/files/transfer_upload.go:391-537 | after any run and any crash the target is the old file or the full declared content; the latter whenever the session says COMPLETE, the former whenever it says OPEN, FAILED, ABORTED or EXPIRED |
| UploadProtocol.Durability | internal/files/transfer_store.go:349-427 | an open session’s committed bytes are below the durable length, and recovery leaves the staged file holding exactly them |
| UploadProtocol.InterruptedFinalization | internal/files/transfer_upload.go:483-537 | a finalization interrupted anywhere resolves to COMPLETE or back to OPEN, never to FAILED |
| UploadProtocol.ReopenContinuesStream | internal/files/transfer_upload.go:245-276 | opening a transfer cuts the staged file to the committed bytes and continues from there |
| UploadProtocol.StepIsMonotone | internal/files/transfer_upload.go:363-389 | committed bytes are never taken back, and terminal states are final |
| UploadProtocol.ResumesRebuildTheContent | internal/files/transfer_upload.go:204-361 | however many connections, crashes and resumes, a completed upload published exactly the bytes the client meant to send |
| UploadSession.Session.Do | internal/files/transfer_upload.go:204-537 | each effect the session has on disk is a step of the protocol |
| UploadSession.Session.Checkpoint | internal/files/transfer_upload.go:363-389 | a checkpoint makes everything accepted so far durable and then committed, or, when the file cannot be synced, commits nothing |
| UploadSession.Session.TransferUpload | internal/files/transfer_upload.go:204-361 | for every stream of frames, however it ends, the reply and the bytes kept are determined: what was checkpointed when a frame is refused, unwritable or its checkpoint fails, everything when the last checkpoint succeeds, and a finalization exactly for a full upload; a session not open or overdue is left as it is |
| UploadSession.KeptStaysKept | internal/files/transfer_upload.go:276-361 | bytes once kept stay kept, only bytes the stream carried are added, and only a full upload is finalized |
| UploadSession.Session.Leave | internal/files/transfer_upload.go:239-254 | leaving a transfer keeps exactly what was checkpointed |
| UploadSession.Session.FailUpload | internal/files/transfer_upload.go:552-567 | a failed upload ends FAILED with nothing published |
| UploadSession.Session.PrepareStaged | internal/files/transfer_upload.go:408-434 | the staged file passes exactly when its size and digest are the declared ones and its mode, sync and target check succeed; otherwise the upload fails |
| UploadSession.Session.FinalizeUpload | internal/files/transfer_upload.go:391-478 | finalization completes, fails before publication, or stays FINALIZING, each exactly when its effects say so |
| UploadSession.Session.PublishStaged | internal/files/transfer_upload.go:435-478 | publication completes exactly when the directory sync (and, without overwrite, the removal of the temporary name) succeeds; otherwise the session stays FINALIZING |
| UploadSession.Session.Reconcile | internal/files/transfer_upload.go:483-537 | a finalization whose target holds the declared content becomes COMPLETE once the directory is synced, any other goes back to OPEN; the reservation is to be released exactly on COMPLETE |
| UploadStore.SizesWithout | internal/files/transfer_store.go:616-633 | removing one reservation removes exactly its size from the total |
| UploadStore.TransferStore.Create | internal/files/transfer_upload.go:22-132 | a repeated request finds its session; a new one is admitted exactly when nothing overlaps its target and both limits hold, which they still do afterwards; any refusal names its reason and changes no reservation |
| UploadStore.TransferStore.ChangeState | internal/files/transfer_upload.go:391-410 | a session that reaches a terminal state has exactly one release to come |
| UploadStore.TransferStore.ReleasePaths | internal/files/transfer_store.go:616-633 | a reservation is given back exactly once: a second release changes nothing |
| UploadStore.TransferStore.Forget | internal/files/transfer_store.go:519-531 | only terminal sessions are dropped |
| UploadStore.TransferStore.Load | internal/files/transfer_store.go:290-323 | loading an open record takes its reservation back |
| UploadStore.TransferStore.Restart | internal/files/transfer_store.go:290-323 | after a restart the reservations are those of the sessions still open, one of them perhaps of a creation the crash cut short; they are pairwise apart and within both limits |
| UploadStore.TransferStore.ReservedAreOpenSessions | internal/files/transfer_store.go:472-533 | with no release outstanding the counter is the number of open sessions |
| UploadStore.OpenSessionsApart | internal/files/transfer_store.go:642-664 | targets of open sessions are never equal or ancestors of each other |
| UploadStore.SubHeld | internal/files/transfer_store.go:290-323 | reservations that are among others are no more and no larger |
| UploadCleanup.CleanOne | internal/files/transfer_store.go:481-531 | what the periodic pass does to one session, by its state and what it finds |
| UploadCleanup.CleanupExpired | internal/files/transfer_store.go:472-533 | the whole pass gives each session its fate and ends with exactly the open sessions reserved |
| UploadCleanup.Abort | internal/files/transfer_upload.go:158-202 | aborting resolves a finalization first, keeps ended sessions as they are, and gives a reservation back exactly when it ends an open session |
| UploadRuns.EndTransfer | internal/files/transfer_upload.go:435-478 | an upload that completes or fails gives its reservation back; one left FINALIZING keeps it |
| UploadRuns.Transfer | internal/files/transfer_upload.go:204-478 | transferring a session ends or keeps its reservation exactly as its reply says |
| UploadRuns.Resolve | internal/files/transfer_upload.go:483-537 | resolving an interrupted finalization releases the reservation exactly when the upload turns out complete |
| UploadRuns.Apply | internal/files/transfer_upload.go:22-202 | any step of the store, restarts included, leaves exactly the sessions it should and keeps the store within its limits |
| UploadRuns.OnlyNewcomersOpen | internal/files/transfer_store.go:472-533 | nobody but a session a step admits comes to hold a reservation by it |
| UploadRuns.BooksAreSound | internal/files/transfer_store.go:642-664 | at any time the counters are the number and the bytes of the open sessions, within both limits, and open targets never overlap |
| UploadRuns.NeverReopens | internal/files/transfer_store.go:616-633 | over a run a session that is no longer open never is again |
| UploadRuns.ReleasedOnce | internal/files/transfer_store.go:616-633 | over a run no two steps give back the reservation of one session |
| UploadRuns.Run | internal/files/transfer_store.go:472-533 | over every run each step leaves exactly the sessions it should, after each of them both counters match the open sessions within their limits and open targets never overlap, and no session gives its reservation back twice |
| QueryRecord.ReadBack | internal/agent/query_record.go:72-111 | a whole framed record reads back exactly when its payload is within the reader’s limit, and as torn when it is over |
| QueryRecord.TornPrefix | internal/agent/query_record.go:90-111 | no strict prefix of a record at the end of a file reads as a record |
| QueryRecord.PlainCodecIsFaithful | internal/agent/query_writer.go:96-104 | a concrete way to marshal every frame of a 64-bit sequence and a body below 2^31 bytes can be undone |
| QueryRecord.RecordAt | internal/agent/query_record.go:72-111 | in a run of framed records each reads back at its own position |
| QueryRecord.ReplaySegment | internal/agent/query_record.go:165-206 | one segment delivers exactly the wanted frames up to the first one no reader accepts, and never a misnumbered one |
| QueryRecord.Replay | internal/agent/query_record.go:145-212 | replay delivers exactly the frames [from, to) up to the first unreadable retained one, and reports a pruned window exactly when the first segment begins later or a segment before the end of the window is gone that every earlier segment leads readably up to |
| QueryRecord.NeedlessIff | internal/agent/query_record.go:145-163 | a segment replay misses held nothing of the window exactly when it ends at or before it, or is empty |
| QueryRecord.SpuriousPrune | internal/agent/query_record.go:145-163 | when only such segments are missed every frame of the window reported as pruned is still on disk |
| QueryRecovery.CutLeaves | internal/agent/query_record.go:213-254 | a segment cut at any byte keeps every whole frame before the cut, up to the first unreadable one |
| QueryRecovery.ValidBytes | internal/agent/query_record.go:264-276 | the bytes kept of a file are exactly its whole readable records |
| QueryRecovery.TruncateTornTails | internal/agent/query_record.go:258-286 | every file is cut to exactly the frames it still holds |
| QueryRecovery.ScanSegment | internal/agent/query_record.go:231-252 | a segment adds all its frames when it continues the sequence and none when there is a gap |
| QueryRecovery.ScanBounds | internal/agent/query_record.go:217-254 | the window starts at the first base and is the longest run of frames from there that is still on disk |
| QueryRecovery.RecoverAndReplay | internal/agent/query_store.go:237-263 | a record found running is reopened with that window, and replaying any part of it delivers exactly those frames |
| QueryWriters.CapDropsJustEnough | internal/agent/query_writer.go:151-168 | retention drops a head prefix and no more of it than needed: the cap holds, or one segment is left, or one cannot be removed |
| QueryWriters.Rotated | internal/agent/query_writer.go:135-146 | rotation keeps the segments tiling the record |
| QueryWriters.Appended | internal/agent/query_writer.go:96-131 | a written frame extends the last segment and nothing else |
| QueryWriters.TornAppend | internal/agent/query_writer.go:113-122 | a write that fails part-way leaves bytes no reader takes for a record |
| QueryWriters.HeadDropped | internal/agent/query_writer.go:151-168 | dropping the head segment keeps the rest tiling from the next base |
| QueryWriters.PublishServes | internal/agent/query_writer.go:172-181 | publishing gives every attached observer the frame or kicks it; each has received consecutive frames from its pinned start |
| QueryWriters.FinishServes | internal/agent/query_writer.go:238-270 | observers attached at the end have received everything |
| QueryWriters.QueryWriter.constructor | internal/agent/query_writer.go:65-90 | a new record has one empty segment at sequence zero |
| QueryWriters.QueryWriter.Rotate | internal/agent/query_writer.go:135-146 | rotation opens the next segment at the next sequence, or changes nothing |
| QueryWriters.QueryWriter.WriteRecord | internal/agent/query_writer.go:113-125 | a write adds the whole record, or the writer is broken for good and the record unchanged |
| QueryWriters.QueryWriter.EnforceCap | internal/agent/query_writer.go:151-168 | exactly the segments the cap asks for are dropped, and the byte total is the sum of what is left |
| QueryWriters.QueryWriter.Publish | internal/agent/query_writer.go:172-181 | every attached observer with room gets the frame, every other is detached |
| QueryWriters.QueryWriter.Append | internal/agent/query_writer.go:96-131 | an append succeeds exactly for the next sequence of a frame that can be marshalled, on a live, working writer; then the record, the segments and every observer advance by that frame, and on any failure the record and the observers stay as they were |
| QueryWriters.QueryWriter.Attach | internal/agent/query_writer.go:194-217 | attaching is refused exactly for a pruned or unwritten start or too many observers, and otherwise pins next |
| QueryWriters.QueryWriter.Finish | internal/agent/query_writer.go:238-270 | finishing is idempotent and ends every subscription as settled |
| QueryWriters.QueryWriter.Receive | internal/agent/query_writer.go:49-56 | an observer takes its queued frames in order |
| QueryWriters.QueryWriter.DiskIsIntact | internal/agent/query_writer.go:96-168 | in every reachable state the segments tile [earliest, next) |
| QueryWriters.QueryWriter.ChannelIsWritten | internal/agent/query_writer.go:172-217 | in every reachable state an observer’s frames are what was written from its pinned start on; a kicked one has a prefix |
| QueryObserving.Other | internal/agent/query_writer.go:96-270 | nobody else takes an observer’s frames or moves its pinned start |
| QueryObserving.ReadDisk | internal/agent/query_store.go:402-410 | the frames before the pinned end are replayed up to the first unreadable one, or reported pruned, exactly when replay of the listed segments does |
| QueryObserving.Follow | internal/agent/service.go:501-532 | the follow loop delivers the live frames from the pinned end on, consecutively, and knows the sequence to continue from |
| QueryObserving.Observe | internal/agent/service.go:444-533 | for every interleaving an observer gets the disk frames [from, reached) followed by the live frames from the pinned end, or a pruned error exactly when replay of the intact segments it listed reports one; the frames are consecutive exactly when every retained frame before the pinned end is readable, or none was to be replayed, or none followed; completed means everything |
| QueryObserving.GapFreeIff | internal/agent/service.go:444-533 | disk and live frames are consecutive exactly when every retained frame before the pinned end is within the reader’s limit, or nothing had to be replayed or followed; then they are the record itself |
| QueryObserving.ReadableReachesPinned | internal/agent/query_record.go:90-104 | replay reaches the pinned end exactly when every retained frame before it is within the reader’s limit |
| QueryObserving.RunTurn | internal/agent/service.go:571-600 | the pump numbers every event; after the first failed append the record stays frozen as a gap-free beginning, and it is complete when no append fails |
| QueryCrash.ReadExtends | internal/agent/query_record.go:90-111 | a record read from part of a file is read from the whole file |
| QueryCrash.CrashLeaves | internal/agent/query_store.go:237-263 | whatever survives of each segment file of a running record, it is one recovery can work with |
| QueryCrash.CrashAndReplay | internal/agent/query_store.go:237-263 | a crash, recovery and replay deliver exactly the recovered window; if the files survive whole and all frames are readable it is the writer’s own window |
| QueryExamples.SpuriousPruneHappens | internal/agent/query_record.go:145-163 | two frames in two segments, the first of which goes: replay of the second frame reports a pruned window, although that frame is retained and readable |
| QueryExamples.GapHappens | internal/agent/service.go:444-533 | an accepted frame over 8 MiB: an observer gets nothing for it, no error, and then the next frame |
| ScriptPolicy.CatalogIsConsistent | internal/mcp/host.go:27-51 | every host function is listed under its own name with an arity the runtime can bind |
| ScriptPolicy.ScriptAnalysis.Enter | internal/mcp/script.go:104-141 | one node is refused exactly when it is not allowed at its depth and predicate nesting, and otherwise adds its own share to the counts |
| ScriptPolicy.ScriptAnalysis.CountCall | internal/mcp/script.go:116-139 | a host call is refused exactly for a wrong arity or inside a predicate, and otherwise counted with its capability, effect and mutation |
| ScriptPolicy.ScriptAnalysis.Walk | internal/mcp/script.go:104-207 | the walk fails exactly when some node is not allowed where it stands, and otherwise counts nodes, collections, call sites, mutations, names and the strongest effect of the whole tree |
| ScriptPolicy.FinalHostCall | internal/mcp/script.go:209-231 | the name called by the last expression |
| ScriptPolicy.Compile | internal/mcp/script.go:37-90 | a script is accepted exactly when it is within all limits, its only mutating call is its last expression, and it declares exactly the capabilities its call sites need |
| ScriptPolicy.EvalIsSafe | internal/mcp/script.go:104-207 | in whatever order operands are evaluated, and whatever is skipped, repeated or fails, the calls of an allowed tree are some of its sites, each at most once, with their declared arity |
| ScriptPolicy.SitesAreDistinct | internal/mcp/script.go:104-141 | no two call sites stand at the same place |
| ScriptPolicy.FinalComesLast | internal/mcp/script.go:209-231 | in every evaluation nothing is called after the final host call |
| ScriptPolicy.FinalIsASite | internal/mcp/script.go:209-231 | the final host call of a script is one of its sites |
| ScriptPolicy.OnlyFinalMutates | internal/mcp/script.go:62-67 | an accepted script mutates nowhere but at its final call |
| ScriptPolicy.SafeCounts | internal/mcp/script.go:56-58 | calls at places of their own are no more than the sites there are |
| ScriptPolicy.AcceptedScriptsAreSafe | internal/mcp/script.go:48-77 | every evaluation of an accepted script runs each site at most once, at most 16 calls, only with declared capabilities, and a mutating call only as its last |
| ScriptPolicy.Invocation.CallHost | internal/mcp/host.go:97-147 | the runtime checks of one call, in their order, and what they count |
| ScriptPolicy.Execute | internal/mcp/host.go:97-147 | running an accepted script, the capability, call-count, arity and mutation checks never fire; it stops exactly at a failed dispatch or when the results so far exceed the budget |
| Registries.NewestIsTracked | internal/process/service.go:1004-1036 | looking a name up finds a tracked process of that name whenever there is one |
| Registries.RemovalAgrees | internal/process/service.go:1004-1036 | removing a process from all maps and the order keeps them in agreement, redirecting its name and pid to the newest other holder |
| Registries.AdditionAgrees | internal/process/service.go:285-289 | adding a process keeps everything in agreement and counts it if active |
| Registries.RunningAgrees | internal/process/service.go:360-378 | recording the pid of a started process keeps everything in agreement |
| Registries.EndAgrees | internal/process/service.go:904-916 | ending a process keeps everything in agreement and frees its name |
| Registries.SomeTerminal | internal/process/service.go:986-1002 | when not every tracked process is active, one is terminal |
| Registries.Registry.constructor | internal/process/service.go:174-196 | records found on disk are tracked up to the limit, none of them active |
| Registries.Registry.FindNewest | internal/process/service.go:1010-1029 | the backward search finds the newest tracked process with the name or pid |
| Registries.Registry.Remove | internal/process/service.go:1004-1036 | removal forgets exactly one process everywhere |
| Registries.Registry.MakeHistorySpace | internal/process/service.go:986-1002 | a full history always yields its oldest terminal process: the history-limit error is unreachable |
| Registries.Registry.Start | internal/process/service.go:268-291 | a start is accepted exactly below the active limit with a free name; it evicts at most the oldest terminal process |
| Registries.Registry.CreateFailed | internal/process/service.go:301-306 | a failed creation undoes the reservation |
| Registries.Registry.StartFailed | internal/process/service.go:327-345 | a failed start ends the process as FAILED and frees its name |
| Registries.Registry.NowRunning | internal/process/service.go:356-378 | a running process is found by its pid |
| Registries.Registry.Reap | internal/process/service.go:886-916 | an exit ends the process, frees its name and its slot |
| Registries.Registry.End | internal/process/service.go:904-916 | ending a process changes its state and nothing else about it |
| Registries.Registry.Lookup | internal/process/service.go:932-961 | lookup by id, by name (the newest) and by pid, with every refused reference |
| Registries.Registry.Delete | internal/process/service.go:567-584 | only a terminal, unobserved process is deleted, and nothing else |
| Registries.Apply | internal/process/service.go:231-388 | every step keeps the registry consistent, terminal processes unchanged and active ones tracked, and never reports the history limit |
| Registries.EndedStays | internal/process/service.go:986-1036 | a process that ended stays as it is for as long as it is tracked, and keeps its name |
| Registries.ActiveIsTracked | internal/process/service.go:986-1002 | an active process is tracked until it ends, unless its own creation fails |
| Registries.Run | internal/process/service.go:126-206 | over every run from any records on disk the registry stays consistent and never reports the history limit; a process that ended stays as it is while it is tracked, and an active one stays tracked unless its own creation fails |
| Patches.JoinSplit | internal/files/patch.go:237-246 | splitting a text into lines and joining them gives the text back |
| Patches.SplitJoin | internal/files/patch.go:237-246 | joining lines and splitting again gives them back exactly when no line but the last lacks its newline and none is empty; otherwise there are fewer |
| Patches.ApplyUnifiedHunks | internal/files/patch.go:197-235 | applying hunks in one pass copies, checks and replaces lines as specified, with the same three failures |
| Patches.PatchInverts | internal/files/patch.go:197-235 | a patch that applies to some lines is undone, line for line, by the same patch with old and new exchanged |
| Patches.ResultLength | internal/files/patch.go:197-235 | the result has as many lines as the original plus the sum of new minus old counts |
| Patches.TextInvertsIff | internal/files/patch.go:197-246 | on texts the swapped patch gives the original back exactly when every added line has text and a newline unless it is the last line of the result, and the original’s last line, if it has no newline, is removed or has nothing added after it |
| Patches.ProperIffUndoable | internal/files/patch.go:197-246 | these conditions on the original and the hunks are those under which the result splits into the lines the patch put out |
| Patches.NotUndone | internal/files/patch.go:197-246 | a concrete patch that is not undone: it adds a line after one without a newline |
| PatchParser.ReadHunkLine | internal/files/patch.go:126-149 | a line inside a hunk adds an operation, trims the last one’s newline, or is refused |
| PatchParser.ParseUnifiedPatch | internal/files/patch.go:84-167 | the parser accepts or refuses a patch as specified, keeping its counts |
| PatchParser.ParsedIsWellFormed | internal/files/patch.go:84-195 | every hunk of a parsed patch has as many operations of each side as its header says, and a zero start only with a zero count |
| PatchParser.WrittenPatchParses | internal/files/patch.go:84-195 | a patch written from well-formed hunks parses back to them |
| Globs.NextRow | internal/files/search.go:245-264 | one row of the table follows from the row before it, or a comparison it needs is malformed |
| Globs.MatchDoublestar | internal/files/search.go:240-267 | the rolling-row table decides the recursive meaning, and fails exactly when a comparison it needs has a malformed part |
| Globs.MatchesHasCuts | internal/files/search.go:240-267 | a match means the components can be cut into one group per part, any number for **, one matching component for any other part |
| Globs.CutsMatch | internal/files/search.go:240-267 | and any such cut is a match |
| Completion.ParseCompletionInput | internal/cli/completion.go:730-790 | the parser’s loop computes the scan of the line: its tokens, the current one, where it starts and the open quote |
| Completion.EncodeCompletionFragment | internal/cli/completion.go:705-728 | the encoder quotes each character as the open quote asks |
| Completion.QuotedReadsBack | internal/cli/completion.go:705-790 | feeding a quoted text to the parser adds exactly that text to the current token, in all three quote modes |
| Completion.PendingReadsBack | internal/cli/completion.go:734-739 | after a pending backslash that holds exactly for leading backslashes followed by nothing or a character that needs no quoting |
| Completion.PendingLeaves | internal/cli/completion.go:734-739 | a text that survives a pending backslash leaves one pending exactly when it is nothing but backslashes |
| Completion.PendingSpoils | internal/cli/completion.go:734-739 | a text that does not survive it leaves a token that differs from the candidate for good |
| Completion.CompletionReadsBackIff | internal/cli/completion.go:681-790 | appending a quoted completion reparses to the candidate with the same quote state exactly when no backslash is pending or the text survives it |
| Completion.FinishedClosesIff | internal/cli/completion.go:681-703 | a finished completion closes as one token exactly when there is a token to finish and no backslash is pending, or when one is and the text survives it without leaving one pending |
| Completion.PendingSpaceIsLost | internal/cli/completion.go:734-739 | after a pending backslash the completion of a space does not read back |
| Completion.EmptyFinishMakesNoToken | internal/cli/completion.go:681-703 | a finished empty completion on an empty line makes no token |
| Completion.FormatCompletions | internal/cli/completion.go:681-703 | each candidate that extends the current token is offered once, quoted and closed as needed, and nothing else is |
| Paging.SortNewestFirst | internal/agent/list.go:86-88 | records end up newest first, none lost |
| Paging.ListQueries | internal/agent/list.go:43-105 | a page holds the newest wanted records after the cursor, and a token follows exactly when there are more |
| Paging.FollowTokens | internal/agent/list.go:70-104 | following tokens while records come and go lists newest first without repeats, in full pages until it finishes, and then every record present throughout appears |

## Left out

- File systems beyond byte-sequence files, atomic rename and link, durable
  prefixes and crashes: permissions, symbolic links, inode identity and locks.
- Transport, authentication, JSON, YAML and protobuf decoding; a frame received
  is an input and a frame sent an output. Marshalling a query frame with a 64-bit
  sequence and a body below 2^31 bytes is taken to be invertible and to give
  between 1 and 2^32 - 1 bytes; any other frame cannot be marshalled.
- ProcessLogs.ProcessLog.AppendRecord: does not model an error of a segment file
  and the rollback it causes; an append fails only because the next segment cannot
  be opened. Crashes cut anywhere.
- ProcessLogs.ProcessLog.Write: does not model such an error after some pieces of
  the payload were written, where the original returns their length.
- LogReaders.SnapshotLogs: nothing happens between preparing a snapshot and reading
  it; its end is pinned and its observer held, so it would read the same.
- QueryWriters.QueryWriter.Rotate: after a failed rotation another may succeed, also
  where the original has closed its file and cannot go on.
- Index files are sequences of entries; their bytes are not modelled.
- A crash that tears a segment header: reopening then fails, as
  `LogRecovery.OpenLog` states, and nothing more is claimed.
- Removing all segments of an expired log and persisting its state are one step.
- Offsets of a log stay below 2^64; wrap-around at the end is not modelled.
- The CRC-32C is the concrete polynomial, computed bit by bit; nothing is claimed
  about collisions. The upload digest is an arbitrary function.
- Persisting an upload record happens or the controller crashes; a transient
  failure that `failUpload` ignores is not modelled, nor one that keeps the record
  of a refused creation from being removed.
- UploadRuns.Run: session names are taken never to be used twice, as they are 192
  random bits, and a reservation is given back in the step that ends its session.
- UploadProtocol.Publication: speaks of one upload with no outside writer; a
  workspace process that replaces the target meanwhile is outside the model.
- Notification channels and the exact moments a follower wakes up: steps are
  interleaved in any order instead.
- QueryRecord.Replay: the files are taken as they are when they are listed, apart
  from segments removed later; frames appended meanwhile lie past the window.
- Query garbage collection across records and its byte totals, and the removal of
  a record while it is observed.
- The agent connection and child lifecycle, prompts and cancellation; the pump is
  modelled from event to record.
- The Expr parser and compiler: the syntax trees are given, and a host function
  can only be called by its name at a call node. Sorting and joining capability
  names is taken as comparing sets, as declared names are distinct catalog names.
- ScriptPolicy.Eval over-approximates: operands, branches and arguments may be
  skipped and predicates repeated at will; values are not modelled.
- ScriptPolicy.Invocation.CallHost: a cancelled context and an unencodable result
  are not distinguished from a failed dispatch.
- Child processes, signals, pipes and terminals; the registry sees only their
  start, failure and exit. Shutdown waits are left out.
- Registry records found on disk have distinct ids; reading and skipping invalid
  record directories is left out.
- PatchParser.ParseUnifiedPatch: recognising a hunk header is a parameter; the
  regular expression and number parsing are not modelled.
- Globs.MatchDoublestar: matching one component is a parameter.
- Completion works on characters; invalid UTF-8 is not modelled, nor are the
  candidates' sources.
- Page tokens are their decoded cursors; creation times are integers and query
  ids are numbers in the order of their texts.
- Configuration, argument parsing, rendering, configuration merging and the
  remaining services, which would add easy members.
