# Verification of cloudSearch

A Dafny model of the search engine's storage, query and index code, with proofs of what it promises and, where
it does not keep a promise, of exactly when it does.

- **Log** (`Bytes`, `Wal`, `WalManager`, `Log`): the write-ahead log byte by byte, refined to a list of entries.
- **Index** (`Values`, `Mappings`, `IndexState`, `Durability`, `Flushing`, `Runs`, `Restoring`, `Recovery`,
  `Snapshots`, `Typing`, `IndexHandle`): one index as a state machine over disk and memory. A flush is a sequence of
  disk steps with a possible crash between any two. `IndexState` gives each step as a function, `IndexHandle` is the
  object whose methods compute these steps in place, the other modules prove invariants over whole runs, what
  restored snapshots are worth, and what an append that crashed on any byte leaves.
- **Hazards**: reachable states in which the code loses, resurrects or reverts documents.
- **Queries** (`Queries`, `Ranges`, `QueryParsing`, `QueryWriting`, `QueryParser`): matching of boolean queries and
  ranges, the compiler from expressions, the grammar as functions on positions, the ways of writing an expression,
  and the parser object that moves its position.
- **Registry** (`Registry`, `RegistryCalls`): the handle registry as a step relation over any number of threads and
  two locks, and what its calls return.
- **Sidecars** (`ByteReading`, `Texts`, `Positions`, `Suggest`, `SuggestBuilding`, `DocValues`): file formats, the
  lookups on them, and the aggregation over a column.
- **Text** (`Levenshtein`, `Extraction`, `Phrases`, `PositionsBuilding`) and **sorting** (`Sorting`, `Paging`).

`dafny verify dfyconfig.toml` checks the whole project.

## Assumptions

Library code is a parameter. The record codec and checksum are a `Codec`, lawful when decoding inverts
encoding. RFC 3339 parsing is a `Clock`, rounding of integers to floats a
`Reading`, UTF-8 validity a predicate, Unicode white space a mask over the bytes of a text, tokenizing and scoring
of suggestions functions; a query string's JSON values, numbers and sizes are read by `Readers`. Documents are told
apart by a hash of their ids without collisions. Segments, the manifest and snapshots are replaced in one step
(temporary file and rename). The log's CURRENT file (rust/crates/cloudsearch-storage/src/lib.rs:350-355) and
metadata.json (rust/crates/cloudsearch-index/src/lib.rs:2021-2025) are written in place: that a crash leaves their
old or new content is assumed against the code. Sequence and generation numbers are unbounded. A float is
represented by its place in the total order of floats. A sorted map is a map whose keys are listed in byte order.

## Where code and intent disagree

The model follows the code.

- The storage design documents promise tombstones and a durable checkpoint. A flush stamps its segment with the
  last sequence number while saving only searchable documents, segments are joined without tombstones, and a merge
  plan may leave the newest segment out. `Flushing.FlushIsSafeExactlyWhen` states the exact guard; `Hazards` shows
  reachable failures.
- A torn tail is tolerated in the current generation only: after the next rollover the log cannot be replayed if
  the tail was as long as a header (`Wal.TornTailThenRollover`), and the trim of a flush heals that exactly if the
  torn file holds a whole entry (`Wal.TornTailThenTrim`). Without a rollover later appends go behind the tail and
  are not read back (`Wal.AppendAfterTornTail`); once they make up for the lost bytes the index cannot be opened
  (`Recovery.WritesBehindTornTail`).
- A delete that fails part-way, or an update of the metadata file that is cut short, leaves a cached handle without
  its index (`Registry.CachedIndexExists`, `Registry.DamageIsReachable`).
- A restored snapshot is not in the manifest and sets the numbering back (`Restoring.RestoreIsDurableExactlyWhen`,
  `Restoring.OlderRestoreIsDurableExactlyWhen`, `Restoring.WritesAfterRestore`).
- The metadata file of a snapshot is the data file of the snapshot named with `.meta` behind it
  (`Snapshots.OtherIsKeptExactlyWhen`).
- A tolerance is documented as `value~auto` or `value~N` and recognised only with a second tilde behind it
  (`QueryParsing.TolerantExactlyWhen`).
- OR drops must_not parts and lets a must part override should; a second NOT replaces the first
  (`Queries.KeepsMeaningExactlyWhen`). A keyword ends an unquoted value even inside a word
  (`QueryWriting.ClauseSurvivesExactlyWhen`).
- Cursors include the score and reverse the tie-breakers under a descending sort, the sort does neither
  (`Paging.PagingIsExactExactlyWhen`).
- A keyword column is right only if every document has the string (`DocValues.KeywordsDecodeExactlyWhen`), and an
  aggregation over a column ignores which documents matched (`DocValues.ColumnCountsStoredDocuments`).
- The edit distance mixes byte and character positions (`Levenshtein.ExactExactlyWhenAscii`).
- A token that a text repeats is searched for once per repetition, and its offsets are recorded that many times
  over (`Extraction.RecordedOncePerRepetition`).
- The phrase check follows the first offset that fits and can miss a phrase (`Phrases.InnerTokenExactlyWhen`,
  `Phrases.GreedyCheckCanMiss`).

## Model

| member | source | states |
|---|---|---|
| Wal.HeaderRoundTrip | rust/crates/cloudsearch-storage/src/lib.rs:179-205 | a record header read back gives version, type, length, number, time and checksum as written |
| Wal.HeaderLayout | rust/crates/cloudsearch-storage/src/lib.rs:179-205 | where version, kind, length, number, time, checksum and payload of a record stand |
| Bytes.ByteOfNumber | rust/crates/cloudsearch-storage/src/lib.rs:179-205 | numbers are written in fixed width, the least significant byte first |
| Wal.ScanEntry | rust/crates/cloudsearch-storage/src/lib.rs:231-291 | one entry written in front of any bytes is read back whole, and reading goes on behind it |
| Wal.ScanAll | rust/crates/cloudsearch-storage/src/lib.rs:231-291 | a file of whole entries reads back as those entries, in order |
| Wal.ScanCut | rust/crates/cloudsearch-storage/src/lib.rs:231-291 | a file cut at any byte: the current generation gives exactly the whole entries and no error; an older one fails exactly when the lost tail still shows a header |
| Wal.ReplayRefinesLog | rust/crates/cloudsearch-storage/src/lib.rs:219-295 | replaying the byte files from `n` gives exactly the entries of the abstract log above `n`, in order |
| Wal.ErrorPersists | rust/crates/cloudsearch-storage/src/lib.rs:219-295 | one unreadable generation makes the whole replay fail, whatever comes after it |
| Wal.TornTailReplay | rust/crates/cloudsearch-storage/src/lib.rs:231-291 | cutting the current generation anywhere loses exactly the entries the cut touches: never an error, never a partial record |
| Wal.TornTailThenRollover | rust/crates/cloudsearch-storage/src/lib.rs:238-264 | once the log has rolled over behind a lost tail, it can be replayed if and only if that tail is shorter than a header |
| Wal.TornTailThenTrim | rust/crates/cloudsearch-storage/src/lib.rs:350-379 | and once a trim through the last number has followed, as in a flush, if and only if that tail is shorter than a header or stands behind a whole entry, which makes the trim remove its file |
| Wal.AppendAfterTornTail | rust/crates/cloudsearch-storage/src/lib.rs:179-205 | entries appended behind a cut: ordinary ones (number below 2^32, time from 1970 within 48 bits, some payload) are read back exactly when the cut is at an entry boundary; any are there, and none is behind a tail that shows its sequence number |
| Wal.AppendsBehindTornTail | rust/crates/cloudsearch-storage/src/lib.rs:231-291 | however many are appended behind a lost tail: the file reads as its whole entries alone as long as tail and new entries are shorter than the entry announced there, which is the lost one if six of its bytes are left; from then on it is an error, if the checksum finds the mixture out |
| Log.ReplayAfterRun | rust/crates/cloudsearch-storage/src/lib.rs:179-379 | after any interleaving of appends with rising numbers, rollovers and trims up to `n`, replaying from `n` gives exactly the appended entries above `n`, in order |
| Log.RemovableIsCovered | rust/crates/cloudsearch-storage/src/lib.rs:360-379 | a generation a trim may remove holds nothing above the trim's bound |
| Log.TrimRemovesExactly | rust/crates/cloudsearch-storage/src/lib.rs:360-379 | a trim through a bound removes exactly the older generations that hold entries and none above the bound |
| Log.RunTrims | rust/crates/cloudsearch-storage/src/lib.rs:360-379 | a run that ends with a trim leaves, beside the current generation, none whose entries are all covered |
| Log.RemovalKeepsReplay | rust/crates/cloudsearch-storage/src/lib.rs:360-379 | a trim, or any part of one before a crash, hides nothing above its bound and leaves the current generation alone |
| WalManagers.WalManager.Append | rust/crates/cloudsearch-storage/src/lib.rs:179-205 | on any directory the entry's bytes go behind the current file's, and what this object has written grows by the entry; a whole log stays whole |
| WalManagers.WalManager.Rollover | rust/crates/cloudsearch-storage/src/lib.rs:350-355 | on any directory the next generation becomes current and no file changes |
| WalManagers.WalManager.ListGenerations | rust/crates/cloudsearch-storage/src/lib.rs:319-343 | lists exactly the generation files, strictly ascending |
| WalManagers.WalManager.ReplayFrom | rust/crates/cloudsearch-storage/src/lib.rs:219-295 | on any directory the loops compute the replay function on its bytes, errors included |
| WalManagers.WalManager.ReplayIsExact | rust/crates/cloudsearch-storage/src/lib.rs:219-295 | on a directory this object wrote, that replay is the log's |
| WalManagers.WalManager.ScanFile | rust/crates/cloudsearch-storage/src/lib.rs:231-291 | the offset loop over one file keeps exactly the scanned entries above the bound |
| WalManagers.WalManager.ReadRecord | rust/crates/cloudsearch-storage/src/lib.rs:231-290 | the record at an offset with the position behind it, the end of the readable part, or the error, as the scan sees it |
| WalManagers.WalManager.MaxSequenceInGeneration | rust/crates/cloudsearch-storage/src/lib.rs:405-442 | the last whole record's number, or nothing for a file without one |
| WalManagers.WalManager.TrimThrough | rust/crates/cloudsearch-storage/src/lib.rs:360-379 | on any directory removes and counts exactly the older files whose last whole record is covered; a whole log stays whole and is trimmed as the log is |
| Recovery.TornLogOpens | rust/crates/cloudsearch-index/src/lib.rs:297-334 | an index whose current log file is cut anywhere opens as if the log ended with its last whole entry |
| Recovery.WritesBehindTornTail | rust/crates/cloudsearch-index/src/lib.rs:297-334 | writes to an index opened behind a lost tail are gone when it is opened again, as long as with the tail they are shorter than the announced entry; from then on it cannot be opened, if the checksum finds the mixture out |
| Recovery.CrashedAppendOpens | rust/crates/cloudsearch-index/src/lib.rs:297-334 | an append that crashes after any byte loses nothing acknowledged: the index opens with its whole history, and with the new entry exactly if that was written to its last byte |
| Mappings.ValidateAndUpdate | rust/crates/cloudsearch-index/src/lib.rs:1967-2019 | the field loop computes the validation function: the new mappings, or the first field's error |
| Mappings.TypesExactlyWhen | rust/crates/cloudsearch-index/src/lib.rs:2156-2191 | which JSON values get which field type: integers by width, floats and wider integers double, texts by whether they read as timestamps, null none, arrays refused |
| Mappings.AcceptedExactlyWhen | rust/crates/cloudsearch-index/src/lib.rs:1967-2019 | a document is accepted exactly when it is an object without arrays whose typed fields agree with the mappings, are all mapped in strict mode, and leave at most a thousand fields |
| Mappings.AcceptedConforms | rust/crates/cloudsearch-index/src/lib.rs:1967-2019 | acceptance only adds fields of the document, none in strict mode, and the document then conforms |
| Mappings.ConformingAddsNothing | rust/crates/cloudsearch-index/src/lib.rs:1967-2019 | a conforming document is accepted again and changes nothing |
| Mappings.FieldLimitHolds | rust/crates/cloudsearch-index/src/lib.rs:2003-2008 | no accepted document leaves more than a thousand fields mapped |
| Durability.GetDocumentReadsLive | rust/crates/cloudsearch-index/src/lib.rs:823-829 | `get_document` answers from the live view: pending operations over searchable documents |
| Durability.IndexedIsShown | rust/crates/cloudsearch-index/src/lib.rs:1340-1373 | an accepted document is what `get_document` answers for its id from then on, under the next number; no other answer changes |
| Durability.DeletedIsGone | rust/crates/cloudsearch-index/src/lib.rs:1481-1495 | a deleted document is not answered any more; no other answer changes |
| Durability.LastEntryDecides | rust/crates/cloudsearch-index/src/lib.rs:312-334 | what a history amounts to for an id: the source indexed last, unless deleted since |
| Durability.LastSegmentDecides | rust/crates/cloudsearch-index/src/lib.rs:294-310 | of the segments that hold an id the last one decides |
| Durability.RefreshKeepsLive | rust/crates/cloudsearch-index/src/lib.rs:1563-1583 | a refresh changes no answer and leaves nothing pending |
| Durability.RefreshPublishes | rust/crates/cloudsearch-index/src/lib.rs:1563-1583 | after a refresh a search sees exactly what `get_document` answered before it; nothing is pending and nothing else changes |
| Durability.MergeKeepsLive | rust/crates/cloudsearch-index/src/lib.rs:1744-1807 | a merge changes no answer, although it keeps the pending operations and a later refresh applies them again |
| Durability.MergePublishes | rust/crates/cloudsearch-index/src/lib.rs:1744-1807 | after a merge a search sees exactly what `get_document` answered before it; pending operations, number, manifest and disk stay |
| Durability.SnapshotRestoresLive | rust/crates/cloudsearch-index/src/lib.rs:1813-1965 | a restored snapshot shows what the index held when it was taken |
| Durability.LogHolds | rust/crates/cloudsearch-index/src/lib.rs:1340-1373 | a logged write extends the history by its entry, in memory and on disk |
| Durability.ReopenHolds | rust/crates/cloudsearch-index/src/lib.rs:294-334 | reopening a disk that holds a history gives exactly the fold of that history |
| Durability.RestartReadsDisk | rust/crates/cloudsearch-index/src/lib.rs:257-334 | a restart keeps the disk and nothing of the memory |
| Flushing.NextNumberIsFresh | rust/crates/cloudsearch-storage/src/lib.rs:103-105 | in such a manifest a new segment's number is above every referenced one, so no referenced file is overwritten |
| Flushing.FlushKeepsManifest | rust/crates/cloudsearch-index/src/lib.rs:1590-1738 | every flush, safe or not, keeps the manifest ascending and true of its files, wherever it is interrupted |
| Flushing.OverlayIsLiveExactlyWhen | rust/crates/cloudsearch-index/src/lib.rs:1590-1660 | the new segment over the old ones shows the live view exactly when nothing pending is missing from it and no deleted id is left in a segment |
| Flushing.GuardedFlushHolds | rust/crates/cloudsearch-index/src/lib.rs:1590-1738 | under the guard a completed flush, merge included, leaves the whole history on disk |
| Flushing.GuardedCrashHolds | rust/crates/cloudsearch-index/src/lib.rs:1590-1738 | under the guard so does a crash after any disk step of the flush and of its merge |
| Flushing.SafeFlushIsGuarded | rust/crates/cloudsearch-index/src/lib.rs:1590-1738 | without the guard some flush or crash loses, resurrects or reverts a document |
| Flushing.FlushIsSafeExactlyWhen | rust/crates/cloudsearch-index/src/lib.rs:1590-1738 | a flush changes no document, crashing anywhere or not, exactly when the guard holds before it |
| Flushing.PlainGuard | rust/crates/cloudsearch-index/src/lib.rs:1590-1738 | nothing pending, every id of a segment searchable and at most one small segment imply the guard |
| Flushing.PlanAfterFlush | rust/crates/cloudsearch-index/src/lib.rs:646-676 | which segments the merge behind a flush takes, from the segments before it |
| Flushing.FlushCoversLog | rust/crates/cloudsearch-index/src/lib.rs:1590-1738 | every completed flush, safe or not, leaves a new generation of the log, no entry in any, and segments that reach up to the last number |
| Runs.StepHolds | rust/crates/cloudsearch-index/src/lib.rs:1340-1965 | every operation and every permitted crash or restore extends the history on disk by exactly what it acknowledged |
| Runs.RunHolds | rust/crates/cloudsearch-index/src/lib.rs:297-334 | over every permitted run, restores included, memory and a reopened index both hold the fold of all acknowledged operations in order |
| Runs.EventsDoTheirWork | rust/crates/cloudsearch-index/src/lib.rs:1563-1807 | over a history, refresh and merge show a search all of it, a refresh drops what is pending, and a flush leaves an empty log behind segments that reach the last number |
| Runs.CrashesForgetMemory | rust/crates/cloudsearch-index/src/lib.rs:257-334 | after a restart or crash memory is what an opening reads from the disk; a restart leaves the disk alone |
| Runs.RunKeepsManifest | rust/crates/cloudsearch-index/src/lib.rs:1590-1965 | over every run, unguarded flushes, crashes anywhere and restores of any snapshot included, memory and disk have the same manifest, it ascends and describes its files, and the next number is new |
| Runs.NewestIsMerged | rust/crates/cloudsearch-index/src/lib.rs:646-676 | with at most one small segment any merge behind a flush takes in the new segment |
| Runs.FlushLeavesOneSmallExactlyWhen | rust/crates/cloudsearch-index/src/lib.rs:646-676 | however many small segments stand before, a completed flush leaves at most one, except exactly when its merge takes a large new segment alone, pending deletions shrink it below the threshold, and one small segment stands beside it |
| Runs.FlushKeepsOneSmall | rust/crates/cloudsearch-index/src/lib.rs:646-676 | so it leaves at most one whenever nothing is pending, or the guard holds |
| Runs.OrderlyRunsKeepOneSmall | rust/crates/cloudsearch-index/src/lib.rs:646-676 | so in runs whose completed flushes have nothing pending and that do not crash behind a manifest swap there is never more than one, and every merge takes the new segment in |
| Hazards.PendingIsLost | rust/crates/cloudsearch-index/src/lib.rs:1595-1640 | any pending document that no segment holds is lost by a flush that crashes behind its manifest swap |
| Hazards.UnrefreshedDocumentIsLost | rust/crates/cloudsearch-index/src/lib.rs:1595-1640 | a reachable state in which a flush loses a document that was indexed and not refreshed |
| Hazards.DeletedDocumentIsResurrected | rust/crates/cloudsearch-index/src/lib.rs:297-310 | a reachable state in which a deleted document comes back with a flush |
| Hazards.NewerDocumentIsDropped | rust/crates/cloudsearch-index/src/lib.rs:682-790 | a reachable state, two crashes before it, in which a flush drops the newer document |
| Hazards.OnlyOldIsMerged | rust/crates/cloudsearch-index/src/lib.rs:781-790 | whenever a merge leaves the new segment out, a document in no old segment is gone |
| Restoring.ReopenAfterRestore | rust/crates/cloudsearch-index/src/lib.rs:1908-1965 | what an index shows when it is opened after a restore: its segments and the log entries the restore has left, whatever the snapshot holds |
| Restoring.RestoreIsDurableExactlyWhen | rust/crates/cloudsearch-index/src/lib.rs:1908-1965 | the latest snapshot, restored, survives a reopening exactly when the segments alone held all documents |
| Restoring.LatestKeepsHistoryExactlyWhen | rust/crates/cloudsearch-index/src/lib.rs:1908-1965 | restoring the latest snapshot leaves the whole history on disk exactly when the segments reach the last number |
| Restoring.OlderRestoreIsDurableExactlyWhen | rust/crates/cloudsearch-index/src/lib.rs:1908-1965 | reopening undoes the restore of a snapshot no newer than the segments, so it survives exactly when it holds what the index held before |
| Restoring.WritesAreSkipped | rust/crates/cloudsearch-index/src/lib.rs:297-334 | of writes logged from any state, a reopening skips exactly the first ones whose numbers the segments cover |
| Restoring.WritesAfterRestore | rust/crates/cloudsearch-index/src/lib.rs:1908-1965 | after an older snapshot is restored these are the writes up to the segments' highest number: they are gone at the next opening, which applies the others to what the index held before the restore |
| Hazards.RestoredSnapshotIsNotDurable | rust/crates/cloudsearch-index/src/lib.rs:1908-1965 | a reachable state in which restoring the latest snapshot and reopening loses everything |
| Hazards.WriteAfterRestoreIsLost | rust/crates/cloudsearch-index/src/lib.rs:1908-1965 | a reachable state in which a document indexed after a restore is gone at the next opening and what the restore had removed is back |
| Typing.StepConforms | rust/crates/cloudsearch-index/src/lib.rs:1967-2019 | no event changes the type of a field or adds one in strict mode, all documents stay conforming, and a rejected document changes nothing; so does a restore of documents that conform |
| Typing.RunConforms | rust/crates/cloudsearch-index/src/lib.rs:1967-2019 | so over every run, crashes, unguarded flushes and restores of snapshots taken in it included, all live documents conform to the mappings |
| IndexHandles.IndexHandle.OpenIndex | rust/crates/cloudsearch-index/src/lib.rs:257-334 | on any directory, torn ones included, opening fails with the error of the log's replay or shows the segments with the replayed entries applied in order, the last number and the mappings; on an intact log that is what the disk holds |
| IndexHandles.IndexHandle.IndexDocument | rust/crates/cloudsearch-index/src/lib.rs:1340-1373 | on any log, torn ones included: the new disk and memory are the step's and the entry's bytes go behind the log's; a rejected document changes nothing |
| IndexHandles.IndexHandle.DeleteDocument | rust/crates/cloudsearch-index/src/lib.rs:1481-1495 | on any log: the new disk and memory are the step's, and the entry's bytes go behind the log's |
| IndexHandles.IndexHandle.LogOperation | rust/crates/cloudsearch-index/src/lib.rs:1481-1495 | on any log: the entry is written behind the log's bytes first, then memory shows the operation under the next number |
| IndexHandles.IndexHandle.ValidateAndUpdateMappings | rust/crates/cloudsearch-index/src/lib.rs:1967-2019 | on acceptance mappings in memory and on disk become the validated ones |
| IndexHandles.IndexHandle.Refresh | rust/crates/cloudsearch-index/src/lib.rs:1563-1583 | pending operations become searchable and none is left |
| IndexHandles.IndexHandle.Merge | rust/crates/cloudsearch-index/src/lib.rs:1744-1807 | the live documents become searchable, nothing else changes, and their number is returned |
| IndexHandles.IndexHandle.GetDocument | rust/crates/cloudsearch-index/src/lib.rs:823-829 | the answer of the pending operation, or the searchable document |
| IndexHandles.IndexHandle.BulkApply | rust/crates/cloudsearch-index/src/lib.rs:1501-1557 | on any log: a bulk request is the run of its operations in order, each answered from the state it finds; a rejected one does not stop the others; the log's bytes grow by exactly the acknowledged entries |
| IndexHandles.IndexHandle.ItemsCarryNumbers | rust/crates/cloudsearch-index/src/lib.rs:1501-1557 | the accepted items carry the numbers of the entries that were logged for them, in order |
| IndexHandles.IndexHandle.CreateSnapshot | rust/crates/cloudsearch-index/src/lib.rs:1813-1856 | stores the live documents, pending operations applied, and the last number under the name, or refuses the name; the index stays as it is |
| IndexHandles.IndexHandle.RestoreSnapshot | rust/crates/cloudsearch-index/src/lib.rs:1908-1965 | on any log: the new state is the restore step's with the metadata's number and the covered log files are gone; a missing, malformed or changed snapshot is refused and changes nothing |
| IndexHandles.IndexHandle.RestoresTheCreated | rust/crates/cloudsearch-index/src/lib.rs:1813-1965 | a snapshot just created under a name is accepted by a restore and shows the documents of its creation |
| Snapshots.ValidNameExactlyWhen | rust/crates/cloudsearch-storage/src/lib.rs:615-637 | a snapshot name is accepted exactly when it is one path component other than `.` and `..` |
| Snapshots.WrittenReadsBack | rust/crates/cloudsearch-storage/src/lib.rs:639-725 | a snapshot just written is read back with its metadata |
| Snapshots.OtherIsKeptExactlyWhen | rust/crates/cloudsearch-storage/src/lib.rs:639-690 | writing another snapshot leaves a readable one readable exactly when neither name is the other's with `.meta` behind it |
| Snapshots.HalfWrittenReadsExactlyWhen | rust/crates/cloudsearch-storage/src/lib.rs:651-690 | a snapshot written again and interrupted between its two files can be read exactly when the checksums agree |
| IndexHandles.IndexHandle.ApplyMergePlan | rust/crates/cloudsearch-index/src/lib.rs:682-810 | reads the plan's segments, overlays pending operations, writes one segment and swaps the manifest |
| IndexHandles.IndexHandle.Flush | rust/crates/cloudsearch-index/src/lib.rs:1590-1738 | on any log: the disk passes through exactly the flush's disk states, in order, and ends in the flush step's state; exactly the covered log files are gone |
| IndexHandles.IndexHandle.FlushWithoutMerge | rust/crates/cloudsearch-index/src/lib.rs:1590-1700 | on any log: the disk passes through rollover, segment write, manifest swap and trim, which removes exactly the covered log files |
| IndexHandles.LoadSegments | rust/crates/cloudsearch-index/src/lib.rs:294-310 | the union of the segments, the last one winning, and the highest number among them |
| IndexHandles.ReplayEntries | rust/crates/cloudsearch-index/src/lib.rs:312-334 | replayed entries are applied one after the other |
| IndexHandles.Overlay | rust/crates/cloudsearch-index/src/lib.rs:1563-1583 | pending operations applied one by one in any order give the live view |
| Queries.MatchesExactlyWhen | rust/crates/cloudsearch-index/src/lib.rs:3388-3411 | a boolean query matches exactly when each must and filter query does, no must_not query does, and, if there are should queries, as many of them as the minimum, or without a minimum at least one if there is no must and no filter query |
| Queries.MustIsConjunction | rust/crates/cloudsearch-api/src/query_string.rs:496-568 | AND compiles to an exact conjunction for every two queries that set no minimum |
| Queries.ShouldParts | rust/crates/cloudsearch-api/src/query_string.rs:571-605 | OR adds up must and should parts and drops must_not parts |
| Queries.MustNotAndParts | rust/crates/cloudsearch-api/src/query_string.rs:608-625 | NOT keeps the left side's parts and replaces its must_not part |
| Queries.CoreOfProduced | rust/crates/cloudsearch-index/src/lib.rs:3388-3411 | with a must part, should decides nothing; without one, one of should has to match |
| Queries.FaithfulKeepsMeaning | rust/crates/cloudsearch-api/src/query_string.rs:496-625 | an expression whose ORs join clauses and ORs only, and whose NOTs have no NOT to their left, matches exactly the documents it is true of |
| Queries.UnfaithfulDiffers | rust/crates/cloudsearch-api/src/query_string.rs:571-625 | every other expression whose clauses build distinct queries has a document on which query and meaning differ |
| Queries.KeepsMeaningExactlyWhen | rust/crates/cloudsearch-api/src/query_string.rs:496-625 | for expressions whose clauses build distinct queries: the query means the same, whichever of them match, exactly when the expression is faithful |
| Queries.FindsItsDocumentsExactlyWhen | rust/crates/cloudsearch-api/src/query_string.rs:496-625 | the same of documents with fields: where no field is asked for twice and each clause can both match and fail, the query finds exactly the documents the expression describes if and only if it is faithful |
| QueryParsing.ParsePrimary | rust/crates/cloudsearch-api/src/query_string.rs:134-143 | a successful primary moves on and stays within the input |
| QueryParsing.ParseAnd | rust/crates/cloudsearch-api/src/query_string.rs:74-126 | a successful AND expression moves on and stays within the input |
| QueryParsing.ParseOr | rust/crates/cloudsearch-api/src/query_string.rs:43-71 | a successful OR expression moves on and stays within the input |
| QueryParsing.OperatorStartExactlyWhen | rust/crates/cloudsearch-api/src/query_string.rs:390-397 | a bare value ends where a parenthesis or the letters AND, OR or NOT stand, whatever follows them |
| QueryParsing.BareWordIsTagClauseExactlyWhen | rust/crates/cloudsearch-api/src/query_string.rs:145-165 | a bare word and its tag clause build the same query exactly when the word does not read as JSON |
| QueryParsing.TolerantExactlyWhen | rust/crates/cloudsearch-api/src/query_string.rs:250-286 | a value gets a tolerance exactly when that stands between two tildes; behind a single tilde it is part of the word |
| QueryWriting.LayoutReadsBack | rust/crates/cloudsearch-api/src/query_string.rs:38-189 | every way of writing an expression is read back to it and compiled to its query: clauses bare, unquoted or in quotes, AND spelled or left out, OR, NOT, parentheses only where needed; AND binds closer, operators associate to the left |
| QueryWriting.WrittenReadsBack | rust/crates/cloudsearch-api/src/query_string.rs:11-16 | every expression of plain clauses can be written so |
| QueryWriting.ClauseSurvivesExactlyWhen | rust/crates/cloudsearch-api/src/query_string.rs:332-352 | a clause with an unquoted value is read back exactly when no white space, parenthesis, leading quote or keyword begins in the value, even within a word |
| QueryWriting.QuotedSurvivesExactlyWhen | rust/crates/cloudsearch-api/src/query_string.rs:355-380 | a clause with a quoted value is read back exactly when every quote in the value stands behind a backslash and no backslash stands alone |
| QueryWriting.WrittenQueryFindsItsDocuments | rust/crates/cloudsearch-api/src/query_string.rs:11-16 | a faithful expression, written out in any of these ways and parsed, finds exactly the documents it describes |
| Ranges.NumberMatchesExactlyWhen | rust/crates/cloudsearch-index/src/lib.rs:3794-3811 | a stored number is in a range exactly when every bound is a number and it is not below, above, not above and below them, as floats compare |
| Ranges.InstantMatchesExactlyWhen | rust/crates/cloudsearch-index/src/lib.rs:3812-3832 | the same for a stored timestamp and bounds that are timestamps |
| Ranges.OthersMatchNothing | rust/crates/cloudsearch-index/src/lib.rs:3659-3669 | booleans, other texts, null, arrays, objects and missing values are in no range |
| Ranges.ComparisonExactlyWhen | rust/crates/cloudsearch-api/src/query_string.rs:192-233 | `>=`, `<=`, `>` and `<` in a query string match exactly the stored numbers that compare so with the written one; a text that is no number is refused |
| Ranges.BetweenExactlyWhen | rust/crates/cloudsearch-api/src/query_string.rs:235-248 | `a..b` matches exactly the stored numbers between the two, ends included; a side that is no number is refused |
| Ranges.ComparisonIsOpen | rust/crates/cloudsearch-api/src/query_string.rs:192-233 | so the theorem on documents with fields applies to comparisons: some values match and some do not |
| QueryParsers.Parser.SkipWhitespace | rust/crates/cloudsearch-api/src/query_string.rs:379-388 | moves to the first character that is not white space |
| QueryParsers.Parser.ReadWord | rust/crates/cloudsearch-api/src/query_string.rs:318-329 | takes the longest word at the position |
| QueryParsers.Parser.ReadValue | rust/crates/cloudsearch-api/src/query_string.rs:332-352 | takes a value as the grammar does, or reports its error |
| QueryParsers.Parser.ReadQuoted | rust/crates/cloudsearch-api/src/query_string.rs:355-377 | finds the closing quote, or reports that there is none |
| QueryParsers.Parser.TryParseFieldValue | rust/crates/cloudsearch-api/src/query_string.rs:167-189 | a field and its value, or the position it started from |
| QueryParsers.Parser.ParsePrimary | rust/crates/cloudsearch-api/src/query_string.rs:134-143 | the compiled query, the end and the errors of the grammar's primary |
| QueryParsers.Parser.ParseAndExpr | rust/crates/cloudsearch-api/src/query_string.rs:74-126 | the loop builds the compiled query of the grammar's AND expression and ends where it ends |
| QueryParsers.Parser.ParseOrExpr | rust/crates/cloudsearch-api/src/query_string.rs:43-71 | the loop builds the compiled query of the grammar's OR expression and ends where it ends |
| QueryParsers.ParseQueryString | rust/crates/cloudsearch-api/src/query_string.rs:11-16 | terminates on every ASCII input with the grammar's query or error, for any classification of clauses |
| Registry.InvariantStep | rust/crates/cloudsearch-index/src/lib.rs:413-490 | every step of every thread, file operations that fail part-way included, keeps locks, files, handle table and answers consistent |
| Registry.CachedIndexExists | rust/crates/cloudsearch-index/src/lib.rs:413-444 | a cached handle's index is missing exactly while its delete has removed the files and not yet the handle, or after a delete or update of it has failed part-way and until one succeeds in deleting it; with no lifecycle writer active, exactly in the second case |
| Registry.UndamagedStay | rust/crates/cloudsearch-index/src/lib.rs:413-444 | without such failures there is no second case |
| Registry.DamageIsReachable | rust/crates/cloudsearch-index/src/lib.rs:439-444 | a state with a cached handle whose index is missing and no call inside a lock is reachable by one delete that fails part-way |
| Registry.FailedCreateTakesName | rust/crates/cloudsearch-index/src/lib.rs:107-125 | a create that fails part-way leaves a name that is taken, and no index or handle under it |
| Registry.OneHandlePerLife | rust/crates/cloudsearch-index/src/lib.rs:464-490 | successful calls return the same handle if and only if they fall into the same life of the same index |
| Registry.CreateDisplacesNothing | rust/crates/cloudsearch-index/src/lib.rs:413-426 | when create inserts its handle, the name has none, and its metadata is there unless an update has failed part-way |
| Registry.WritersAreAlone | rust/crates/cloudsearch-index/src/lib.rs:413-444 | a thread that creates or deletes is alone inside the lifecycle lock |
| Registry.NeverStuck | rust/crates/cloudsearch-index/src/lib.rs:257-258 | registry and catalog locks never block each other: some call under way can always go on |
| Registry.EveryCallEnds | rust/crates/cloudsearch-index/src/lib.rs:413-490 | under any schedule the calls under way take no more steps than their work |
| Registry.AllCallsCanEnd | rust/crates/cloudsearch-index/src/lib.rs:413-490 | from every consistent state all calls under way can be brought to an end |
| Registry.LookupOutlivesIndexExactlyWhen | rust/crates/cloudsearch-index/src/lib.rs:464-470 | the unlocked lookup answers for an index that is gone exactly while its delete has removed the files and not yet the handle, or after one has failed part-way |
| Registry.LookupCanOutliveIndex | rust/crates/cloudsearch-index/src/lib.rs:439-444 | that moment is reachable |
| RegistryCalls.CallReturnsExactly | rust/crates/cloudsearch-index/src/lib.rs:413-490 | under every schedule a call that has ended returns failure exactly if the file system failed one of its turns, already-exists exactly if the directory was there when it was to be made, not-found exactly if the index was missing when it was read or removed, and otherwise its success |
| RegistryCalls.CallGivesWhatItReturns | rust/crates/cloudsearch-index/src/lib.rs:464-490 | a call gives its thread exactly the one handle it returns, for a life of the index that had not ended when the call began, and no handle otherwise |
| RegistryCalls.HandleIsReturned | rust/crates/cloudsearch-index/src/lib.rs:464-490 | whatever other threads do, a call for an index that is there, that nobody deletes and no failure strikes, returns the cached handle |
| RegistryCalls.ReturnsWhatIs | rust/crates/cloudsearch-index/src/lib.rs:413-490 | in every run a call returns while it is so: handle cached, created index cached and there, deleted index gone from disk and table, missing index missing, existing index there |
| Levenshtein.Distance | rust/crates/cloudsearch-index/src/lib.rs:3087-3114 | the matrix loops compute the table, byte positions and unfilled cells included |
| Levenshtein.DistanceIsAttained | rust/crates/cloudsearch-index/src/lib.rs:3087-3114 | some script of single-character edits costs exactly the distance |
| Levenshtein.DistanceIsMinimal | rust/crates/cloudsearch-index/src/lib.rs:3087-3114 | no script costs less |
| Levenshtein.AsciiIsExact | rust/crates/cloudsearch-index/src/lib.rs:3087-3114 | on ASCII strings the matrix gives the distance |
| Levenshtein.ExactExactlyWhenAscii | rust/crates/cloudsearch-index/src/lib.rs:3104-3110 | a string is measured correctly against every ASCII string exactly when it is ASCII itself |
| Levenshtein.WideEndingsMeasureZero | rust/crates/cloudsearch-index/src/lib.rs:3104-3113 | if either of two non-empty strings ends in a character of several bytes, the result is zero |
| Levenshtein.ZeroExactlyWhenEqual | rust/crates/cloudsearch-index/src/lib.rs:3087-3114 | the distance is zero only between equal strings |
| Levenshtein.Symmetric | rust/crates/cloudsearch-index/src/lib.rs:3087-3114 | the distance is symmetric |
| Levenshtein.TriangleInequality | rust/crates/cloudsearch-index/src/lib.rs:3087-3114 | the distance satisfies the triangle inequality, by composing scripts |
| Levenshtein.FuzzyMatch | rust/crates/cloudsearch-index/src/lib.rs:3047-3084 | within a tolerance the computed distance decides, without one equality does; on ASCII strings that is whether an edit script within the threshold turns one into the other |
| Levenshtein.AllowedExactlyWhen | rust/crates/cloudsearch-index/src/lib.rs:3062-3082 | how many edits a query allows: the number it gives, or with auto one from three bytes on and two from six |
| Sorting.ComparatorIsTotalOrder | rust/crates/cloudsearch-index/src/lib.rs:1026-1049 | on values of one kind the sort comparator is a total order, equal only on equal ids |
| Values.FieldExactlyWhen | rust/crates/cloudsearch-index/src/lib.rs:565-565 | a field of a document has the value that stands under its name, wherever that is, and a document that is no object has none |
| Sorting.ComparesLessExactlyWhen | rust/crates/cloudsearch-index/src/lib.rs:1026-1049 | which of two hits comes first, by their JSON values: the smaller number, the earlier instant, the lexicographically smaller text, false before true, the other way round descending, any value before none; without a sort the higher score; and otherwise the smaller id |
| Sorting.IntegersExactlyWhen | rust/crates/cloudsearch-index/src/lib.rs:3671-3681 | integers compare as integers, as far as floats tell them apart |
| Sorting.MissingComesLast | rust/crates/cloudsearch-index/src/lib.rs:1031-1036 | missing values come last in both directions |
| Sorting.FirstAfter | rust/crates/cloudsearch-index/src/lib.rs:1051-1064 | a page begins at the first hit that lies behind the cursor |
| Paging.SortedIsUnique | rust/crates/cloudsearch-index/src/lib.rs:1026-1049 | two sorted arrangements of the same hits are the same |
| Paging.CursorIsLexicographic | rust/crates/cloudsearch-index/src/lib.rs:3726-3773 | a cursor compares value, score and id, each in the direction of the sort, and ids as instants where both read as timestamps |
| Paging.CursorsExactExactlyWhen | rust/crates/cloudsearch-index/src/lib.rs:1051-1064 | every cursor leads to the hit behind its own exactly when neighbouring hits follow each other |
| Paging.WalksExactExactlyWhen | rust/crates/cloudsearch-index/src/lib.rs:1068-1072 | for every page size the pages show all hits once, in order, exactly when each cursor leads to the next hit |
| Paging.PagingIsExactExactlyWhen | rust/crates/cloudsearch-index/src/lib.rs:1026-1072 | paging is exact for every page size exactly when neighbours follow each other: ascending, equal values come with scores, and equal scores with ids, that rise; descending, no missing value is next to a present one and scores and ids fall; unsorted, scores are equal and ids rise |
| Paging.PlainIdsFollowExactlyWhen | rust/crates/cloudsearch-index/src/lib.rs:1026-1072 | where ids do not read as timestamps they decide nothing: among equal values scores must not fall, or descending must fall, or unsorted must be equal |
| Paging.TimestampIdIsSkipped | rust/crates/cloudsearch-index/src/lib.rs:3744-3765 | an id that reads as a timestamp ties with one that does not, and the second hit is skipped |
| Paging.ConformingHitsAreOneKind | rust/crates/cloudsearch-index/src/lib.rs:2156-2191 | documents that conform to the same mappings have one kind of value in every field |
| Paging.SearchHitsAreOrdered | rust/crates/cloudsearch-index/src/lib.rs:1026-1049 | so in every reachable state of an index, those behind restores of its own snapshots included, its hits are totally ordered under any sort |
| Positions.InvertedIndex.Insert | rust/crates/cloudsearch-storage/src/inverted_index.rs:38-53 | appends one posting to its term's list and touches no other |
| Positions.InsertedStandsBehind | rust/crates/cloudsearch-storage/src/inverted_index.rs:38-53 | an inserted posting stands behind those its term has already, counts its positions, and leaves the other terms alone |
| Positions.PositionsWriter.AddDocument | rust/crates/cloudsearch-storage/src/positions_writer.rs:24-39 | each of the document's terms gets one posting, every other term keeps its list |
| Positions.PositionsWriter.Build | rust/crates/cloudsearch-storage/src/positions_writer.rs:44-95 | the file of the terms, or nothing where a count exceeds 32 bits |
| Positions.StorableExactlyWhen | rust/crates/cloudsearch-storage/src/positions_writer.rs:44-95 | with fewer than 2^32 terms, no list and no term length makes building panic exactly when the index is storable |
| Positions.CountsFitExactlyWhen | rust/crates/cloudsearch-storage/src/positions_writer.rs:44-95 | storable are exactly the indexes whose terms, term lengths, lists and position counts stay below 2^32 |
| Positions.FileReadsBack | rust/crates/cloudsearch-storage/src/inverted_index.rs:109-226 | for every index within the limits: the parsed file has the same terms, finds for each exactly its list, and nothing for any other |
| Positions.ListReadsBack | rust/crates/cloudsearch-storage/src/inverted_index.rs:170-226 | a posting list is read back from wherever it stands in the body |
| Positions.CopyIndex | rust/crates/cloudsearch-storage/src/positions_writer.rs:151-168 | the copy before writing keeps exactly the terms with a posting |
| Positions.CopyIsExactExactlyWhen | rust/crates/cloudsearch-storage/src/positions_writer.rs:151-168 | the copy is the index exactly when no posting list is empty |
| Positions.InsertedIsCopiedExactly | rust/crates/cloudsearch-storage/src/positions_writer.rs:151-168 | inserting never makes an empty list, so the index filled by inserting is written as it is |
| Positions.ParseFile | rust/crates/cloudsearch-storage/src/inverted_index.rs:109-161 | the cursor loop computes the parse of any bytes, errors included |
| Positions.Lookup | rust/crates/cloudsearch-storage/src/inverted_index.rs:164-168 | the list at the term's offset, or nothing |
| Positions.ReadPostingsAt | rust/crates/cloudsearch-storage/src/inverted_index.rs:170-226 | the loops read the list at an offset of any body, or nothing where it is cut short |
| Suggest.FindFirstPrefix | rust/crates/cloudsearch-storage/src/suggest_index.rs:158-182 | binary search finds the first entry that starts with the prefix, or there is none |
| Suggest.SuggestForField | rust/crates/cloudsearch-storage/src/suggest_index.rs:186-206 | the answer is exactly the entries that start with the prefix, in order; none for the empty prefix |
| Suggest.BlockIsMatching | rust/crates/cloudsearch-storage/src/suggest_index.rs:201-206 | in sorted entries the matches are one block, so the scan may stop at the first mismatch |
| Suggest.ToBytes | rust/crates/cloudsearch-storage/src/suggest_index.rs:221-246 | the file of the fields, or nothing where a count exceeds 32 bits |
| Suggest.CountsFitExactlyWhen | rust/crates/cloudsearch-storage/src/suggest_index.rs:221-246 | storable are exactly the indexes whose fields, names, entries and terms stay below 2^32 |
| Suggest.Load | rust/crates/cloudsearch-storage/src/suggest_index.rs:66-142 | the offset loops compute the load of any bytes, errors and panics included |
| Suggest.FileReadsBack | rust/crates/cloudsearch-storage/src/suggest_index.rs:66-246 | every storable index loads back as it was |
| SuggestBuilding.BuildSuggestIndex | rust/crates/cloudsearch-index/src/lib.rs:1415-1475 | the loops compute the index of the documents |
| SuggestBuilding.CollectsIds | rust/crates/cloudsearch-index/src/lib.rs:1428-1455 | what is collected for a field and a term are exactly the ids of the documents it occurs in |
| SuggestBuilding.OccursExactlyWhen | rust/crates/cloudsearch-index/src/lib.rs:1428-1455 | which terms a document has in a field: the tokens of its string, unless the field is mapped to another type than keyword |
| SuggestBuilding.TotalExactlyWhen | rust/crates/cloudsearch-index/src/lib.rs:1419-1419 | scores are shares of the number of documents, of which there is at least one |
| SuggestBuilding.EntriesAreTerms | rust/crates/cloudsearch-index/src/lib.rs:1457-1473 | a field's entries are sorted and hold exactly its terms |
| SuggestBuilding.SuggestEndToEnd | rust/crates/cloudsearch-index/src/lib.rs:1415-1475 | the index of any documents, written, loaded and asked for a prefix, answers with exactly the field's terms that start with it, in order, each with its number of distinct documents |
| DocValues.BooleansRoundTrip | rust/crates/cloudsearch-index/src/doc_values_reader.rs:109-126 | any number of booleans survives packing into bits, missing ones as false |
| DocValues.BooleansReadBack | rust/crates/cloudsearch-index/src/doc_values.rs:114-128 | through the column each document keeps the boolean it holds, or false |
| DocValues.EncodeBooleans | rust/crates/cloudsearch-index/src/doc_values.rs:114-128 | setting bits in place in a zeroed buffer packs the column |
| DocValues.DecodeBooleans | rust/crates/cloudsearch-index/src/doc_values_reader.rs:109-126 | unpacks the column, or nothing where bytes are missing |
| DocValues.NumbersRoundTrip | rust/crates/cloudsearch-index/src/doc_values_reader.rs:63-83 | any number of integers survives packing, missing ones as zero |
| DocValues.IntegersReadBack | rust/crates/cloudsearch-index/src/doc_values.rs:86-97 | through the column each document keeps the integer it holds, or zero where that is none of 64 bits |
| DocValues.EncodeIntegers | rust/crates/cloudsearch-index/src/doc_values.rs:86-97 | packs the column's integers |
| DocValues.DecodeIntegers | rust/crates/cloudsearch-index/src/doc_values_reader.rs:63-83 | unpacks the integers, or nothing where the length is wrong |
| DocValues.EncodeKeywords | rust/crates/cloudsearch-index/src/doc_values.rs:58-83 | the offset table and the pool, or nothing where the pool outgrows 32 bits |
| DocValues.OffsetsFitExactlyWhen | rust/crates/cloudsearch-index/src/doc_values.rs:58-83 | a column can be written exactly when the strings in front of the last one fill less than 2^32 bytes |
| DocValues.DecodeKeywords | rust/crates/cloudsearch-index/src/doc_values_reader.rs:31-61 | decodes any bytes: values, nothing, or a panic on a backward slice |
| DocValues.DecodesExactlyWhen | rust/crates/cloudsearch-index/src/doc_values_reader.rs:31-61 | any bytes decode to given values exactly when the offset table is whole and each pair of offsets cuts its value out of what stands behind it |
| DocValues.KeywordsDecodeExactlyWhen | rust/crates/cloudsearch-index/src/doc_values_reader.rs:50-61 | a keyword column decodes to what it means exactly when every document has the string |
| DocValues.KeywordsReadBackExactlyWhen | rust/crates/cloudsearch-index/src/doc_values_reader.rs:31-61 | the column says of each document the string it holds exactly when every document holds one |
| DocValues.KeywordsPanicExactlyWhen | rust/crates/cloudsearch-index/src/doc_values_reader.rs:50-59 | decoding panics exactly when a document without the string follows one that has it |
| DocValues.TermsAggregation | rust/crates/cloudsearch-index/src/lib.rs:3462-3520 | one bucket for each value with how often it occurs, in the column if that decodes and in the documents otherwise; no count is larger than one before it, and over documents equal counts have rising keys |
| DocValues.BucketsCountHolders | rust/crates/cloudsearch-index/src/lib.rs:3487-3520 | over documents, exactly the strings, numbers and booleans some document holds have a bucket, counting the documents that hold it |
| DocValues.AggregationPanicsExactlyWhen | rust/crates/cloudsearch-index/src/lib.rs:3467-3485 | an aggregation over a column panics exactly when a document without the string was stored behind one that has it |
| DocValues.UndecodedCountsDocuments | rust/crates/cloudsearch-index/src/lib.rs:3467-3500 | over a column that cannot be decoded it counts the matched documents |
| DocValues.ColumnCountsStoredDocuments | rust/crates/cloudsearch-index/src/lib.rs:3467-3485 | where all stored documents have the string the column counts like a scan of them, whatever the query has matched |
| DocValues.AggregationSumsUp | rust/crates/cloudsearch-index/src/lib.rs:3467-3485 | and its buckets sum up to their number |
| Extraction.Tokenize | rust/crates/cloudsearch-index/src/lib.rs:3030-3034 | the split computes the token function |
| Extraction.TokensAreStretches | rust/crates/cloudsearch-index/src/lib.rs:3030-3034 | the tokens are exactly the longest stretches without white space |
| Extraction.LoweredExactlyWhen | rust/crates/cloudsearch-index/src/lib.rs:3030-3034 | lowering turns the capital letters of ASCII into small ones and changes nothing else |
| Extraction.LeadingBitsExactlyWhen | rust/crates/cloudsearch-index/src/lib.rs:3030-3034 | the widths of UTF-8 characters by their leading bits |
| Extraction.FindAll | rust/crates/cloudsearch-index/src/lib.rs:1384-1403 | the search loop records the occurrences of a token that do not overlap, below 2^32 |
| Extraction.ScanIsComplete | rust/crates/cloudsearch-index/src/lib.rs:1384-1403 | every white-space-delimited occurrence is among them |
| Extraction.CharacterwiseIsConsistent | rust/crates/cloudsearch-index/src/lib.rs:3030-3034 | with white space decided by character in any UTF-8 text, the bytes of a token contain none wherever they stand |
| Extraction.BytewiseIsConsistent | rust/crates/cloudsearch-index/src/lib.rs:3030-3034 | with white space decided byte by byte, as in ASCII texts, the bytes of a token contain none wherever they stand |
| Extraction.OffsetsAreOccurrences | rust/crates/cloudsearch-index/src/lib.rs:1376-1411 | in one text every recorded offset is an occurrence of a token |
| Extraction.StretchesAreRecorded | rust/crates/cloudsearch-index/src/lib.rs:1384-1403 | and every delimited occurrence of a token below 2^32 is recorded |
| Extraction.RecordedOncePerRepetition | rust/crates/cloudsearch-index/src/lib.rs:1384-1402 | a token that stands n times in a text has each of its offsets recorded n times, so they ascend exactly when it stands there once |
| Extraction.ExtractPositions | rust/crates/cloudsearch-index/src/lib.rs:1376-1411 | the loops compute the document's offsets |
| Extraction.LastTextWins | rust/crates/cloudsearch-index/src/lib.rs:1404-1406 | of several texts with a term, the last one's offsets are kept |
| Extraction.ExtractedPositionsOccur | rust/crates/cloudsearch-index/src/lib.rs:1376-1411 | what a document's index says of a term is true of that last text, and complete if the text is UTF-8 |
| Phrases.TokensAreConsecutive | rust/crates/cloudsearch-index/src/lib.rs:2578-2622 | the nested loops compute the greedy check on the stored posting lists |
| Phrases.SuccessIsPhrase | rust/crates/cloudsearch-index/src/lib.rs:2578-2622 | success shows recorded offsets of all tokens in order, one or two bytes apart; 32-bit wrapping never helps |
| Phrases.ConsecutiveExactlyWhen | rust/crates/cloudsearch-index/src/lib.rs:2578-2622 | where no inner token is recorded at two neighbouring offsets that leave room for the tokens before it, the check succeeds exactly when there is such a phrase; with one or two tokens always |
| Phrases.NeighboursAreMissed | rust/crates/cloudsearch-index/src/lib.rs:2603-2610 | in a phrase of different tokens, however long, two such offsets of one inner token leave places for all others with which an existing phrase is missed |
| Phrases.InnerTokenExactlyWhen | rust/crates/cloudsearch-index/src/lib.rs:2578-2622 | so the check of different tokens is right in every document with given offsets of one inner token, the others causing no doubt, exactly when no two of these are such neighbours, away from the 32-bit limit |
| Phrases.GreedyCheckCanMiss | rust/crates/cloudsearch-index/src/lib.rs:2603-2610 | in the offsets extracted from the text `x yy  z y` the check misses the phrase x y z |
| Phrases.PhraseStandsInText | rust/crates/cloudsearch-index/src/lib.rs:2578-2622 | on the offsets of one text, the tokens stand in the lowercased text in order with gaps of one or two bytes |
| PositionsBuilding.BuildPositions | rust/crates/cloudsearch-index/src/lib.rs:763-772 | the loops over documents, terms and offsets fill the index with one posting for each extracted offset |
| PositionsBuilding.OffsetsOfOneDocument | rust/crates/cloudsearch-index/src/lib.rs:763-772 | among all postings of a term, those with a document's hash hold exactly the offsets extracted from it, if hashes tell documents apart |
| PositionsBuilding.RecordedOnDisk | rust/crates/cloudsearch-index/src/lib.rs:2578-2622 | so the parsed sidecar gives the check exactly a document's extracted offsets |
| PositionsBuilding.PhraseEndToEnd | rust/crates/cloudsearch-index/src/lib.rs:2578-2622 | a phrase found in the parsed sidecar: every token stands at its offset in the last text of the document that has it, one or two bytes behind the token before |
| PositionsBuilding.WrittenPhraseIsFound | rust/crates/cloudsearch-index/src/lib.rs:2578-2622 | a phrase written in a UTF-8 text that is its document's last with each token is found in the sidecar, if the check is unambiguous |

## Left out

- AppendAfterTornTail: for tails of 1 to 13 bytes takes entries numbered below 2^32, with times from 1970 within 48 bits and a payload.
- FindsItsDocumentsExactlyWhen: asks for distinct fields, because clauses of one field can exclude each other; which documents a term or a wildcard matches is a parameter, because it goes through scores and postings; ranges are decided in `Ranges`, the tolerance of a term in `Levenshtein`.
- LayoutReadsBack: one blank on either side of an operator and none elsewhere.
- KeepsMeaningExactlyWhen: asks for clauses that build distinct queries; with a repeated clause an unfaithful expression can keep its meaning by chance.
- InnerTokenExactlyWhen: takes different tokens; with a repeated one the places of the others are not free.
- AppendsBehindTornTail: a mixture that the checksum does not find out, which is then read as one more entry or as a record that does not parse.
- WrittenPhraseIsFound: takes hashes that tell documents apart and a file that the sidecar format can hold.
- StepHolds: a crash in the middle of an append is no event of a run; its effect is stated on the bytes (`Recovery.CrashedAppendOpens`, `Wal.TornTailThenTrim`, `Wal.AppendAfterTornTail`).
- ExactExactlyWhenAscii: says nothing about two strings that are both not ASCII, where wrong cells can cancel out.
- PagingIsExactExactlyWhen: takes values of one kind, which every reachable index has. The documents do not change between requests.
- ListGenerations: the error for a .log file whose name is not a number.
- RunHolds: permits the restore of the index's latest snapshot when its segments reach the last number, which is exactly when the history survives it (`Restoring.LatestKeepsHistoryExactlyWhen`); `Restoring` says what becomes of any other. A crash in the middle of an append is no event, see StepHolds.
- RunConforms: restores only snapshots that the index has taken itself; the mappings of another index's documents are not checked by a restore.
- BuildPositions: the positions of a merged segment, which are extracted anew; a flush takes those extracted when its documents were indexed, and leaves out documents indexed before the last flush.
- IndexHandle.Flush: sidecar files (doc values, positions, suggestions) are not part of the disk; they are written beside the segment and read as optional.
- NeverStuck: locks have no queue; any waiting thread may take a free lock.
- Input of the query-string parser is ASCII.
- Migration of the legacy snapshot file on opening.
- I/O errors within an index operation; a crash between two steps stands for them. In the registry any file operation may fail, and creating a directory, removing one or updating metadata may also fail part-way; what operations on a handle write into its directory is no step of the registry.
- Segment checksums, which are written and never compared; listing and deleting snapshots.
- Retention: evicting expired documents is a sequence of deletes, the clock that decides is outside.
- Highlighting, more-like-this, wildcard patterns, prefix and phrase-prefix scoring, statistics and date histograms.
- BM25 scores and idf; only the order of scores is used. Scores are finite.
- The double-precision column, packed like the integer one.
- HTTP routing, request parsing, metrics, background loops and shutdown.
