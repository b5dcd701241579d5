# A verified model of the journal, the watcher, the tool schemas and their neighbours

This project models the parts of the agent workspace whose correctness rests on an argument over many
steps, and proves those arguments. `dafny verify dfyconfig.toml` checks all of it.

**The event journal** (`Journal*.dfy`). Two append-only logs of framed records, a sequence lease, the repair
of a torn tail, and two ways of reading the same bytes. A log is a byte sequence. A crash is an append of
which any byte prefix survived. The main results are `JournalRuns.JournalIsDurable` and
`JournalNumbers.SequencesStayContiguous`, over every run of appends, checkpoints, failures at any byte, repairs and
new leases in which each append finds its logs at a line boundary and, for the latter, its lease in step with
the log; `JournalNumbers.CommittedNeverDecreases`, over every run without such a condition;
`JournalRuns.AcknowledgedExactly` (when an append is acknowledged); `JournalLines.ReadersAgree` (when the forward and
the reverse reader see the same lines);
`JournalTailLogs.TailPageOfAnyLog` (an exact description of the tail page); and `JournalEndToEnd.TailAfterAnyRun`,
which joins them: what a reader of the tail sees after a numbered run.
Runs that repair after every failed append are such runs, but the code asks for no repair, and the session
writer makes none: `JournalRetries` says exactly what is lost without it.

**The filesystem watcher** (`Watch*.dfy`). The worker that squeezes a debounce window of raw events into at
most one event per path. `WatchBuffer` holds what each recorded change does to the pending maps,
`WatchWorker` the worker class, `WatchTrees` what single raw events come to, `WatchWindow` the net effect of a
window, `WatchLosses` exactly what goes wrong when a window uses its targets again, `WatchStream` the notifier thread,
the bounded queue and the worker in every interleaving, and `WatchEndToEnd` what the worker itself sends for a window
of file operations.

**Tool schemas** (`Json.dfy`, `Doubles.dfy`, `Schema*.dfy`). `SchemaRules` says on the whole tree what is accepted;
`SchemaValidator` is the single pass that spends a mutable budget, proved to accept exactly that. `SchemaExact` and
`SchemaCounts` say the same over again in other terms: keyword by keyword, by chains of steps and by places counted.
`SchemaCleanup` is the rewriting of generated schemas, which is not structurally recursive: it rewrites a
node first and then visits the deeper union it has just built. It is proved equal to a bottom-up
specification, by a weight. `SchemaMeaning` gives schemas their meaning under JSON Schema draft-07
(Validation) and proves what the rewriting does to it.

**The index cache** (`IndexCache*.dfy`). The length-prefixed file and its reader, and the replacement through a
temporary file at every point where it can fail or the process can die.

**Smaller parts.** Fuzzy matching and ranking (`Fuzzy*.dfy`), the scanning redactors and the byte budget
(`Scrub*.dfy`), the query actor (`Query*.dfy`) and the tool gate (`Tool*.dfy`), the last two as step
systems in which any interleaving is a run.

## What is assumed

The JSON printers and parsers and the digest are parameters with stated laws: parsing undoes printing, a
printed value holds no newline, and no strict prefix of a rendered frame parses (`JournalFrame.Lawful`,
`IndexCache.Lawful`, `JournalRuns.IsFrame`). Lower-casing and the regular expressions behind `pattern` are
arbitrary functions. Clocks, faults and read errors are parameters. Maps that the source iterates in hash or
tree order are visited in any order unless the order is observable; the watcher's flush order is observable
and is the path order, with integers standing for paths by their position in it.

## Where the code does not do what one would expect

Each of these is a lemma with the exact condition, or a concrete input.

- A failed append leaves its lease usable, and `crates/coding-agent/src/session/transaction/writer.rs:23-57` goes on
  using it. An append behind a torn line is acknowledged and its first record is lost
  (`AcknowledgedReadsBackExactlyAtBoundaries`, an equivalence; `AcknowledgedRecordIsLost`), and one behind whole
  records that were never acknowledged repeats their numbers (`NumbersContinueExactlyInStep`, an
  equivalence; `NumberIsReused`), after which no lease is given out again (`NoLeaseAfterReusedNumber`).
- A healthy journal is reported as corrupt when the byte budget excludes record 1 and nothing else
  (`TailPageOfHealthyLog`, `HealthyLogReportedCorrupt`): the cursor moves before the budget is looked at.
- The two line readers disagree exactly on logs that end in a carriage return (`ReadersAgree`), and they
  bound a line differently (`SizeLimitsDiffer`).
- A window that targets a path twice can lose a removed path, call an old path created, or name the wrong
  source. `WindowLosesExactly` and `WindowMisleadsExactly` say for every window which paths and which
  events are affected, and five lemmas give short windows that are.
- Renaming a directory is reported as one event, and the files below it change their paths without any
  (`MovedDirectoryHidesItsFiles`, exactly those paths).
- Rename fragments that arrive source first pair up exactly when the source was not created in the
  same window (`FragmentsPair`).
- Rewriting a nullable type admits null where `enum` or a sibling `anyOf` had excluded it
  (`RewriteKeepsMeaning`, an equivalence).
- Numeric bounds are compared as 64-bit floats, so a range is also accepted when its bounds are out of order but
  round to the same float (`BoundsAreExactUpToRounding`, an equivalence for all numbers; `LargeBoundsCanCross`).
- The clean-up deletes properties that are named like a metadata key, such as `title`
  (`AcceptedSchemasAreClean`, an equivalence). The schema is malformed afterwards if and only if a node that stays
  requires one that goes (`AcceptedAfterCleaning`).
- `crates/code-intelligence/src/cache.rs:251-252` promises that a failed save leaves the old cache alone. That
  holds exactly when the cache file is not itself named like its temporary file (`SaveIsAtomic`).
- `crates/code-intelligence/src/identity.rs:29` says that the `Legacy` parser version forces a rebuild. The
  cache compares identities for equality only, so a `Legacy` cache is a hit for a `Legacy` reader
  (`HitsThatNeedARebuild`, an equivalence; `LegacyIsAHitAllTheSame`).
- `crates/code-intelligence/src/service.rs:311-312` ties `QueryPanicked` to a panic. A query whose envelope
  enters the channel after the final drain is reported the same way (`WhenACallIsLost`,
  `LateSendIsReportedAsPanic`).
- A progress report that was let through before its call returned can be delivered afterwards
  (`LateDeliveryExactly`, an equivalence; `AReportCanArriveLate`).

## Model

| member | source | states |
|---|---|---|
| JournalStorage.AppendFrames | crates/event-journal/src/storage.rs:216-276 | the log grows by exactly the bytes that survive the fault, and success means none was injected |
| JournalStorage.SurvivedExactly | crates/event-journal/src/storage.rs:231-271 | everything survives a failed sync, and of a failed write as many bytes as the device took |
| JournalStorage.RepairUnterminatedTail | crates/event-journal/src/storage.rs:278-358 | the new log, the kind of recovery and the discarded byte count; an error leaves the log alone |
| JournalStorage.RepairExactly | crates/event-journal/src/storage.rs:278-358 | for every log: a terminated one is left alone, an unterminated last line is completed if the validator accepts it and cut off if not, and one too long for the inspection window is reported |
| JournalStorage.JournalWriteLease.AdvanceTo | crates/event-journal/src/storage.rs:56-70 | succeeds if and only if the committed sequence does not fall behind the lease and is not the last number there is; the lease then stands right behind it, and otherwise stays; which error is which |
| JournalStorage.Journal.AcquireWriteLease | crates/event-journal/src/storage.rs:85-109 | a busy lock changes nothing; otherwise both tails are repaired in order, up to the one that cannot be, and the lease is read off the repaired records; the lock is held if and only if a lease came out |
| JournalStorage.Journal.AppendRecords | crates/event-journal/src/storage.rs:132-144 | acknowledged if and only if nothing failed in what there was to write and the committed sequence is in range; disk, lease and error in every case, bytes being written before the lease may refuse |
| JournalStorage.Journal.AppendCheckpoint | crates/event-journal/src/storage.rs:147-179 | the same of a checkpoint: outbox before records, no record byte when the outbox failed, refused without records |
| JournalRuns.RepairAfterTornAppend | crates/event-journal/src/storage.rs:278-358 | after any torn append a repair finds a boundary and leaves whole frames: those whose bodies survived, a missing newline completed |
| JournalRuns.RepairKeepsInvariant | crates/event-journal/src/storage.rs:85-130 | a repair of any reachable state succeeds, ends both logs at a line boundary and needs no second one; one that died between the logs is completed by the next |
| JournalRuns.RunKeepsInvariant | crates/event-journal/src/storage.rs:132-179 | over every run whose appends start at line boundaries, the logs are the kept frames, now or after a repair |
| JournalRuns.JournalIsDurable | crates/event-journal/src/storage.rs:85-276 | over every such run the repaired logs are the prefixes of the submitted batches in order, acknowledged batches are whole, one surviving record byte implies the whole outbox of its checkpoint |
| JournalRuns.RepairingRunsAreCareful | crates/event-journal/src/storage.rs:85-130 | runs that repair after every failed append are such runs |
| JournalRuns.LeaseMovesOnSuccessOnly | crates/event-journal/src/storage.rs:132-179 | the lease moves only when both appends are complete on disk |
| JournalRuns.AcknowledgedExactly | crates/event-journal/src/storage.rs:132-179 | in every state: when an append or checkpoint is acknowledged, and where the lease stands afterwards, as an equivalence |
| JournalNumbers.CommittedNeverDecreases | crates/event-journal/src/storage.rs:43-179 | over every run, with torn logs and stale leases, the committed sequence never decreases, from one lease to the next as well |
| JournalNumbers.CountedAppendIsAcknowledged | crates/event-journal/src/storage.rs:132-179 | after every run of a writer that counts its records, whatever failed before, its next append in which nothing fails is acknowledged, whole on both logs, and its lease stands right behind it |
| JournalNumbers.LinesAreNewlines | crates/event-journal/src/read.rs:185-221 | a log that ends where a line does reads as one line for each newline |
| JournalNumbers.RepairKeepsNewlines | crates/event-journal/src/storage.rs:278-358 | a repair never lowers the number of lines |
| JournalNumbers.SequencesStayContiguous | crates/event-journal/src/storage.rs:56-179 | surviving records are numbered 1, 2, 3, ... and the committed sequence never decreases, over every run whose appends also find the lease in step with the log |
| JournalNumbers.NumbersContinueExactlyInStep | crates/event-journal/src/storage.rs:132-144 | an acknowledged append keeps the numbers contiguous if and only if the lease was in step |
| JournalNumbers.EmptyJournalIsContiguous | crates/event-journal/src/storage.rs:79-83 | a new journal starts such a run |
| JournalNumbers.RepairingRunsAreNumbered | crates/event-journal/src/storage.rs:85-179 | numbered runs that repair after every failed append keep the lease in step and the numbers contiguous |
| JournalRetries.RunKeepsWholeLines | crates/event-journal/src/storage.rs:216-358 | no operation takes a terminated line off a log, over every run |
| JournalRetries.AcknowledgedReadsBackExactlyAtBoundaries | crates/event-journal/src/storage.rs:132-179 | in every state and every later run, an acknowledged batch can be read back where it was written if and only if its log ended at a line boundary and still reads |
| JournalRetries.RecordByteMeansWholeOutbox | crates/event-journal/src/storage.rs:147-179 | in every state and every later run, one surviving record byte of a checkpoint means its whole outbox is on the log, readable if and only if the outbox ended at a line boundary and still reads |
| JournalRetries.AcknowledgedRecordIsLost | crates/event-journal/src/storage.rs:231-253 | a run in which an append under the lease of a failed one is acknowledged and its record is lost |
| JournalRetries.NumberIsReused | crates/event-journal/src/storage.rs:263-271 | a run in which such an append repeats a sequence number |
| JournalRetries.NoLeaseAfterReusedNumber | crates/coding-agent/src/session/repository/io.rs:258-298 | after such a run the reader that gives out leases refuses the log for good |
| JournalLines.ForwardSplit | crates/event-journal/src/read.rs:185-221 | reading forwards splits at every line boundary |
| JournalLines.ForwardReadsFrames | crates/event-journal/src/read.rs:185-221 | a log of frames reads forwards as exactly its frame bodies |
| JournalLines.ReadersAgree | crates/event-journal/src/read.rs:185-311 | empty lines aside, the reverse reader yields the forward lines backwards if and only if the log does not end in a carriage return |
| JournalLines.SizeLimitsDiffer | crates/event-journal/src/read.rs:202-311 | which line lengths each reader accepts |
| JournalLines.OneCarriageReturnIsStripped | crates/event-journal/src/read.rs:185-311 | both readers take one carriage return off a terminated line, and nothing else |
| JournalReaders.ReadBoundedLine | crates/event-journal/src/read.rs:185-221 | under any buffering, the line, end or error that the unread bytes determine |
| JournalReaders.VisitLines | crates/event-journal/src/read.rs:141-157 | the visits and the end that the bytes determine |
| JournalReaders.VisitsFrames | crates/event-journal/src/read.rs:141-157 | a log of frames is visited frame by frame, numbered from one, to its end |
| JournalReaders.VisitsExactly | crates/event-journal/src/read.rs:141-157 | a visit of any file hands over its lines that are not blank, with their numbers, up to the first that is not text or that the visitor refuses, and how it ends then |
| JournalReaders.TooLongIsReported | crates/event-journal/src/read.rs:202-211 | a line that is too long ends the visit with an error |
| JournalReaders.SearchLineStart | crates/event-journal/src/read.rs:247-294 | for any chunk size, the start and bytes a plain last-newline search gives |
| JournalReaders.ReadPreviousLine | crates/event-journal/src/read.rs:223-311 | the previous line, the moved cursor, and a strictly smaller cursor for every line |
| JournalTail.ReadBackwards | crates/event-journal/src/read.rs:79-108 | the scan that the file and the budget determine, for any chunk size |
| JournalTail.ReadTail | crates/event-journal/src/read.rs:61-139 | the tail page that the file and the budget determine, for any chunk size; no page without a budget, and none whose neighbouring numbers do not grow by exactly one |
| JournalTail.EveryPageIsConsecutive | crates/event-journal/src/read.rs:79-139 | whatever a file holds, the numbers of neighbours on a page grow by exactly one, and its counts and cursor follow from its first number |
| JournalTailFiles.PageShowsLastLines | crates/event-journal/src/read.rs:79-108 | of any file, blank lines and an unterminated last line included, a page shows the last lines that are not empty, decoded and in order, and leaves one out only where the budget ends |
| JournalTailFiles.WholeFileIsShown | crates/event-journal/src/read.rs:61-139 | a file whose lines are numbered from 1 and fit the budget together is shown whole |
| JournalTailLogs.TailPageOfAnyLog | crates/event-journal/src/read.rs:61-139 | of any log of lines: a page comes back if and only if the longest suffix within the budget decodes, its numbers grow by exactly one, and number 1 stands at the start if that is reached; what the page holds, and which error the newest bad line gives |
| JournalTailLogs.GapIsCorrupt | crates/event-journal/src/read.rs:94-105 | two neighbours within reach whose numbers do not follow each other make the log corrupt |
| JournalTailLogs.TailPageOfHealthyLog | crates/event-journal/src/read.rs:61-139 | the page is exactly the longest suffix within the budget, with counts and cursor; corruption is reported if and only if the byte budget excludes record 1 alone |
| JournalTailLogs.LongestSuffixExists | crates/event-journal/src/read.rs:79-108 | there is exactly one longest suffix |
| JournalTailLogs.HealthyLogReportedCorrupt | crates/event-journal/src/read.rs:110-120 | two records, and the one byte budget at which they are reported as corrupt |
| JournalFrame.RenderedSize | crates/event-journal/src/frame.rs:30-85 | a payload within its limit frames within the record limit, with no newline inside |
| JournalFrame.DecimalReadsBack | crates/event-journal/src/frame.rs:52-70 | the payload length is written in full, without a leading zero |
| JournalFrame.EncodeThenDecode | crates/event-journal/src/frame.rs:30-152 | encoding succeeds if and only if the payload limit holds, ends in the only newline, and decodes to the record; which error is which |
| JournalFrame.DecodedOnlyIfIntact | crates/event-journal/src/frame.rs:101-152 | a line decodes if and only if its schema, version, length and checksum are right and its payload parses; which error every other line gives |
| JournalFrame.TamperingIsDetected | crates/event-journal/src/frame.rs:123-144 | another payload beside the metadata of an encoded record is corrupt unless it has the same digest, and so is its payload beside another length or checksum |
| JournalFrame.EncodedIsFrame | crates/event-journal/src/frame.rs:30-85 | encoded records meet the hypothesis of the durability theorem |
| JournalEndToEnd.TailAfterAnyRun | crates/event-journal/src/read.rs:61-139 | after any such numbered run the tail page shows the longest affordable suffix of the surviving records |
| JournalEndToEnd.TailAfterRepairingRun | crates/event-journal/src/read.rs:61-139 | in particular after any numbered run that repairs after every failed append |
| JournalEndToEnd.ReusedNumberIsNeverShown | crates/event-journal/src/read.rs:94-105 | the log that a reused number leaves behind is corrupt to every reader that could show both records |
| WatchBuffer.RenameStaysConsistent | crates/change-tracker/src/watch.rs:568-617 | a rename, within a root or across two, keeps sources for exactly the renamed paths and directory flags for pending paths only |
| WatchBuffer.MergedIs | crates/change-tracker/src/watch.rs:797-809 | what any row of reports about one path comes to: a rename stays, otherwise the last report that is not a modification decides |
| WatchBuffer.MoveTakesFlag | crates/change-tracker/src/watch.rs:568-617 | which directory flag a moved path takes along |
| WatchBuffer.FlushIsExact | crates/change-tracker/src/watch.rs:633-663 | one event per pending path, in path order, numbered without a gap, with a source exactly for renames and the directory flag last known |
| WatchBuffer.ChainCollapses | crates/change-tracker/src/watch.rs:568-617 | a rename chain of any length becomes one change at its last name |
| WatchBuffer.ChainFlushesAsOneRename | crates/change-tracker/src/watch.rs:568-663 | alone in its window it is sent as one rename from its first name |
| WatchBuffer.FragmentsPair | crates/change-tracker/src/watch.rs:479-518 | destination first always equals the two-path rename; source first if and only if the source was not new |
| WatchWindow.NetEffectIsPreserved | crates/change-tracker/src/watch.rs:568-631 | with fresh targets every changed path is reported, and the kind and source of every report are what became of its path: modified, removed, created, or renamed from its name at the start |
| WatchWindow.WindowReportsNetEffect | crates/change-tracker/src/watch.rs:568-663 | the same of the events a flush sends |
| WatchWindow.ReportedExactly | crates/change-tracker/src/watch.rs:568-631 | in every window: the paths reported are exactly those where something happened that was not moved elsewhere since, with exactly the last directory flag known there |
| WatchLosses.OperationUpdatesUnreported | crates/change-tracker/src/watch.rs:568-631 | in every window, one operation adds to the unreported paths exactly what it drops, and settles what it touches |
| WatchLosses.RenameLosesExactly | crates/change-tracker/src/watch.rs:588-616 | in a window that reported everything so far, one operation loses a path if and only if it drops one |
| WatchLosses.WindowLosesExactly | crates/change-tracker/src/watch.rs:568-631 | a whole window leaves a path unreported if and only if a rename drops it and nothing later touches it |
| WatchLosses.CarryingUpdatesUnreported | crates/change-tracker/src/watch.rs:588-616 | which of the paths below a moved directory go unreported, in any window |
| WatchLosses.MovedDirectoryHidesItsFiles | crates/change-tracker/src/watch.rs:588-616 | renaming a directory leaves unreported exactly the old and new paths of the files below it |
| WatchLosses.OperationUpdatesUntrue | crates/change-tracker/src/watch.rs:568-617 | in every window, which event each operation makes untrue, carries along or puts right |
| WatchLosses.OperationKeepsTruthExactly | crates/change-tracker/src/watch.rs:588-616 | when one operation keeps a truthful window truthful, as an equivalence |
| WatchLosses.WindowMisleadsExactly | crates/change-tracker/src/watch.rs:568-617 | a whole window is truthful if and only if no operation leaves an untrue event behind |
| WatchLosses.ReplacedFileIsLost | crates/change-tracker/src/watch.rs:603-608 | remove, create, rename away loses the removal |
| WatchLosses.OverwrittenSourceIsLost | crates/change-tracker/src/watch.rs:602-616 | renaming onto a renamed and removed path loses the first source |
| WatchLosses.PassedThroughPathIsLost | crates/change-tracker/src/watch.rs:588-616 | passing another file through a removed path loses the removal |
| WatchLosses.RecreatedFileIsCalledNew | crates/change-tracker/src/watch.rs:797-809 | a file removed and created anew is reported as created, although its path existed |
| WatchLosses.NewFileIsCalledRenamed | crates/change-tracker/src/watch.rs:797-809 | a new file at a renamed and removed path is reported as the rename |
| WatchWorker.Worker.MergePending | crates/change-tracker/src/watch.rs:797-809 | the merged kind, other paths untouched |
| WatchWorker.Worker.RecordPendingChange | crates/change-tracker/src/watch.rs:619-631 | the pending maps after one recorded change |
| WatchWorker.Worker.RecordRename | crates/change-tracker/src/watch.rs:568-617 | the pending maps after one rename |
| WatchWorker.Worker.HandleNewPath | crates/change-tracker/src/watch.rs:479-498 | pairs with a waiting source fragment, or records a creation |
| WatchWorker.Worker.HandleOldPath | crates/change-tracker/src/watch.rs:500-518 | pairs with a waiting destination fragment, or records a removal |
| WatchWorker.Worker.RecordCreatedTree | crates/change-tracker/src/watch.rs:454-474 | every entry of a new directory is recorded, every unreadable one counted lost (what that comes to: `TreeIsRecorded`) |
| WatchWorker.Worker.HandleEvent | crates/change-tracker/src/watch.rs:393-447 | the whole effect of one raw event |
| WatchWorker.Worker.SendChanges | crates/change-tracker/src/watch.rs:638-658 | the pending changes as events in path order |
| WatchWorker.Worker.Flush | crates/change-tracker/src/watch.rs:633-663 | gap first, then the pending changes in path order, and nothing left behind |
| WatchWorker.BufferedWorkIsDue | crates/change-tracker/src/watch.rs:294-333 | after every turn buffered work has a deadline one debounce away, later events do not postpone it, a passed deadline or a timeout sends everything, and only cancellation, shutdown or a lost channel ends the worker |
| WatchTrees.TreeIsRecorded | crates/change-tracker/src/watch.rs:454-474 | walking a created directory makes exactly the paths found pending, as created unless known as renamed, with their last flags, and loses exactly its unreadable entries |
| WatchTrees.CreatedTreeIsTold | crates/change-tracker/src/watch.rs:430-474 | after a created directory is handled every path found below it is pending, as created if it was not before, and the next flush says so |
| WatchTrees.EventLosesAndSends | crates/change-tracker/src/watch.rs:393-447 | every raw event: what it loses, exactly, and the git facts it sends at once, in order |
| WatchTrees.TrackedLikeFragments | crates/change-tracker/src/watch.rs:427-441 | creations and removals with a tracker pair up like the fragments of a rename |
| WatchStream.EveryScheduleIsAccounted | crates/change-tracker/src/watch.rs:633-779 | in every interleaving each result is queued once or counted lost once, gaps plus counter equal the losses, events are numbered 1, 2, 3, ..., and the queue holds what was accepted and not yet handled, in order |
| WatchStream.HandledInOrder | crates/change-tracker/src/watch.rs:754-779 | results are queued while there is room, and handled in the order of their delivery |
| WatchStream.StartIsAccounted | crates/change-tracker/src/watch.rs:105-132 | a new watcher starts such an account |
| WatchEndToEnd.EventIsRecorded | crates/change-tracker/src/watch.rs:393-447 | the worker's handling of a raw event is the recording the window theorems speak of |
| WatchEndToEnd.RenameAcrossIsRemoveAndCreate | crates/change-tracker/src/watch.rs:520-566 | a two-path rename is a move within one root, and everywhere else a removal and then a creation |
| WatchEndToEnd.DeliveryIsRecorded | crates/change-tracker/src/watch.rs:479-566 | a rename is recorded alike whether it comes whole or in fragments that can pair |
| WatchEndToEnd.WorkerReportsNetEffect | crates/change-tracker/src/watch.rs:294-663 | a window taken by the worker, each rename whole or in fragments, directories with the trees found below them, and creations more than once, then flushed: one block of events that counts the unreadable entries and tells exactly what became of every path |
| SchemaValidator.ValidateToolSchema | crates/tool-contract/src/schema.rs:37-46 | accepts if and only if the size, the shape, the depth and both whole-tree counts are within bounds |
| SchemaExact.WellFormedByKeyword | crates/tool-contract/src/schema.rs:98-413 | a schema is well formed if and only if each node carries the keywords of its type and no others, with values that fit, limits included, and bounds that some size or, up to rounding, some number meets |
| SchemaExact.DepthIsTheLongestChain | crates/tool-contract/src/schema.rs:104-107 | the depth limit holds if and only if no chain of steps down is longer |
| SchemaCounts.PathsAreCounted | crates/tool-contract/src/schema.rs:108-115 | the budget counts each place of the tree once as a node, and once as a property if and only if it is a declared property |
| SchemaValidator.ValidateNode | crates/tool-contract/src/schema.rs:98-196 | accepts if and only if the subtree is well formed, fits the depth and is affordable; then spends exactly its counts |
| SchemaValidator.ValidateProperties | crates/tool-contract/src/schema.rs:235-241 | the same of all declared properties, in any order of visiting |
| SchemaValidator.ValidateObjectKeywords | crates/tool-contract/src/schema.rs:198-269 | the object keywords and the subtrees below them |
| SchemaValidator.ValidateRequired | crates/tool-contract/src/schema.rs:243-261 | every entry names a declared property, and none twice |
| SchemaValidator.ValidateArrayKeywords | crates/tool-contract/src/schema.rs:271-294 | the array keywords, sizes in order, and the element schema (`ShapeIsByKeyword` says which values those are) |
| SchemaValidator.ValidateScalarKeywords | crates/tool-contract/src/schema.rs:296-350 | enumerations, bounds, sizes and patterns (`ShapeIsByKeyword` says which values those are) |
| SchemaValidator.ValidateEnum | crates/tool-contract/src/schema.rs:300-319 | all listed values match the type and differ |
| SchemaExact.ShapeIsByKeyword | crates/tool-contract/src/schema.rs:196-413 | a node passes all keyword checks if and only if it fits, keyword by keyword |
| SchemaExact.SizesAreExact | crates/tool-contract/src/schema.rs:390-413 | two size bounds are accepted together if and only if both are unsigned and the first is at most the second, equivalently some size lies between |
| SchemaExact.BoundsDecide | crates/tool-contract/src/schema.rs:271-350 | on a string or array schema, a least size a and a greatest size b are accepted if and only if a is at most b |
| SchemaExact.LiteralsMatchExactly | crates/tool-contract/src/schema.rs:352-362 | which literals may be listed for a type |
| SchemaRules.BoundsAreExactUpToRounding | crates/tool-contract/src/schema.rs:364-388 | any two numeric bounds, integers of any size and sign or floats, are accepted if and only if they are in order or are the same 64-bit float |
| SchemaRules.OrderAloneDecides | crates/tool-contract/src/schema.rs:364-388 | order alone decides between integers below 2^53 and floats, and beside a float that is not whole |
| SchemaRules.LargeBoundsCanCross | crates/tool-contract/src/schema.rs:379-388 | the first pairs of bounds, two integers and an integer beside a float, that are accepted out of order |
| Doubles.RoundingKeepsNumberOrder | crates/tool-contract/src/schema.rs:379-388 | rounding to a 64-bit float never reverses two numbers |
| Doubles.RoundedIsNearest | crates/tool-contract/src/schema.rs:379-388 | rounding yields the nearest number of 53 significant bits, the even one on a tie |
| SchemaCleanup.NormalizeNullableType | crates/tool-contract/src/schema.rs:68-96 | rewrites exactly the two-element lists of null and one other type |
| SchemaCleanup.RemoveGenerationMetadata | crates/tool-contract/src/schema.rs:48-66 | terminates, and yields the bottom-up clean-up |
| SchemaCleanup.RewritingWeighsNoMore | crates/tool-contract/src/schema.rs:68-96 | the level a rewriting adds is paid for by the type list it removes |
| SchemaCleanup.RewriteCommutes | crates/tool-contract/src/schema.rs:50-58 | rewriting before or after cleaning what is inside makes no difference |
| SchemaCleanup.CleaningTwiceChangesNothing | crates/tool-contract/src/schema.rs:48-96 | the clean-up is idempotent on every value |
| SchemaExact.CleansExactly | crates/tool-contract/src/schema.rs:48-96 | the clean-up leaves no metadata key and no nullable type list anywhere, and a value is left alone if and only if it holds neither |
| SchemaExact.RewrittenNode | crates/tool-contract/src/schema.rs:68-96 | what a rewritten node looks like, keyword by keyword |
| SchemaCleanup.AcceptedSchemasAreClean | crates/tool-contract/src/schema.rs:37-66 | an accepted schema is unchanged by the clean-up if and only if no property is named like a metadata key |
| SchemaCleanup.AcceptedAfterCleaning | crates/tool-contract/src/schema.rs:32-66 | an accepted schema is still well formed after the clean-up if and only if no node that stays requires a property that goes |
| SchemaCleanup.RequirementsBelowDoNotCount | crates/tool-contract/src/schema.rs:48-66 | whatever is required below a deleted property, the object that declared it stays well formed |
| SchemaMeaning.RewriteKeepsMeaning | crates/tool-contract/src/schema.rs:68-96 | the rewriting of a node accepts the same instances if and only if its other keywords let null through |
| SchemaMeaning.CleaningKeepsMeaning | crates/tool-contract/src/schema.rs:48-96 | the whole clean-up of a generated schema accepts the same instances |
| SchemaEndToEnd.SchemaFor | crates/tool-contract/src/schema.rs:24-46 | what comes out is acceptable and accepts the instances of what was generated; nothing else is refused |
| IndexCache.LittleEndianTruncates | crates/code-intelligence/src/cache.rs:284-286 | a length is read back modulo the width of its field |
| IndexCache.LittleEndianAt | crates/code-intelligence/src/cache.rs:284-289 | which byte of a length stands where |
| IndexCache.ImageParts | crates/code-intelligence/src/cache.rs:282-289 | where the parts of a saved file stand |
| IndexCache.ReaderIsExact | crates/code-intelligence/src/cache.rs:172-245 | the reader accepts exactly the images of what it returns, trailing bytes ignored |
| IndexCache.SavedIsReadBack | crates/code-intelligence/src/cache.rs:158-312 | a saved entry is read back as it was, its build time set to zero if it was negative |
| IndexCache.HitsThatNeedARebuild | crates/code-intelligence/src/identity.rs:29-44 | a hit needs a rebuild under every version, by the version's own rule, if and only if its reader is of the legacy parser |
| IndexCache.LegacyIsAHitAllTheSame | crates/code-intelligence/src/identity.rs:29-44 | a saved legacy cache is such a hit |
| IndexCache.StrictPrefixIsRefused | crates/code-intelligence/src/cache.rs:172-235 | no torn file is taken for a cache, by any reader |
| IndexCache.OtherIdentityIsRefused | crates/code-intelligence/src/cache.rs:206-211 | a file is a hit for one identity at most, and other readers are told whose it is |
| IndexCache.HeaderDecides | crates/code-intelligence/src/cache.rs:172-211 | the start of a file decides first, whatever follows it: which error, or that the payload decides |
| IndexCache.PayloadDecides | crates/code-intelligence/src/cache.rs:213-249 | behind the right identity the payload decides: which error, or a hit |
| IndexCache.TooShortOrForeign | crates/code-intelligence/src/cache.rs:173-184 | a short file or one without the magic is corrupt |
| IndexCacheStore.TempCollides | crates/code-intelligence/src/cache.rs:291 | which file names coincide with their temporary file |
| IndexCacheStore.SaveIsAtomic | crates/code-intelligence/src/cache.rs:291-303 | at every failure and crash point the path holds the old or the new bytes, if and only if the temporary file is another file |
| IndexCacheStore.SaveLeavesOthersAlone | crates/code-intelligence/src/cache.rs:291-303 | a save touches no other file, and leaves no temporary file when it finishes or can clean up |
| IndexCacheStore.Cache.Load | crates/code-intelligence/src/cache.rs:158-249 | the outcome for the files on disk; errors keep what was loaded before |
| IndexCacheStore.Cache.Save | crates/code-intelligence/src/cache.rs:254-306 | the files, the memory and the result for every way a save can end, and when it succeeds, as an equivalence |
| IndexCacheStore.WriteAndRename | crates/code-intelligence/src/cache.rs:291-299 | the files when the replacement stops at any of its operations |
| IndexCacheStore.LoadSeesTheLastFinishedSave | crates/code-intelligence/src/cache.rs:158-306 | after any run of failing and dying saves by any identities, a load sees the last one that finished |
| Fuzzy.ScanText | crates/tui/src/fuzzy.rs:82-118 | the loop's index and score are those of the leftmost placement |
| Fuzzy.GreedyIsComplete | crates/tui/src/fuzzy.rs:89-125 | the leftmost scan succeeds if and only if the query is a subsequence, and yields its earliest embedding |
| Fuzzy.ScoreIsOfTheEarliest | crates/tui/src/fuzzy.rs:84-129 | the score is that of the one earliest embedding, however it is found |
| FuzzyScores.ScoreIsTheTotal | crates/tui/src/fuzzy.rs:82-118 | a placement costs its positions and the characters skipped inside it, and earns for every word it begins and every pair of characters in one run |
| Fuzzy.MatchQuery | crates/tui/src/fuzzy.rs:68-135 | matches if and only if the query is a subsequence, with the score of the earliest embedding |
| Fuzzy.SwapIsExact | crates/tui/src/fuzzy.rs:141-175 | exactly the queries of one letter block and one digit block are swapped |
| Fuzzy.SwapTwice | crates/tui/src/fuzzy.rs:141-175 | swapping is an involution |
| Fuzzy.MatchToken | crates/tui/src/fuzzy.rs:7-29 | as written, or swapped at a cost |
| FuzzyScores.TokenScoreIsTheTotal | crates/tui/src/fuzzy.rs:7-29 | the score of a token in closed form, with the bonus for the whole text and the cost of swapping, which is tried only when the token is not found as written |
| Fuzzy.SwappedTokensMatchAlike | crates/tui/src/fuzzy.rs:7-29 | a token and its swapped form match the same texts |
| FuzzyWords.Words | crates/tui/src/fuzzy.rs:36 | non-empty words without whitespace, none if and only if the query is blank |
| FuzzyWords.WordsAreTheStretches | crates/tui/src/fuzzy.rs:36 | the tokens are exactly the maximal stretches without whitespace, in order and as often as they occur |
| FuzzyWords.WordsAreUnique | crates/tui/src/fuzzy.rs:36 | there is only one such list |
| Fuzzy.MatchAll | crates/tui/src/fuzzy.rs:44-54 | all tokens match, with the sum of their scores |
| FuzzyScores.TotalsAddUp | crates/tui/src/fuzzy.rs:44-54 | the scores of all tokens are added up |
| Fuzzy.FuzzyFilterIndices | crates/tui/src/fuzzy.rs:31-66 | exactly the indices of the texts that match every maximal stretch of the query, by rising score and then index; every index for a blank query |
| Fuzzy.RankingIsUnique | crates/tui/src/fuzzy.rs:60-65 | the ranking is determined by texts and query |
| Scrub.RedactSkTokens | crates/observability/src/scrub.rs:212-236 | the loop yields the specified redaction |
| ScrubExact.TextAroundTokensIsKept | crates/observability/src/scrub.rs:212-236 | the text in front of the first token is kept, the token gives way to the marker, and the text behind it is redacted on its own |
| Scrub.NoTokenIsLeft | crates/observability/src/scrub.rs:212-236 | no prefix of the output holds a marker followed by 20 token characters |
| Scrub.OnlyTokensAreTouched | crates/observability/src/scrub.rs:212-236 | a text is unchanged if and only if it holds no token |
| Scrub.RedactingTokensTwice | crates/observability/src/scrub.rs:212-236 | the pass is idempotent |
| ScrubAssignments.NoKeyHidesALaterOne | crates/observability/src/scrub.rs:9-23 | the listing order never lets a shorter key hide a longer one |
| ScrubAssignments.KeyNamesAreAKeyTable | crates/observability/src/scrub.rs:9-23 | the listed keys have the shape the scan relies on |
| ScrubAssignments.FindKey | crates/observability/src/scrub.rs:267-277 | the first listed match is the key before the equals sign whenever there is one |
| ScrubAssignments.RedactAssignmentCredentials | crates/observability/src/scrub.rs:261-304 | the loop yields the specified redaction |
| ScrubExact.TextAroundCredentialsIsKept | crates/observability/src/scrub.rs:261-304 | the same of the first credential, up to and including its equals sign |
| ScrubExact.TextWithoutCredentialIsKept | crates/observability/src/scrub.rs:289-301 | a text without a credential is kept as it is |
| ScrubAssignments.EveryCredentialIsGone | crates/observability/src/scrub.rs:261-304 | in the output every key at a boundary is followed by nothing or exactly the marker |
| ScrubAssignments.OnlyCredentialsAreTouched | crates/observability/src/scrub.rs:289-301 | a text is unchanged if and only if it exposes no credential |
| ScrubAssignments.RedactingCredentialsTwice | crates/observability/src/scrub.rs:261-304 | the pass is idempotent |
| ScrubAssignments.CuttingRevealsNothing | crates/observability/src/scrub.rs:175-210 | cut anywhere, a key is followed by at most part of the marker |
| ScrubCompose.BothGuaranteesHold | crates/observability/src/scrub.rs:62-71 | after both scanning passes no token and no exposed credential is left, and either pass again changes nothing |
| ScrubBound.TruncateUtf8 | crates/observability/src/scrub.rs:201-210 | the input, or its part before the last boundary within the budget |
| ScrubBound.TruncationIsLongestFit | crates/observability/src/scrub.rs:201-210 | of an encoded text, the longest prefix of whole characters that fits |
| ScrubBound.TruncatedShowsNoToken | crates/observability/src/scrub.rs:175-236 | redacted and truncated text is the encoding of a text without tokens |
| QueryService.RunKeepsInv | crates/code-intelligence/src/service.rs:241-539 | over every run each call's record is what the loop's counters say of its place in the channel |
| QueryService.RunNeverTurnsBack | crates/code-intelligence/src/service.rs:313-352 | outcomes are final, the lifecycle never moves back, at most one call is handled after the stop signal |
| QueryService.HandledAreTheAnswered | crates/code-intelligence/src/service.rs:405-497 | the answered calls are the first handled ones that entered the channel, and as many |
| QueryService.NothingIsLeftWaiting | crates/code-intelligence/src/service.rs:499-538 | when the loop has gone every call has resolved or is refused at its next step |
| QueryService.WhenACallIsLost | crates/code-intelligence/src/service.rs:332-334 | a call is reported as panicked if and only if the backend failed on it or it came after the drain |
| QueryService.LateSendIsReportedAsPanic | crates/code-intelligence/src/service.rs:311-335 | a run without a panic in which a call is reported as panicked |
| QueryProgress.CheckIsAnsweredByHistory | crates/code-intelligence/src/service.rs:313-328 | over every run, what a call is told at the door is decided by what happened before |
| QueryProgress.ExitReasonIsExact | crates/code-intelligence/src/service.rs:517-523 | over every run, the reported reason is a panic if there was one, else the signal if it was sent, else that the senders were gone |
| QueryProgress.QueueIsBounded | crates/code-intelligence/src/service.rs:251 | over every run, the channel holds at most 32 queries |
| QueryProgress.TheLoopCanEnd | crates/code-intelligence/src/service.rs:405-538 | from every reachable state the loop can come to its end |
| QueryProgress.EveryQueuedQueryCanBeAnswered | crates/code-intelligence/src/service.rs:415-497 | until the signal or a failure every query in the channel can be answered |
| QueryProgress.NewQueryCanBeAnswered | crates/code-intelligence/src/service.rs:313-335 | and every new one, if there is room |
| ToolGate.RunKeepsInv | crates/tool-runtime/src/runtime.rs:289-393 | gates, controls and sinks agree with the calls, over every run |
| ToolGate.OneAtATime | crates/tool-runtime/src/runtime.rs:289-368 | at most one call of a sequential tool runs or is torn down, and its gate is taken exactly then |
| ToolProgress.BeginDecides | crates/tool-runtime/src/runtime.rs:289-306 | an unknown tool is refused at once, a sequential one waits for its gate |
| ToolProgress.WaitingDecides | crates/tool-runtime/src/runtime.rs:360-393 | a waiting call goes on if and only if something stops it or its gate is free; cancellation comes before a deadline, and a call that nothing stops takes its gate |
| ToolProgress.ExecutingDecides | crates/tool-runtime/src/runtime.rs:331-358 | the same of a running call: its own output, unless something stopped it first |
| ToolProgress.EveryResultWasMade | crates/tool-runtime/src/runtime.rs:289-401 | over every run, where each result came from |
| ToolProgress.EveryCallCanEnd | crates/tool-runtime/src/runtime.rs:289-393 | from every reachable state every call can come to its end without being dropped or cancelled, with the result that was settled |
| ToolGate.RunsOnlyAdd | crates/tool-runtime/src/runtime.rs:331-358 | results are final, and a call stopped by a control reports it unless it is dropped |
| ToolGate.ReturnedCallsAreClean | crates/tool-runtime/src/runtime.rs:289-401 | a returned call has closed its sink and left its gate, and a reported control did come |
| ToolGate.OthersAreLeftAlone | crates/tool-runtime/src/runtime.rs:289-393 | whatever happens to other calls leaves a call where it is and what may stop it as it was |
| ToolGate.CancelledExactly | crates/tool-runtime/src/runtime.rs:301-302 | a call's token is cancelled if and only if it, its parent, or the call itself was |
| ToolGate.ReportsAfterTheEndAreRefused | crates/tool-runtime/src/runtime.rs:34-58 | a report that starts after its call returned is refused for good |
| ToolGate.LateDeliveryExactly | crates/tool-runtime/src/runtime.rs:34-58 | after a call returned, a report on its sink can be delivered if and only if it was admitted while the sink was open and is still undelivered |
| ToolGate.AReportCanArriveLate | crates/tool-runtime/src/runtime.rs:34-43 | a run from the start in which that happens |

## Left out

- Real files, `fsync`, locks, threads and the async runtime: bytes, a lock bit and nondeterministic steps stand for them; bytes that a device loses after a successful sync are not modelled.
- JSON text, UTF-8 validation of journal lines, SHA-256 and the regular expressions of the redactors (`redact_json_credentials`, `redact_bearer_tokens`, `redact_absolute_paths`), the replacement of exact secrets, and therefore the composition of all redactors.
- Error messages: errors are told apart by their kind only, and the validator's single error type by its presence.
- The poisoned `append_lock` of the journal store.
- Rounding of scores: they are exact tenths, so scores that only differ by floating-point error are equal here.
- Fuzzy.FuzzyFilterIndices: the standard library's sort is modelled by an insertion sort with the same order.
- SchemaMeaning.CleaningKeepsMeaning: covers the keywords the tool contract allows and the metadata keys; a generator that emits other keywords, tuple-form `items` or null-excluding nullable nodes is outside its hypothesis.
- IndexCache.SavedIsReadBack: file baselines and the graph are one opaque part of an entry.
- IndexCacheStore.TempCollides: paths are a directory and a last component; a trailing dot component is not normalised.
- IndexCacheStore.LoadSeesTheLastFinishedSave: assumes a disk that keeps a rename once it returned.
- SchemaRules.BoundsAreExactUpToRounding: negative zero is not told apart from zero, and of a 64-bit float only what rounding depends on is used.
- WatchWindow.NetEffectIsPreserved: a directory is moved as one path; what its move does to the files below it is stated by `MovedDirectoryHidesItsFiles`. The fresh-target hypothesis is sufficient; `WatchLosses` has the exact statements.
- WatchWindow.WindowReportsNetEffect: the same single-path move of directories.
- WatchEndToEnd.WorkerReportsNetEffect: the same single-path move of directories; two fragments of one rename arrive one right after the other, and a created tree is found as it was made.
- WatchWorker.Worker.RecordCreatedTree: the entries of the walk are given; the walking itself is not modelled.
- QueryService and ToolGate are step systems over values, not classes: aliasing of the shared state is not captured, and progress is stated as what can still happen, with nothing said about fairness or time limits.
- ToolGate.ReportsAfterTheEndAreRefused: a call without a sink is given one of its own.
- WatchStream.EveryScheduleIsAccounted: events that the broadcast channel drops for slow receivers are not modelled.
- WatchWorker.Worker.HandleEvent: gitignore matching, root lookup and git classification decide a path's place before the model starts.
- The hunk tracker, the desktop projection, the lease lifecycle table, budgets, hooks, configuration, CLI and UI: finite tables, shells around code elsewhere, or easy members.
