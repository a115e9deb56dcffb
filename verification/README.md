# Verification of the rename, catalogue and thumbnail-cache logic

This project models the parts of the image catalogue where a mistake loses data or shows the wrong
thing, and proves what those parts promise:

* the crash-safe batch rename: planner, template language, prepared transaction, coordinator, the
  two-generation journal, what its records can hold and the codecs under it (`Batch*`,
  `NameTemplate`, `Decimals`, `TransactionCodec`, `JournalEnvelope`);
* the catalogue: natural order, listing, incremental model and session (`NaturalOrder`,
  `StableGrouping`, `CatalogListing`, `DirectoryModel`, `CatalogSession`);
* the three-layer thumbnail cache and its pruning (`MemoryCache`, `ArtifactStore`, `ArtifactIndex`,
  `ThumbnailCache`, `CacheMaintenance`, `CacheLapses`, `CacheKey`);
* the byte-level algorithms (`Bytes`, `Fields`, `Utf8`, `Crc32`, `ArtifactCodec`).

`dafny verify dfyconfig.toml` checks everything. Objects that the program updates in place are
classes here, loops are loops with invariants, and each method is tied to a function or relation
about which the lemmas are proved. Whatever other programs, the file system, SQLite or the clock
decide is chosen nondeterministically: a failed write, a request to stop, a report that says less
than the truth, the order of answers. Every durable state of a rename is recorded in a trace, so a
crash is any element of that trace; every state knows the history that led to it through all
reboots. In the cache the failures are an input: index, store and cache each have a list of the
outcomes that their coming operations meet. The contracts hold for every list, and a given list is a
run that is known to the end.

A volume is `calm` when its journal can be written and nobody asks to stop; then how a rename ends, and
what it leaves in the journal, follows from what the service answers to its renames, which a volume
records (`answers`), and from nothing else. It is `reliable` when, besides, no rename fails; then the
status is given by an if-and-only-if on its plan or its record. `PlanFits` is what a caller can check
before a new batch: whether every record on the way fits into 4 MiB. `Resumable` and `CanFinish` say
the same of a journalled record.

Assumptions: replacing one file is atomic; a rename never replaces an entry, and leaves the revision
of its object as long as it was when nothing fails (its last field is a time in nanoseconds);
reports of the file operation service are not false; other programs do not touch the selected
objects while they are being renamed, nor forge artifact files or the bindings of locators, which
they may damage; no two inputs that are ever hashed collide; QOI decoding is a partial function;
numbers of requests and generations of a session do not wrap.

What the code does not promise although one might expect it:

* A VVT1 file decodes with any second encoding byte, because sixteen bits are read into a one-byte
  enumeration. Re-encoding gives the same bytes if and only if that byte is zero.
* The journal envelope sums the payload, not the header: damage to the kind field is read as another
  kind.
* Encoding a transaction does not check UTF-8, decoding does; the round trip holds exactly for UTF-8.
* A batch with a name that is not UTF-8 is planned and journalled, but no record of it can be read:
  after a crash every resume ends in a journal error (`BatchLimits.RawIsIllegible`, `CrashAndResume`).
* A batch of 10,000 files may be too long for the journal, from the start
  (`BatchLimits.TooLongFromTheStart`) or only when its names have become the longer temporary ones
  (`BatchLimits.TooLongOnTheWay`); then neither the rename nor any resume can end (`BeginAndResume`).
* A resumed rename with recorded conflicting evidence never ends on its own
  (`BatchLimits.ResumeDoubtful`).
* Pruning may report success over its limits when a count or a sum fails and reads as zero
  (`CacheLapses.StopsOverTheLimit`).
* After a recovery during pruning a file may be left without a row although it had one
  (`CacheLapses.LosesSight`).
* A publication that does not fit into memory leaves the older resident there, and lookups serve it
  (`CacheLapses.ServesTheOlder`).
* A locator whose row could not be deleted and whose fence could not be written is followed again after
  a reopen (`CacheLapses.FollowsTheErased`).

## Model

| member | source | states |
|---|---|---|
| `BatchCoordinator.Lifetime` | Source/src/fileops/batch_rename_coordinator.cpp:469-759 | one start and any number of crashes, failures and resumes: in every durable state each object is under one of its names, no other entry is touched, and a state without a journal is the initial directory or the whole simultaneous renaming; along the history of every state, through all reboots, no record of a rollback follows one of commit intent or publishing |
| `BatchCoordinator.Coordinator.RunNew` | Source/src/fileops/batch_rename_coordinator.cpp:621-715 | a new batch: success is the simultaneous renaming, rolled back is the initial directory; with an earlier record in the journal nothing changes; without failures it succeeds if and only if every record of its way fits into the journal, within 2n renames and no reconciliation, and otherwise ends in a journal error, stuck in a record that cannot be followed by the next, or with the disk untouched if not even the first fits; where the journal works and nobody asks to stop, the answers of the service decide: a refused evacuation ends rolled back with the status of that refusal, a step that is refused otherwise or stays open needs recovery, with exactly that answer as the record, and a run all of whose steps are taken succeeds, or a record did not fit; a failed write or removal always ends in a journal error |
| `BatchCoordinator.Coordinator.Begin` | Source/src/fileops/batch_rename_coordinator.cpp:706-714 | the first record is written, and the run goes on from it: the same statements for a batch whose journal is empty |
| `BatchCoordinator.Coordinator.RunResume` | Source/src/fileops/batch_rename_coordinator.cpp:717-759 | a resume from the journal alone: a record that is absent or not legible is a journal error that changes nothing; a record of commit intent or publishing never ends rolled back, whatever fails; without failures the status is exactly the one foreseen from record and directory, within the remaining renames and one reconciliation; where the journal works and nobody asks to stop, the first answer, weighed with the evidence on record, says whether the active step is settled, and the following ones decide as in a new batch |
| `BatchCoordinator.Coordinator.ContinueTransaction` | Source/src/fileops/batch_rename_coordinator.cpp:503-619 | continues a record in any phase; from commit intent on it never ends rolled back and from rollback it never ends in success, whatever fails; without failures its status is the one foreseen, and the renames never exceed the work the record has left; where the journal works and nobody asks to stop, its status and the record it leaves follow from the answers alone |
| `BatchCoordinator.Coordinator.ContinueActive` | Source/src/fileops/batch_rename_coordinator.cpp:515-524 | the same for a record with an active step: one look, and the run goes on exactly if the step is settled |
| `BatchCoordinator.Coordinator.Proceed` | Source/src/fileops/batch_rename_coordinator.cpp:526-619 | phases in order; from commit intent on never rolled back, whatever fails; the impossible location of the publishing loop is never reached; without failures success or rolled back if and only if every record to come fits into the journal |
| `BatchCoordinator.Coordinator.EvacuateAndCommit` | Source/src/fileops/batch_rename_coordinator.cpp:526-566 | evacuation and the record of the commit intent: without failures it gets there if and only if every record of the evacuation fits |
| `BatchCoordinator.Coordinator.Conclude` | Source/src/fileops/batch_rename_coordinator.cpp:551-607 | from commit intent on: success or an error, never rolled back |
| `BatchCoordinator.Coordinator.EnterPhase` | Source/src/fileops/batch_rename_coordinator.cpp:503-566 | phases only change forwards: no record of commit intent or publishing is followed by one of a rollback |
| `BatchCoordinator.Coordinator.EvacuateAll` | Source/src/fileops/batch_rename_coordinator.cpp:535-549 | ends with every object at its temporary name, or in rollback, or with the disk still safe; the last answer alone decides whether it ended with every step taken, a refusal or an open step, and what the record says of it |
| `BatchCoordinator.Coordinator.PublishAll` | Source/src/fileops/batch_rename_coordinator.cpp:567-587 | ends with every object at its destination, or with the disk still safe; the record stays in publishing, whatever fails; without failures it ends with all objects published if and only if the records fit; otherwise the last answer is on record |
| `BatchCoordinator.Coordinator.RollBackAll` | Source/src/fileops/batch_rename_coordinator.cpp:469-501 | ends with every object at its source, or with the disk still safe; otherwise the last answer is on record, and the reason of the rollback stays |
| `BatchCoordinator.Coordinator.ExecuteStep` | Source/src/fileops/batch_rename_coordinator.cpp:267-366 | a committed step advances exactly one item and its journalled record; a confirmed no-commit leaves the items alone and turns evacuation into rollback; the answer that decides is the one of the rename, or of a look for the object if it was not found, and the record holds its status, evidence and detail |
| `BatchCoordinator.Coordinator.Attempt` | Source/src/fileops/batch_rename_coordinator.cpp:267-293 | the intent is journalled before the rename, and the rename only runs on the journalled record |
| `BatchCoordinator.Coordinator.RecordSuccess` | Source/src/fileops/batch_rename_coordinator.cpp:300-327 | a successful rename is taken over only when the report identifies the object, and then the record of it is written if it fits; else the evidence is journalled and the run stops |
| `BatchCoordinator.Coordinator.RecordArrival` | Source/src/fileops/batch_rename_coordinator.cpp:300-327 | the record of a step that was taken; without failures it is written if and only if it fits |
| `BatchCoordinator.Coordinator.RecordFailure` | Source/src/fileops/batch_rename_coordinator.cpp:329-366 | a confirmed no-commit is journalled as an idle step with the status reported, which turns an evacuation into a rollback; anything else is journalled as an open step with status and evidence as reported, and the run stops |
| `BatchCoordinator.Coordinator.ReconcileActive` | Source/src/fileops/batch_rename_coordinator.cpp:368-453 | an active step whose result was never journalled is decided from evidence and observation; the record then says what was seen |
| `BatchCoordinator.Coordinator.Inspect` | Source/src/fileops/batch_rename_coordinator.cpp:368-381 | looks for the active object and merges the observation with the recorded evidence; conflicting evidence stays conflicting |
| `BatchCoordinator.Coordinator.RecordNoCommit` | Source/src/fileops/batch_rename_coordinator.cpp:412-434 | a confirmed no-commit ends the active step and leaves every item where it was |
| `BatchCoordinator.Coordinator.RecordEvidence` | Source/src/fileops/batch_rename_coordinator.cpp:436-453 | anything else is journalled as evidence and the run stops |
| `BatchCoordinator.Coordinator.ApplySuccess` | Source/src/fileops/batch_rename_coordinator.cpp:242-265 | applied if and only if the stable identity is the expected one |
| `BatchCoordinator.WeighedMeans` | Source/src/fileops/file_operation.cpp:997-1051 | contradicting evidence stays conflicting for ever; what is seen decides and keeps the earlier detail; a look that sees nothing changes nothing |
| `BatchCoordinator.WeighedSettles` | Source/src/fileops/batch_rename_coordinator.cpp:368-434 | so a look settles a recorded step if and only if nothing contradicts it and it shows the step taken or not taken |
| `BatchCoordinator.FateSkips` | Source/src/fileops/batch_rename_coordinator.cpp:535-587 | steps that are taken do not change how a run ends |
| `BatchCoordinator.FateTurns` | Source/src/fileops/batch_rename_coordinator.cpp:544-548 | after a refused evacuation a run ends as a rollback ends |
| `BatchCoordinator.Coordinator.Persist` | Source/src/fileops/batch_rename_coordinator.cpp:158-177 | only records that the journal can hold and that describe the directory are written, and never one that turns back; a record that does not fit is refused without a change; without failures it succeeds if and only if the record fits |
| `BatchCoordinator.Coordinator.Undo` | Source/src/fileops/batch_rename_coordinator.cpp:469-501 | rolled back means all objects at their sources and no journal |
| `BatchCoordinator.Coordinator.Finish` | Source/src/fileops/batch_rename_coordinator.cpp:588-607 | success means all objects at their destinations and no journal |
| `BatchCoordinator.ArrivalIsRecorded` | Source/src/fileops/batch_rename_coordinator.cpp:242-265 | the record after a step is valid, differs in one place and has one rename less to do |
| `BatchCoordinator.HonestIsSupported` | Source/src/fileops/batch_rename_coordinator.cpp:300-366 | a truthful report supports the record the coordinator writes from it |
| `BatchCoordinator.ActiveIsDecided` | Source/src/fileops/batch_rename_coordinator.cpp:368-453 | in a quiet directory an active object is either where it was or where its step leads, never both |
| `BatchCoordinator.StepIsForeseen` | Source/src/fileops/batch_rename_coordinator.cpp:267-327 | the record after a step is as long as the plan says, whatever snapshot the step brings; if it does not fit, every resume from the intent of that step is foreseen to end in a journal error |
| `BatchCoordinator.TraceIsSound` | Source/src/fileops/batch_rename_coordinator.cpp:469-759 | every durable state of a volume has a history that goes on from an earlier state's or begins with its batch; what is promised of states holds of all of them, and along no history a decision to publish is taken back |
| `BatchForecast.PlanDecides` | Source/src/fileops/batch_rename_transaction.cpp:347-397 | for a batch that has not begun, 2n + 2 sums over the lengths of its names decide whether it can be carried to its end |
| `BatchForecast.RoomForLongestNames` | Source/src/fileops/batch_rename_transaction.cpp:347-397 | if every object under the longest of its names fits, the rename can end from every record |
| `BatchJournal.StorableIffEncodes` | Source/src/fileops/batch_rename_transaction.cpp:347-397 | a record can be written if and only if it is valid and the sum over its fields is at most the payload limit of the envelope; that sum is the length of its encoding |
| `BatchJournal.MakeRecord` | Source/src/fileops/current_operation_journal.cpp:64-74 | the bytes of a record are an envelope around its encoding, and there are none if and only if it is invalid or too long |
| `BatchJournal.LoadRecord` | Source/src/fileops/current_operation_journal.cpp:76-128 | what a journalled file means as a transaction: damaged, of another kind, legacy or typed |
| `BatchJournal.ReadBack` | Source/src/fileops/batch_rename_coordinator.cpp:717-746 | writing a record and reading it back gives the record if and only if its paths, revisions and detail are UTF-8 |
| `BatchJournal.NamesDecide` | Source/src/fileops/batch_rename_transaction.cpp:399-456 | a record is legible if and only if the names of its moves, the revisions and the detail are: nothing else of its state matters |
| `BatchLimits.TooLongFromTheStart` | Source/src/fileops/batch_rename_transaction.cpp:372-397 | 10,000 files with ordinary names below a directory of 96 bytes are planned and prepared, but their first record is too long |
| `BatchLimits.TooLongOnTheWay` | Source/src/fileops/batch_rename_transaction.cpp:372-397 | below a directory of 84 bytes the first record fits, but not every later one |
| `BatchLimits.BeginAndResume` | Source/src/fileops/batch_rename_coordinator.cpp:621-759 | that batch ends in a journal error, and so does every resume of it, though nothing fails |
| `BatchLimits.RawIsIllegible` | Source/src/fileops/batch_rename_transaction.cpp:399-456 | a plan that renames the file FF is clear and fits, and none of its records is legible |
| `BatchLimits.CrashAndResume` | Source/src/fileops/batch_rename_coordinator.cpp:717-746 | after a crash behind its first record every resume of it ends in a journal error, though nothing fails |
| `BatchLimits.ResumeDoubtful` | Source/src/fileops/batch_rename_coordinator.cpp:368-453 | a journalled rename with conflicting evidence needs recovery after every resume, though nothing fails |
| `BatchVolume.Volume.Write` | Source/src/fileops/durable_journal.cpp:859-905 | two generations: the record is replaced in two durable steps, each of them safe; failure may be reported although the record is in place |
| `BatchVolume.Volume.Remove` | Source/src/fileops/durable_journal.cpp:998-1031 | removing both generations keeps every durable state safe, whichever removal fails |
| `BatchVolume.Volume.Rename` | Source/src/fileops/batch_rename_coordinator.cpp:190-240 | a rename never replaces an entry, moves one object, and may report anything that is true |
| `BatchVolume.Volume.Reconcile` | Source/src/fileops/batch_rename_coordinator.cpp:190-223 | looking for the active object changes nothing and reports nothing false |
| `BatchVolume.DemotionIsSafe` | Source/src/fileops/durable_journal.cpp:859-905 | the state between the two generations of a write is safe |
| `BatchVolume.RenameIsSafe` | Source/src/fileops/batch_rename_coordinator.cpp:267-366 | the directory after the active rename is still described by the journal |
| `BatchDisk.TargetIsFree` | Source/src/fileops/batch_rename.cpp:292-374 | every evacuate, publish and rollback rename that the protocol may issue targets a name that collides with nothing |
| `BatchDisk.NoObjectLost` | Source/src/fileops/batch_rename_coordinator.cpp:242-453 | a safe disk has every object under its source, temporary or destination name |
| `BatchDisk.NothingElseTouched` | Source/src/fileops/batch_rename_coordinator.cpp:242-453 | a safe disk has no object twice and every foreign entry as it was |
| `BatchDisk.AllOrNothing` | Source/src/fileops/batch_rename_coordinator.cpp:469-619 | a safe disk without a journal is the initial directory or the simultaneous renaming |
| `BatchDisk.AllAtDestination` | Source/src/fileops/batch_rename_coordinator.cpp:567-607 | all objects at their destinations is the initial directory under the simultaneous renaming |
| `BatchDisk.SourceIsVacated` | Source/src/fileops/batch_rename_coordinator.cpp:368-453 | after a step the name it left is vacant, so an observation decides |
| `BatchPlan.PlanBatchRename` | Source/src/fileops/batch_rename.cpp:281-375 | each row gets its generated name and exactly the first issue that applies; the plan is clear if and only if no row has an issue; what new names and clear rows are is said by the lemmas below |
| `BatchPlan.FindCollisions` | Source/src/fileops/batch_rename.cpp:354-373 | duplicate and occupied destinations, stated over all rows at once |
| `BatchPlan.NameRows` | Source/src/fileops/batch_rename.cpp:299-352 | each source against the earlier ones and against the rules for names |
| `BatchPlan.GeneratedName` | Source/src/fileops/batch_rename.cpp:172-267 | a new name is what the pieces of the template mean, with the stem of a file or the whole name of a directory for {name} and the exact padded counter, followed by the old extension of a file or the one that replaces it; directories get none |
| `BatchPlan.SplitsOneWay` | Source/src/fileops/batch_rename.cpp:193-260 | a name splits in one way only: the extension begins with the last dot, unless that is the first byte |
| `BatchPlan.NameStays` | Source/src/fileops/batch_rename.cpp:172-260 | the template {name} with extensions kept gives every source back unchanged |
| `BatchPlan.GeneratedOnlyIf` | Source/src/fileops/batch_rename.cpp:172-345 | a name is generated only for valid options, a counter that fits, a known time and a well-formed template, and only if it is valid and not reserved |
| `BatchPlan.GeneratedIf` | Source/src/fileops/batch_rename.cpp:172-345 | and whenever that is so |
| `BatchPlan.DateFields` | Source/src/fileops/batch_rename.cpp:108-136 | a date shows year, month and day in the order of its format, each as a decimal number of at least its width |
| `BatchPlan.TimeFields` | Source/src/fileops/batch_rename.cpp:138-154 | the same for hour, minute and second |
| `BatchPlan.PlannedPath` | Source/src/fileops/batch_rename.cpp:324-350 | a new path is the generated name in the directory of the batch, and an unchanged name is the unchanged path |
| `BatchPlan.ClearMeans` | Source/src/fileops/batch_rename.cpp:299-373 | a row is clear if and only if its source is a named object of the common directory, distinct from all earlier ones in name and identity, and its new name exists and collides with no other row and no entry outside the selection |
| `BatchPlan.NumberedNamesDistinct` | Source/src/fileops/batch_rename.cpp:156-164 | literal, counter, literal over regular files with one new extension never yields two destinations with one collision key |
| `BatchPrepare.PlanIsSafe` | Source/src/fileops/batch_rename_transaction.cpp:304-345 | a plan without issues over a complete listing prepares a batch whose every rename is free, with cycles, case-only changes and unchanged rows |
| `BatchPrepare.ClearPlanPrepares` | Source/src/fileops/batch_rename_transaction.cpp:304-345 | a plan without issues is prepared if and only if the operation has a number and there are at most 10,000 files |
| `BatchPrepare.PrepareBatch` | Source/src/fileops/batch_rename_transaction.cpp:304-345 | the prepared transaction, built row by row |
| `BatchPrepare.DropUnchanged` | Source/src/fileops/batch_rename_transaction.cpp:304-345 | rows that keep their name are dropped and the rest numbered anew |
| `BatchTransaction.TemporaryKeysDistinct` | Source/src/fileops/batch_rename_transaction.cpp:139-151 | temporary names of one operation never collide |
| `BatchTransaction.IdentityIsObject` | Source/src/fileops/file_operation.cpp:228-274 | the stable identity of a revision is its object, whatever time follows it, for the four schemes with numeric fields |
| `BatchTransaction.WideIdentityIsObject` | Source/src/fileops/file_operation.cpp:228-243 | the same for identifiers of 128 bits |
| `NameTemplate.ExpandTemplate` | Source/src/fileops/batch_rename.cpp:203-250 | the template loop computes the expansion that the two lemmas below characterise |
| `NameTemplate.PrintThenExpand` | Source/src/fileops/batch_rename.cpp:203-250 | printing any pieces with braces doubled and expanding gives the concatenated meanings |
| `NameTemplate.ExpandedIsPrinted` | Source/src/fileops/batch_rename.cpp:203-250 | whatever expands was such a printout |
| `NameTemplate.CounterIsExact` | Source/src/fileops/batch_rename.cpp:156-164 | a counter is returned if and only if start + index * step fits 64 bits |
| `Decimals.PaddedDenotes` | Source/src/fileops/batch_rename.cpp:94-106 | padding to a width never changes the number |
| `TransactionCodec.TransactionReadsBack` | Source/src/fileops/batch_rename_transaction.cpp:347-456 | an encoded transaction, with the whole paths that its record carries, decodes to itself if and only if its paths and texts are UTF-8, and to nothing otherwise |
| `JournalEnvelope.Encode` | Source/src/fileops/current_operation_journal.cpp:46-57 | the envelope, written into a buffer at its offsets |
| `JournalEnvelope.Write` | Source/src/fileops/current_operation_journal.cpp:64-74 | kind zero and oversized payloads are refused |
| `JournalEnvelope.Read` | Source/src/fileops/current_operation_journal.cpp:76-128 | typed if and only if the bytes are the envelope of that kind and payload; legacy if and only if the reserved prefix is missing |
| `JournalEnvelope.EveryRecordReadsBack` | Source/src/fileops/current_operation_journal.cpp:46-128 | a written record reads back as exactly its kind and payload |
| `JournalEnvelope.DamageIsClassified` | Source/src/fileops/current_operation_journal.cpp:76-128 | one damaged byte anywhere: legacy only in the first four, an altered kind only in the kind field, corrupt everywhere else |
| `JournalEnvelope.LegacyTransactionIsRecognised` | Source/src/fileops/current_operation_journal.cpp:86-101 | a transaction journalled without an envelope is never taken for a damaged one |
| `Crc32.BitwiseChecksum` | Source/src/fileops/current_operation_journal.cpp:33-44 | the bit-by-bit loop computes the checksum |
| `Crc32.TableChecksum` | Source/src/cache/artifact_store.cpp:406-413 | the table-driven loop computes the same checksum on every byte sequence |
| `Crc32.MakeTable` | Source/src/cache/artifact_store.cpp:35-45 | each entry is the register after eight single-bit steps |
| `Crc32.LookupIsEightSteps` | Source/src/cache/artifact_store.cpp:406-413 | one table lookup equals eight single-bit steps |
| `Crc32.OneDamagedByteIsNoticed` | Source/src/cache/artifact_store.cpp:406-413 | changing one byte always changes the checksum |
| `Crc32.PolynomialIsStandard` | Source/src/fileops/current_operation_journal.cpp:33-44 | the constant is the polynomial of ISO 3309, power by power |
| `Crc32.CheckValue` | Source/src/fileops/current_operation_journal.cpp:33-44 | the checksum of FF FF FF FF 80 is 12477CDF, which depends on polynomial, complements and bit order |
| `ArtifactCodec.Encode` | Source/src/cache/artifact_store.cpp:415-479 | rejects exactly invalid metadata or identities and oversized artifacts; otherwise the bytes represent the artifact |
| `ArtifactCodec.Decode` | Source/src/cache/artifact_store.cpp:131-218 | returns the artifact the bytes represent, and nothing if and only if they represent none |
| `ArtifactCodec.RepresentsOne` | Source/src/cache/artifact_store.cpp:131-218 | bytes represent at most one artifact, so decoding an encoded artifact returns it |
| `ArtifactCodec.ReencodingRestores` | Source/src/cache/artifact_store.cpp:170-179 | re-encoding an accepted file gives the same bytes if and only if its second encoding byte is zero |
| `ArtifactCodec.SecondEncodingByteIsIgnored` | Source/src/cache/artifact_store.cpp:170-179 | every accepted file has a sibling with any other second encoding byte that decodes alike |
| `ArtifactCodec.WriteMetadata` | Source/src/cache/artifact_store.cpp:450-463 | integer fields at their offsets, everything else untouched |
| `Utf8.ValidText` | Source/src/cache/artifact_store.cpp:81-122 | accepts exactly NUL-free text that decodes with no invalid byte |
| `Utf8.ValidUtf8` | Source/src/fileops/batch_rename_transaction.cpp:94-137 | accepts exactly text that decodes with no invalid byte |
| `Utf8.DecodeAt` | Source/src/core/directory_model.cpp:399-439 | the decoder of one code point, on arbitrary bytes |
| `Utf8.DecodeEncoded` | Source/src/core/directory_model.cpp:399-477 | decoding an encoded scalar value gives it back, whatever follows (section 3 of RFC 3629) |
| `Utf8.EncodeDecoded` | Source/src/core/directory_model.cpp:399-477 | a decoded sequence is the encoding of its code point: there is no second spelling |
| `Utf8.FallbackSearchKey` | Source/src/core/directory_model.cpp:503-519 | the folding loop on valid and invalid bytes |
| `Utf8.FoldKeepsLength` | Source/src/core/directory_model.cpp:441-519 | folding keeps the length of any byte string |
| `Utf8.FoldIsIdempotent` | Source/src/core/directory_model.cpp:441-519 | folding twice is folding once, with invalid bytes mixed in |
| `Utf8.FoldsCase` | Source/src/core/directory_model.cpp:441-461 | two characters are folded alike if and only if they are one letter in two cases, by seven alphabets |
| `Utf8.FoldOfText` | Source/src/core/directory_model.cpp:441-519 | valid text is folded letter by letter |
| `Utf8.FoldOfAscii` | Source/src/core/directory_model.cpp:441-519 | ASCII is folded to its lower case |
| `NaturalOrder.CompareNaturalNames` | Source/src/core/directory_model.cpp:19-75 | the two-cursor loop computes the order that the lemmas below describe |
| `NaturalOrder.CompareRuns` | Source/src/core/directory_model.cpp:30-52 | digit runs of any length compare by their integer value without being converted |
| `NaturalOrder.OrderIsAntisymmetric` | Source/src/core/directory_model.cpp:19-75 | swapping the names swaps the sign |
| `NaturalOrder.OrderIsTransitive` | Source/src/core/directory_model.cpp:19-75 | transitive, and strictly so when one side is strict |
| `NaturalOrder.OrderIsStrict` | Source/src/core/directory_model.cpp:19-75 | zero exactly on byte-identical names |
| `NaturalOrder.NumbersCompareByValue` | Source/src/core/directory_model.cpp:30-52 | after a common beginning different numbers decide by value, whatever follows |
| `NaturalOrder.PaddingDecidesLast` | Source/src/core/directory_model.cpp:53-74 | zero padding decides only when everything after it is naturally equal |
| `CatalogListing.ListingIsCanonical` | Source/src/core/directory_model.cpp:304-390 | a finished listing depends only on the set of entries and the settings |
| `CatalogListing.ListingIsListed` | Source/src/core/directory_model.cpp:321-390 | sorting the groups of the matching rows gives each of them once and in order |
| `CatalogListing.LessIsStrictOrder` | Source/src/core/directory_model.cpp:350-376 | the comparator is a strict order, total on different ids, for every field and direction |
| `CatalogListing.LessIsFullOrder` | Source/src/core/directory_model.cpp:350-376 | the branches of the comparator are one order by key, name and id, or its reverse; what the keys are is said by FinishedRows |
| `CatalogListing.StableSortSorts` | Source/src/core/directory_model.cpp:378-389 | the sorted rows of a group are in comparator order |
| `CatalogListing.FinishedRows` | Source/src/core/directory_model.cpp:333-390 | of any two rows of a finished listing the first is of a lower group, or of the same one and not behind in size, in time, in the bytes behind the last dot or in natural order, as the field asks; equal keys fall to name and id, and descending reverses all |
| `CatalogListing.GroupMeans` | Source/src/core/directory_model.cpp:77-108 | directories, then files with one of 49 extensions in any case, then the others |
| `CatalogListing.ShownIffFound` | Source/src/core/directory_model.cpp:294-312 | a finished listing shows exactly the entries whose name, or folded name, contains the filter |
| `CatalogListing.CataloguedMeans` | Source/include/vove/core/catalog_visibility.hpp:10-18 | left out are exactly the entries without a name, those whose name begins with a dot, and files that end in .tmp in any case |
| `CatalogListing.OnlyCataloguedConcat` | Source/include/vove/core/catalog_visibility.hpp:10-18 | which entries are kept does not depend on how batches are split |
| `StableGrouping.GroupedThenMore` | Source/src/core/directory_model.cpp:140-166 | grouping what was grouped plus new rows equals grouping everything in arrival order |
| `StableGrouping.PrefixStays` | Source/src/core/directory_model.cpp:128-138 | old rows stay a beginning if and only if no new row belongs to a group before their last |
| `StableGrouping.RisingIsGrouped` | Source/src/core/directory_model.cpp:140-166 | rows whose groups already rise need no regrouping |
| `DirectoryModel.DirectoryModel.AppendBatch` | Source/src/core/directory_model.cpp:140-166 | the visible rows are the stable grouping of the old rows and the matching new ones; entries grow by the catalogued ones; stale generations change nothing |
| `DirectoryModel.DirectoryModel.AppendReordersVisibleRows` | Source/src/core/directory_model.cpp:128-138 | true if and only if the old visible rows will not be a prefix of the new ones |
| `DirectoryModel.DirectoryModel.MatchingCount` | Source/src/core/directory_model.cpp:121-126 | exactly the number of rows the batch will add |
| `DirectoryModel.DirectoryModel.ReplaceGeneration` | Source/src/core/directory_model.cpp:168-187 | the other route: all catalogued entries at once, grouped |
| `DirectoryModel.DirectoryModel.FinishGeneration` | Source/src/core/directory_model.cpp:189-196 | a finished generation is a complete sorted listing of its entries; what that means for its rows is said by SortedModelShows |
| `DirectoryModel.DirectoryModel.AbortGeneration` | Source/src/core/directory_model.cpp:198-204 | an aborted one keeps its rows until something sorts them |
| `DirectoryModel.DirectoryModel.SetFilterKey` | Source/src/core/directory_model.cpp:206-212 | changing the filter rebuilds the rows in the order the state asks for; setting what is set changes nothing |
| `DirectoryModel.DirectoryModel.SetFilterCase` | Source/src/core/directory_model.cpp:214-220 | the same for case sensitivity; setting what is set changes nothing |
| `DirectoryModel.DirectoryModel.SetSort` | Source/src/core/directory_model.cpp:222-231 | changing the order re-sorts only when no load is running; setting what is set changes nothing |
| `DirectoryModel.SortedModelShows` | Source/src/core/directory_model.cpp:189-390 | a sorted model shows exactly the entries that are found, by group and then by the field that is set |
| `DirectoryModel.DirectoryModel.PartitionVisibleGroups` | Source/src/core/directory_model.cpp:321-331 | two stable partitions are the stable grouping, and the boundaries count its parts |
| `DirectoryModel.FinishedModelsAgree` | Source/src/core/directory_model.cpp:140-390 | two finished models with the same settings and entries show the same rows, whatever brought them there |
| `CatalogSession.CatalogSession.Open` | Source/src/catalog/catalog_session.cpp:27-49 | one fresh request; an empty path is refused; without preservation the sink is begun; requests are counted anew from here; the request is exact, a listing that is being shown is finished first, and the request before is cancelled |
| `CatalogSession.CatalogSession.Refresh` | Source/src/catalog/catalog_session.cpp:51-65 | one fresh request, staged; requests are counted anew from here; the request is exact, a listing that is being shown is finished first, and the request before is cancelled |
| `CatalogSession.CatalogSession.Suspend` | Source/src/catalog/catalog_session.cpp:67-80 | an open sink is aborted, nothing else is told |
| `CatalogSession.CatalogSession.Poll` | Source/src/catalog/catalog_session.cpp:113-219 | answers to other generations are dropped; the state after an answer, the retry times and the model-changed flag are exact; what a successful load shows is what its generation received; a failed staged load told the sink nothing; the submissions since the last open or refresh are never more than four, however often it is polled; the calls of the sink are exact: the entries, then finish for a success and abort for a failure of a shown load, one replacement for a success of a staged one, unless it is recursive and incomplete, and nothing for its failure; a retry makes one exact request |
| `CatalogSession.CatalogSession.Answer` | Source/src/catalog/catalog_session.cpp:125-219 | one answer to the current request is taken in and what it did is exact; answers to other generations are dropped |
| `CatalogSession.CatalogSession.Receive` | Source/src/catalog/catalog_session.cpp:143-157 | entries go to the sink or wait; a recursive load opens the sink with its first entries |
| `CatalogSession.CatalogSession.Complete` | Source/src/catalog/catalog_session.cpp:163-180 | a successful load finishes what is shown or replaces it with all that was received; an incomplete recursive refresh without entries keeps what was shown |
| `CatalogSession.CatalogSession.Fail` | Source/src/catalog/catalog_session.cpp:182-218 | retries at 1, 3 and 10 seconds, then the state of the error; what is shown is aborted, what is staged is dropped |
| `CatalogSession.CatalogSession.TakeCurrent` | Source/src/catalog/catalog_session.cpp:129-138 | the first answer to the current request, and what waits behind it |
| `CatalogSession.GivesUp` | Source/src/catalog/catalog_session.cpp:113-219 | a load that fails for a passing reason is requested four times, not before 1, 3 and 10 seconds have passed, and then given up without touching what is shown |
| `CatalogSession.GoesDown` | Source/src/catalog/catalog_session.cpp:139-219 | a recursive load is never tried again, and an error below its root leaves it ready and incomplete |
| `CatalogSession.ClosedIsSessions` | Source/src/catalog/catalog_session.cpp:27-219 | calls that keep the protocol and leave the sink closed form (begin append* (finish or abort), or replace)* |
| `CatalogSession.SinkSawSessions` | Source/src/catalog/catalog_session.cpp:27-219 | so does every session that is not loading |
| `MemoryCache.MemoryArtifactCache.Find` | Source/src/cache/memory_artifact_cache.cpp:11-21 | a hit moves its entry to the front of the recency list |
| `MemoryCache.MemoryArtifactCache.Insert` | Source/src/cache/memory_artifact_cache.cpp:23-47 | the residents afterwards are the longest fitting beginning of the new recency list, the new entry included; refused exactly when it cannot fit |
| `MemoryCache.MemoryArtifactCache.EvictToLimits` | Source/src/cache/memory_artifact_cache.cpp:108-113 | evicts from the end, counting each eviction |
| `MemoryCache.MemoryArtifactCache.EraseEntry` | Source/src/cache/memory_artifact_cache.cpp:115-120 | list, map and totals lose the same entry |
| `MemoryCache.MemoryArtifactCache.CompareExchangePersistedAccess` | Source/src/cache/memory_artifact_cache.cpp:59-69 | writes the time of one entry exactly when it still is the expected one |
| `MemoryCache.MemoryArtifactCache.Erase` | Source/src/cache/memory_artifact_cache.cpp:71-79 | removes the digest and says whether it was there |
| `MemoryCache.MemoryArtifactCache.EntryOf` | Source/src/cache/memory_artifact_cache.cpp:11-20 | the map finds what a search of the list would find |
| `MemoryCache.TrimmedIsLongest` | Source/src/cache/memory_artifact_cache.cpp:108-113 | no longer beginning of the list fits |
| `MemoryCache.FirstStays` | Source/src/cache/memory_artifact_cache.cpp:30-46 | an entry that fits alone survives its own insertion |
| `MemoryCache.TotalWithout` | Source/src/cache/memory_artifact_cache.cpp:115-120 | taking out one digest takes out exactly its weight |
| `MemoryCache.WeightIsFileLength` | Source/src/cache/memory_artifact_cache.cpp:104-106 | an artifact weighs as much as its file without the names of its color profile |
| `CacheKey.SerializeKey` | Source/src/cache/cache_key.cpp:116-137 | the appended bytes are the key layout; fails exactly for strings of 4 GiB or more |
| `CacheKey.SerializeLocator` | Source/src/cache/cache_key.cpp:139-162 | the same for locators, with the edge only when it is not 512 |
| `CacheKey.KeyBytesInjective` | Source/src/cache/cache_key.cpp:116-137 | different keys never serialize alike |
| `CacheKey.LocatorBytesInjective` | Source/src/cache/cache_key.cpp:139-162 | different locators never serialize alike, with or without the optional edge |
| `CacheKey.DomainsAreApart` | Source/src/cache/cache_key.cpp:116-214 | keys, locators and bindings never share a hash input |
| `CacheKey.BindingBytesInjective` | Source/src/cache/cache_key.cpp:199-214 | a binding determines both digests |
| `CacheKey.Pad` | Source/src/cache/cache_key.cpp:164-174 | padding fills whole blocks |
| `CacheKey.PaddingIsInjective` | Source/src/cache/cache_key.cpp:164-174 | padded messages differ if the messages do |
| `CacheKey.ToHex` | Source/src/cache/cache_key.cpp:104-114 | two digits per byte |
| `CacheKey.HexIsInjective` | Source/src/cache/cache_key.cpp:104-114 | hexadecimal determines the digest |
| `CacheKey.DigestIdentifiesKey` | Source/src/cache/cache_key.cpp:191-193 | with no collision among hashed inputs a digest determines its key |
| `CacheKey.DigestIdentifiesLocator` | Source/src/cache/cache_key.cpp:195-197 | the same for locators |
| `ArtifactIndex.ArtifactIndex.Commit` | Source/src/cache/sqlite_artifact_index.cpp:1164-1174 | two attempts around a recovery: the tables are untouched unless a recovery emptied them, and it commits if no statement fails; a row that does not read back costs the tables |
| `ArtifactIndex.ArtifactIndex.Find` | Source/src/cache/sqlite_artifact_index.cpp:468-505 | an answer without an error is true |
| `ArtifactIndex.ArtifactIndex.Publish` | Source/src/cache/sqlite_artifact_index.cpp:507-537 | publishes only valid records, as one transaction; every valid one if no statement fails |
| `ArtifactIndex.ArtifactIndex.Touch` | Source/src/cache/sqlite_artifact_index.cpp:539-572 | changes one access time or nothing |
| `ArtifactIndex.ArtifactIndex.Erase` | Source/src/cache/sqlite_artifact_index.cpp:574-622 | a row goes with all locators that lead to it; the answer tells exactly whether there was one, unless a recovery emptied the tables |
| `ArtifactIndex.ArtifactIndex.FindLocator` | Source/src/cache/sqlite_artifact_index.cpp:624-665 | a target is returned only for a row with the right binding; a row with a wrong one is never followed, and finding it empties the tables or fails |
| `ArtifactIndex.ArtifactIndex.PublishLocator` | Source/src/cache/sqlite_artifact_index.cpp:667-715 | only an existing row can be a target, and the binding digest is written with it |
| `ArtifactIndex.DamageIsNoticed` | Source/src/cache/sqlite_artifact_index.cpp:624-665 | a binding digest fits its own locator and target only, so a row in which either was changed is noticed |
| `ArtifactIndex.ArtifactIndex.EraseLocator` | Source/src/cache/sqlite_artifact_index.cpp:717-747 | false without an error means the locator is absent |
| `ArtifactIndex.ArtifactIndex.Oldest` | Source/src/cache/sqlite_artifact_index.cpp:757-804 | the first rows by last access and digest, or nothing with an error |
| `ArtifactIndex.InRowOrder` | Source/src/cache/sqlite_artifact_index.cpp:757-804 | exactly the least rows of the table, in order |
| `ArtifactIndex.ArtifactIndex.SumOfBytes` | Source/src/cache/sqlite_artifact_index.cpp:1097-1122 | the sum over all rows, or zero with an error |
| `ArtifactStore.ArtifactStore.LookupDigest` | Source/src/cache/artifact_store.cpp:595-656 | a hit is the artifact its name says; anything else is removed or reported |
| `ArtifactStore.ArtifactStore.RemoveDigestChecked` | Source/src/cache/artifact_store.cpp:666-695 | removed, absent or failed, and which |
| `ArtifactStore.ArtifactStore.Commit` | Source/src/cache/artifact_store.cpp:528-589 | staged bytes replace the file of a digest only if they decode to an artifact of that very digest; then the file is that artifact, and an error may be reported after the replacement; refused only for other bytes if nothing fails |
| `ArtifactStore.ArtifactStore.ScanDigests` | Source/src/cache/artifact_store.cpp:697-744 | a complete scan has every digest once |
| `ThumbnailCache.PersistentThumbnailCache.Lookup` | Source/src/cache/persistent_thumbnail_cache.cpp:121-227 | every hit has replaced the file of this very key in a publication and decodes to its size; if no index statement fails during the call, a disk hit without error leaves exactly the matching record, a miss leaves nothing in any layer, and a resident with a record is served; a file that is sound and decodes is never removed, whatever fails, and if nothing is in memory and the store works it is served, with the exact record and an error only if that record is invalid; if nothing fails a miss means that neither memory with a record or file nor such a file was there |
| `ThumbnailCache.PersistentThumbnailCache.LookupResident` | Source/src/cache/persistent_thumbnail_cache.cpp:125-164 | the memory path with the repair of a missing record; with a record the hit is served with it, the access moves exactly when it is due, and no file that can be served is touched |
| `ThumbnailCache.PersistentThumbnailCache.Reconstruct` | Source/src/cache/persistent_thumbnail_cache.cpp:126-146 | a missing record of a resident is written again from its file; without a file the resident goes |
| `ThumbnailCache.PersistentThumbnailCache.RefreshAccess` | Source/src/cache/persistent_thumbnail_cache.cpp:147-159 | the recorded access moves forward at most once per minute, and what the memory believes of it moves exactly when the record did |
| `ThumbnailCache.PersistentThumbnailCache.LookupStored` | Source/src/cache/persistent_thumbnail_cache.cpp:166-201 | the disk path: a sound file that decodes is served whenever the store works, and only what does not decode or is gone is removed, everywhere |
| `ThumbnailCache.PersistentThumbnailCache.ServeFromDisk` | Source/src/cache/persistent_thumbnail_cache.cpp:203-227 | a record that does not match is rebuilt from the artifact |
| `ThumbnailCache.PersistentThumbnailCache.LookupLocator` | Source/src/cache/persistent_thumbnail_cache.cpp:229-309 | a hit follows a binding that was made for this very locator and is newer than its last erasure, except after a reopen for a locator whose row and fence both failed then; rows that others damaged are not followed; a locator that is bound to what can be served is a hit if nothing fails; if nothing fails, a locator that can be followed is a hit and can be followed again |
| `ThumbnailCache.PersistentThumbnailCache.FollowTarget` | Source/src/cache/persistent_thumbnail_cache.cpp:242-309 | the artifact served was offered for the key the locator is bound to; what cannot be served loses its record and its locator, if no index statement fails; a hit changes nothing but an access that is due |
| `ThumbnailCache.PersistentThumbnailCache.FollowToDisk` | Source/src/cache/persistent_thumbnail_cache.cpp:262-309 | a file that decodes and agrees with the record is served and remembered; any other is removed if the store works |
| `ThumbnailCache.PersistentThumbnailCache.Publish` | Source/src/cache/persistent_thumbnail_cache.cpp:311-375 | after a publication store, index and memory agree; memory keeps what it had exactly when the artifact cannot fit; if nothing fails it publishes exactly the requests with valid image, texts, times and size; one that the index refuses leaves no file behind if the store works; an artifact counts as offered for its key only if it replaced the file, whatever is reported |
| `ThumbnailCache.PersistentThumbnailCache.BindLocator` | Source/src/cache/persistent_thumbnail_cache.cpp:377-386 | a bound locator has a row to the key, no fence, and is on record as bound now, to this key and under its own digest; if nothing fails it is bound exactly if the key has a record |
| `ThumbnailCache.PersistentThumbnailCache.EraseLocator` | Source/src/cache/persistent_thumbnail_cache.cpp:388-408 | from the call on a row that is left is fenced or locators are off, whatever failed; locators are switched off only if both row and fence failed; if nothing fails, row and fence are gone, nothing else changed, and the answer tells whether there was a row |
| `ThumbnailCache.PersistentThumbnailCache.RevokeRow` | Source/src/cache/persistent_thumbnail_cache.cpp:395-402 | neither row nor fence failing silently |
| `ThumbnailCache.PersistentThumbnailCache.Erase` | Source/src/cache/persistent_thumbnail_cache.cpp:410-419 | the key is gone from memory, from the store unless that removal failed, and from the index, with its locators, unless that one or the statement failed; the answer tells exactly whether any layer had it; no other key loses anything |
| `ThumbnailCache.PersistentThumbnailCache.Prune` | Source/src/cache/persistent_thumbnail_cache.cpp:442-448 | pruning keeps what is promised of hits and locators; memory is emptied exactly when a record or an orphan went |
| `ThumbnailCache.PersistentThumbnailCache.CommitFile` | Source/src/cache/persistent_thumbnail_cache.cpp:341-346 | what the store reads back from the staged bytes is the artifact that was encoded; it counts as offered exactly from the replacement on |
| `ThumbnailCache.PersistentThumbnailCache.Reopen` | Source/src/cache/persistent_thumbnail_cache.cpp:117-119 | a new process keeps the guarantees of rows and fences, not those of the in-memory flag |
| `ThumbnailCache.OfferedForKey` | Source/src/cache/persistent_thumbnail_cache.cpp:121-227 | an artifact filed under the digest of a key was offered for that key |
| `ThumbnailCache.RevokedIsSafe` | Source/src/cache/persistent_thumbnail_cache.cpp:388-408 | an erasure keeps the invariant of the locators |
| `ThumbnailCache.BoundIsSafe` | Source/src/cache/persistent_thumbnail_cache.cpp:377-386 | so does a binding |
| `ThumbnailCache.RecordIsValid` | Source/src/cache/persistent_thumbnail_cache.cpp:341-352 | the record of an encoded artifact is accepted by the index if and only if its source and time are valid and its file is not too large |
| `ThumbnailCache.DescribesMeans` | Source/src/cache/persistent_thumbnail_cache.cpp:286-296 | a record agrees with an artifact if and only if it is the one of that artifact under a key with its source |
| `CacheLapses.ComesBack` | Source/src/cache/persistent_thumbnail_cache.cpp:121-375 | what is published is served from the disk by the next process, with its record, if nothing fails |
| `CacheLapses.ServesTheOlder` | Source/src/cache/persistent_thumbnail_cache.cpp:311-375 | a publication too large for the memory, after one that fits: file and record are the new ones, and a lookup serves the older artifact, though nothing fails |
| `CacheLapses.FollowsTheErased` | Source/src/cache/persistent_thumbnail_cache.cpp:388-408 | when row and fence of an erasure both fail, the locator is a hit again after a reopen, with a binding older than the erasure |
| `CacheMaintenance.Pruning.Prune` | Source/src/cache/cache_maintenance.cpp:33-197 | whatever fails: the erased records are the first ones in row order, none of them keeps its file, and never more than the excess go when only the entry limit is exceeded; unless a recovery empties the tables, the rows left are exactly the others, their files are kept but for one whose record could not be erased, and after a complete scan every file has a row; ok means that the reserve is reached and that the limits hold, exactly if they hold for what the last count and sum could not read; before = after + erased + orphans, in entries and in bytes, if these were read; the number of artifacts reported is the number of files that went, and what cannot begin changes nothing |
| `CacheMaintenance.Pruning.ReduceToLimits` | Source/src/cache/cache_maintenance.cpp:134-189 | the loop ends because rows only get fewer; the erased records are the first in row order and never more than the excess, whatever fails; an end without an error is conclusive about the limits |
| `CacheMaintenance.Pruning.ReduceOnce` | Source/src/cache/cache_maintenance.cpp:136-188 | a batch never takes more than the excess of entries, whatever fails |
| `CacheMaintenance.Pruning.Victims` | Source/src/cache/cache_maintenance.cpp:136-153 | one batch is the excess of entries or the batch size, whichever is less, and nothing is left when none is found |
| `CacheMaintenance.Pruning.RemoveVictim` | Source/src/cache/cache_maintenance.cpp:156-175 | the file goes before its row: whatever fails, a file whose record was erased is gone, and only the victim whose record could not be erased may lack its file |
| `CacheMaintenance.Pruning.ScanAndRemoveOrphans` | Source/src/cache/cache_maintenance.cpp:91-120 | after a complete scan without error every file has a row, unless a recovery emptied the tables |
| `CacheMaintenance.Pruning.InspectFile` | Source/src/cache/cache_maintenance.cpp:99-120 | a scanned file without a row is gone if there is no error; one with a row is kept unless a recovery emptied the tables |
| `CacheMaintenance.Pruning.Measure` | Source/src/cache/cache_maintenance.cpp:127-128 | each aggregate is what the table holds, or zero when its statement failed |
| `CacheMaintenance.Pruning.Reckon` | Source/src/cache/cache_maintenance.cpp:184-185 | what the loop decides on: the rows that are left, or zero for what could not be read |
| `CacheMaintenance.Pruning.LimitsHold` | Source/src/cache/cache_maintenance.cpp:134-189 | a conclusive end is within the limits if no statement failed, and erased exactly the excess if the count was read and only entries exceeded |
| `CacheMaintenance.Pruning.BalanceHolds` | Source/src/cache/cache_maintenance.cpp:127-132 | the numbers reported before and after balance with what was erased |
| `CacheMaintenance.LedgerIsOldest` | Source/src/cache/cache_maintenance.cpp:142-175 | records erased one by one as the least of what is left are the first ones of the initial order |
| `CacheMaintenance.VictimIsNext` | Source/src/cache/cache_maintenance.cpp:142-175 | the next victim comes before every row that is left |
| `CacheLapses.StopsOverTheLimit` | Source/src/cache/cache_maintenance.cpp:127-135 | one record, a limit of none, and a count that fails: pruning reports no error and the record stays |
| `CacheLapses.LosesSight` | Source/src/cache/cache_maintenance.cpp:127-135 | a recovery during that count: pruning reports no error, the file stays and its row is gone |

## Left out

- Leases, worker threads, mutexes and condition variables: each public call is one atomic sequence of steps, and a stop request may come between any two.
- Diagnostic texts, progress counts and completion callbacks: status and evidence are modelled, wording is not.
- The check that names fit the volume's component length, and the creation of the journal directory.
- The rewrite of a legacy record with an envelope when it is resumed, and damage to the durable journal itself.
- A rename that is committed by the service after the coordinator stopped waiting for it.
- Rules for valid and reserved file names and the local time zone: parameters of the planner. Paths are a directory and a last component.
- The read cursor of the transaction codec: decoding is a function that returns the unread rest.
- The Windows collision key and utf8proc normalization: the POSIX key and the folding fallback are modelled.
- SHA-256 compression, QOI encoding and decoding, SQL text, schema checks, write-ahead logging and file-system calls.
- A transaction that stays open after a failed COMMIT: a statement takes effect as a whole or not at all.
- The damage of single rows of the record table by others: a read that comes upon one ends in the recovery that is modelled. Rows of locators are damaged here.
- Staging files, their names and the sweep of leftover ones: the staged bytes are what is read back from them.
- ArtifactIndex.ArtifactIndex.Publish: publishes one record, because the cache never publishes more than one at a time.
- CacheMaintenance.Pruning.Prune: the free space is any number at each probe, because what an erasure frees is up to the file system.
- Accessors, the colour transform, the screen-profile cache and the directory-transfer protocol: they would add easy members only.
