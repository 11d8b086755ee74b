# A verified model of the activity-list data engine

The service keeps JSON rows of user-defined types in PostgreSQL, one table per type. This project models
the part of it where correctness comes from the interplay of several pieces, and proves what that interplay
guarantees. `dafny verify dfyconfig.toml` checks everything.

## What is modelled

**The type table under concurrency** (`Runs`, `Engine`, `EngineProof`, `EngineTheorems`, `EngineComplete`, `Walks`, `UniqueRuns`). Insert,
update, soft delete, restore and import each run as several steps: gate read before the transaction, begin,
row or table lock, check, write, commit. The state holds the committed rows, the id sequence (which no
rollback undoes), the row locks, the holders of ROW EXCLUSIVE and SHARE ROW EXCLUSIVE, and for every running
transaction its phase, what it has read and its pending writes. Statements see the rows committed at that
moment (READ COMMITTED, section 13.2.1 of the PostgreSQL documentation); the conflicts of the table locks are
those of section 13.3.1, so an update may hold a row lock while an import holds the table lock. A wait is a
step that is not enabled yet. Any transaction may abort at any time, which covers lock timeouts, deadlock
victims and failed checks. Main results: every interleaving leaves the rows of running the committed
operations one at a time in commit order, and every serial history can be produced by the steps, also when
the duplicate checks are among them. `Runs` is the notion of a run that all state machines share.

**The reference table** (`Atomic`, `Sql`, `Versions`, `Audit`, `Unique`). One operation is one function from rows to
rows or a refusal; `Replay` runs a log of them. `Sql` is the effect of single write statements. `Versions`
says what the optimistic lock gives within an import epoch and exactly when it fails across one. `Audit`
says who signs a row and when. `Unique` is the duplicate check by JSON containment, what it refuses and
serial uniqueness; `UniqueRuns` says how far it reaches when the check and the write are separate steps of
interleaved transactions.

**The registry** (`Registry`, `RegistryComplete`, `Joined`, `JoinedComplete`). Register, evolve and deprecate
as interleaved transactions over one metadata row and an append-only history; they begin in time order.
`Joined` runs registry and table together: a data write validates against a definition that it read before
it began, so what stored rows satisfy is stated against the history.

**The serial table** (`Table`, `Importing`, `Transfer`, `Filter`, `Paging`, `RoundTrip`). A class with the
rows and the sequence, whose methods follow the service's bodies: gate, validation, duplicate check,
statement; the import with its batches, in-place completion of file rows, queued inserts and sequence
setting; export; list requests with filter, cursor and page size. The methods that change rows are proved
against their reference operations, export against `RoundTrip.IsExport` and listing against `Paging.IsPage`.
Every method keeps the class invariant `Valid`, and all but an import whose commit fails keep the sequence
ahead of the stored ids. `Transfer` is the streaming array codec over tokens (array grammar of
section 5 of RFC 8259). `Paging` and `RoundTrip` hold the laws that span several requests; `Walks` carries
the paging laws over to interleaved runs.

**Pure theory** (`Validation`, `Compat`, `Like`). Row and schema validation, schema evolution as an exact
order, and keyword escaping against a LIKE matcher.

`Types` holds the shared values. JSON values are a datatype with numbers as reals; a time is an integer whose
zero is Go's zero time; ids and versions are unbounded, with the 64-bit bound written out where it decides
something. Operator names are limited to the 64 characters of their columns.

## Where the code and its documentation part

* README.md:20 and docs/activelist.md:38 promise that a read-modify-write across an import always ends in
  409, because the import resets `version`. It does not for a client whose version the reset row has reached
  again, such as version 1 (`Versions.CrossImportOverwrites`), nor for one whose row the import dropped and
  whose id a later insert has drawn again from the reset sequence (`Versions.CrossImportReusesId`).
  `Versions.CrossImportVersionCheck` says for every id exactly when an update after an import commits.
* internal/meta/meta.go:159 calls the history listing "new to old". It is ordered by `created_at`, the start
  of the writing transaction, which need not be the order of the changes: an evolve is always listed above
  the registration, a deprecate need not even be that (`Registry.ListingIsChangeOrderIff`,
  `Registry.EvolvesListedAboveRegister`, `RegistryComplete.ListingCanInvertChanges`). Everything else is
  therefore stated in insertion order.
* `setval` is not rolled back. An import that fails between setting the sequence and its commit can leave
  the sequence behind the stored ids. `EngineTheorems.StepKeepsSeqAheadIff` says exactly which steps do that,
  and `EngineTheorems.LateAbortMakesInsertCollide` is a run in which an insert then fails.
* The decoder stops at the closing bracket: what follows the array in an import file is not looked at
  (`Transfer.DecodeEncoded`).
* The keyword limit, announced as 100 characters, counts bytes (`Filter.KeywordLimitCountsBytes`).
* A keyword on a type without scalar fields is ignored, so every row is listed (`Filter.SelectedIff`).

## Model

| member | source | states |
|---|---|---|
| EngineProof.EveryRunIsSerial | internal/service/data_service.go:81-310 | after any interleaving of the five operations the committed rows are those of running the committed operations one at a time in commit order, none refused |
| EngineProof.CommitIsAtomic | internal/service/data_service.go:185-235 | what a transaction makes visible at commit is its whole operation applied to the rows committed at that moment, although it read and checked earlier |
| EngineProof.WriteRowMatches | internal/repository/data.go:140-197 | the UPDATE re-reads the row, and the row lock taken before makes it write exactly what the operation makes of the row that was locked and checked |
| EngineProof.StepKeepsInv | internal/service/data_service.go:81-482 | every step of every transaction keeps the table invariant: locks held back what each phase relies on, and the log replays to the rows |
| EngineProof.CommitPreservesOther | internal/repository/transfer.go:43-63 | one transaction's commit takes away nothing another relies on: locked rows stay as read, an import's cleared table stays cleared |
| EngineComplete.SerialHistoryIsARun | internal/service/data_service.go:81-482 | converse of serializability, duplicate checks included: every serial history the reference table takes behind the checks, with ids as the sequence draws them and whatever key each writer has read, is produced by some run of the checked steps |
| EngineComplete.CheckedRunIsRun | internal/service/data_service.go:357-379 | every run of the steps with duplicate checks is a run of the steps without, so what is proved of all runs holds of them |
| EngineComplete.OverlappingInsertsClash | internal/service/data_service.go:357-363 | the registered limit of the check: for every row with a complete key, two overlapping inserts both pass it and leave two active rows with that key |
| UniqueRuns.CheckedRunKeepsKeys | internal/service/data_service.go:357-379 | with the check and the write as separate steps of interleaved transactions and no import committing, keys stay unique as long as no two transactions past their checks are about to leave the same complete key; it holds for stale keys too, when evolutions only added to them |
| UniqueRuns.SeparateWritesKeepKeys | internal/service/data_service.go:357-363 | in particular when the stretches from check to commit do not overlap |
| UniqueRuns.RivalsCanClash | internal/service/data_service.go:360-363 | the condition is needed: whenever two transactions past their checks share a complete key, and the table is not locked by an import nor the sequence behind or exhausted, both can write and commit and the key is held twice |
| UniqueRuns.MovesAreSteps | internal/service/data_service.go:81-310 | a run with separate checks is a run of the table without them |
| UniqueRuns.CheckedStepsAreMoves | internal/service/data_service.go:81-310 | a check at the moment of the write is a check followed by the write, so what the checked steps produce, runs with separate checks produce |
| EngineComplete.ImportRunsAlone | internal/service/data_service.go:409-482 | an acceptable file goes through the locked import for every batch size and leaves its rows and MAX(id)+1 |
| EngineTheorems.ImportCommitIsReplacement | internal/repository/transfer.go:43-120 | when an import commits under any interleaving, it has deleted every committed row, the rows are exactly the normalised file rows, and the next id is the largest id plus one |
| EngineTheorems.NothingPendingWhileReplacing | internal/repository/transfer.go:43-54 | while an import holds its lock no other transaction has pending writes and no other import is past its own lock |
| EngineTheorems.RowsFrozenWhileReplacing | internal/repository/transfer.go:43-54 | from its lock to its end an import sees the committed rows unchanged, so an aborted one has changed nothing |
| EngineTheorems.ImportLockConflicts | internal/repository/transfer.go:43-54 | while an import holds its lock no other transaction inserts, writes a row or takes that lock; locking a row and committing are as ever |
| EngineTheorems.ImportWaitsFor | internal/repository/transfer.go:43-63 | the import's lock waits for writers of the table and for another import and not for row locks; clearing the table waits for the row locks |
| EngineTheorems.RowLockGrantedIff | internal/repository/data.go:140-155 | a row lock is granted exactly when the row is there and unlocked, and returns the row as committed |
| EngineTheorems.RowLockUnderImportLock | internal/repository/data.go:140-155 | a run in which a delete holds the row and an import the table, each waiting for the other |
| EngineTheorems.RunHasNoLostUpdate | internal/repository/data.go:157-176 | of two committed updates of a row without an import between them, the later one named the version the earlier one and the changes in between produced, in every run |
| EngineTheorems.StepKeepsSeqAheadIff | internal/repository/transfer.go:109-120 | a step keeps the sequence ahead of every stored and pending id if and only if it is not the abort, after setval, of an import whose ids stop short of a stored one |
| EngineTheorems.RunKeepsSeqAhead | internal/repository/transfer.go:109-120 | the sequence stays ahead over every run without such a harmful abort |
| EngineTheorems.NextIdIsFree | internal/repository/data.go:82-94 | after every run without a harmful abort the id an insert draws is not in use |
| EngineTheorems.LateAbortKeepsSeqAheadIff | internal/repository/transfer.go:109-120 | an import aborting after setval leaves the sequence ahead if and only if no stored positive id exceeds all its file's ids |
| EngineTheorems.RewoundIsReachable | internal/service/data_service.go:472-480 | a run reaches the state in which an empty import has rewound the sequence below a stored id |
| EngineTheorems.LateAbortMakesInsertCollide | internal/repository/transfer.go:109-120 | aborting there makes the next insert draw an id in use and fail |
| Atomic.LoadIsFile | internal/repository/transfer.go:65-107 | loading a file with distinct ids gives exactly its rows, each once, with version 1 and defaults filled in |
| Atomic.ImportSucceedsIff | internal/service/data_service.go:435-482 | an import succeeds exactly when ids are positive, distinct and short of the last 64-bit one, statuses legal or empty, operators within 64 characters, and all data conforms, absent data as the empty row |
| Atomic.IsMaxIdIff | internal/repository/transfer.go:109-120 | the reported maximum is the largest id of the file, 0 for an empty one |
| Atomic.ReplayKeepsTableOk | internal/repository/data.go:82-197 | every committed history keeps ids positive, versions at least 1, statuses legal, operators non-empty and within their column, times set |
| Atomic.ReplaySplit | internal/service/data_service.go:185-235 | replaying a history in two parts is replaying it whole, also for refusals |
| Versions.RowIsFoldOfChanges | internal/service/data_service.go:204-235 | without imports a row's data is the fold of the committed merges, its version grows by one per change, repeated deletes or restores change nothing |
| Versions.InsertedRowVersion | internal/repository/data.go:82-94 | counted from its insertion a row's version is 1 plus the number of its committed changes, its status and data are the folds of those changes |
| Versions.VersionDeterminesRow | internal/repository/data.go:157-197 | within an import epoch id and version determine the whole row |
| Audit.AuditFollowsChanges | internal/repository/data.go:157-197 | without imports updated_by and updated_at of a row are those of the last operation that changed it, an empty operator being "system"; created_by and created_at never change |
| Audit.InsertedRowAudit | internal/repository/data.go:82-94 | an inserted row is created and last changed by its inserter until another operation changes it |
| Audit.ImportedColumns | internal/repository/transfer.go:65-107 | column by column what an import stores for a file row: version 1, open status active, absent data empty, the file's operators and times with only the holes filled |
| Audit.EveryRunSignsRows | internal/service/data_service.go:81-310 | in every interleaved run a row inserted after the last import is signed by its inserter and by the last transaction that committed a change of it |
| Versions.PredicatesGuardAlone | internal/repository/data.go:157-197 | the version predicate guards callers that bypass the row lock: the UPDATE finds no row exactly when the row has changed since it was read; the status predicate likewise |
| Versions.AtMostOneUpdatePerVersion | internal/repository/data.go:157-176 | in one epoch a later update names a higher version than an earlier one, by exactly the changes in between plus one |
| Versions.ImportedRowAfter | internal/repository/transfer.go:65-88 | an imported row's version is 1 plus the changes since the import, its status and data are the folds of those changes over the file's row |
| Versions.CrossImportVersionCheck | internal/repository/transfer.go:65-120 | for every update after an import and further changes: for a row of the file it commits if and only if its version is 1 plus the changes since the import, the row is active, the merge conforms and the operator fits; for a row inserted since, the same counted from the insertion; for any other id it is refused |
| Versions.VersionOneOverwritesImport | internal/service/data_service.go:211-217 | the special case that contradicts the documented 409: version 1 commits over a freshly imported active row whatever the client had read |
| Versions.CrossImportOverwrites | README.md:20 | the documented 409 across imports is false: a concrete run in which a pre-import reader overwrites a row it never saw |
| Versions.CrossImportReusesId | internal/repository/transfer.go:109-120 | it fails in a second way: the import drops a row, an insert draws its id again, and a client that had read the dropped row at version 1 overwrites the new one |
| EngineComplete.IdReuseIsARun | internal/service/data_service.go:81-482 | the steps of the service produce that history |
| Versions.RemovedKeyBlocksUpdates | internal/service/data_service.go:484-495 | a row with a key outside every schema that updates use keeps its data and no update of it commits, until an import |
| Versions.UpdatableIff | internal/service/data_service.go:204-235 | some update of a row with its right version commits if and only if the row is active and all its keys are in the schema |
| Unique.FindActiveDupID | internal/repository/data.go:96-125 | finds another active row that contains the complete key, exactly when one exists; an incomplete key is never looked up |
| Unique.SelectHolder | internal/repository/data.go:114-125 | the SELECT returns some active row other than the excluded one that contains the key, or none exists |
| Unique.DupConflictIff | internal/repository/data.go:96-125 | for scalar key values the check refuses a write exactly when there is a key, the write provides all of it, and an active row other than the excluded one has exactly these values |
| Unique.CheckRefusesExactly | internal/service/data_service.go:357-379 | the check refuses exactly the inserts, updates and restores after which two active rows would agree on a complete key, and never a delete |
| Unique.ConformingKeyIsScalar | internal/validation/schema.go:113-142 | data that conforms to a well-formed schema has scalar values in its unique fields |
| Unique.ListContainsIff | internal/repository/data.go:110-116 | containment of lists of scalars is inclusion, order and repetition aside |
| Unique.CheckedApplyKeepsKeysUnique | internal/service/data_service.go:357-379 | one checked insert, update, delete or restore keeps complete keys unique among active rows; excluding id 0 is sound as ids are positive |
| Unique.SerialRunKeepsKeysUnique | internal/service/data_service.go:292-305 | serial uniqueness: no two active rows agree on a complete key after any import-free serial run, through every evolution that only adds key fields |
| Unique.KeysSurviveIff | internal/service/data_service.go:357-379 | over all tables whose rows each conform to some schema of the history, a change of key keeps uniqueness if and only if it drops the key, only adds to one, or names fields that no schema so far has all of |
| Registry.StepKeepsInv | internal/service/type_service.go:32-186 | every step of register, evolve and deprecate keeps the registry invariant |
| Registry.EveryRunAgrees | internal/meta/meta.go:82-157 | in every reachable state the history is one register, evolves, then at most one deprecate that repeats the schema, and no evolve began before the registration; its last entry is the current schema; version is 1 plus the evolves |
| Registry.CommitFitsHistory | internal/meta/meta.go:143-157 | in every run a committed register founds the type, a committed evolve named the version in force at its commit and brings its own schema, a committed deprecate ends an active type and keeps its schema |
| Registry.EvolvesNameRisingVersions | internal/service/type_service.go:94-128 | of two committed evolves the later one named a higher version, so none overwrites another it has not seen |
| Registry.VersionIsHistoryLength | internal/meta/meta.go:281-290 | the version of a type is the length of its history, in which a deprecate does not count |
| Registry.EverySchemaIsValid | internal/service/type_service.go:32-43 | every schema in a history is well formed and has a legal unique key |
| Registry.DeprecatedIsFinal | internal/meta/meta.go:281-290 | nothing that runs after a deprecation changes the row or the history |
| Registry.HistoryIsAppendOnly | internal/meta/meta.go:118-130 | committed history is only ever extended |
| Registry.ListingIsChangeOrderIff | internal/meta/meta.go:159-188 | the listing shows the newest change first exactly when the writing transactions began in commit order |
| Registry.EvolvesListedAboveRegister | internal/meta/meta.go:159-188 | in every run no evolve is listed below the registration |
| RegistryComplete.HistoriesExactly | internal/service/type_service.go:32-186 | with transactions beginning in time order, some run commits a given history if and only if it has the registry's shape and no evolve of it began before the registration |
| RegistryComplete.ListingCanInvertChanges | internal/service/type_service.go:151-186 | for all schemas and times a run commits a deprecate last that is listed below the evolve it followed, and one that is listed below the registration |
| Joined.EveryRowConformsToHistory | internal/service/data_service.go:66-113 | in every reachable state of registry and table together each stored row validates under some schema of the type's history, despite stale gate reads |
| JoinedComplete.GateOpensIff | internal/service/data_service.go:66-78 | after every run the gate of a content write opens exactly when the type is registered and not deprecated, and hands over the fields of the last schema |
| JoinedComplete.ContentWriteNeedsGate | internal/service/data_service.go:81-88 | an insert, update or import begins only with the fields that its own gate has handed over |
| JoinedComplete.LifecycleNeedsNoGate | internal/service/data_service.go:61-65 | soft delete and restore begin whatever the state of the type |
| JoinedComplete.ConformingRowCanBeStored | internal/service/data_service.go:81-113 | for every valid schema and every row conforming to it some run registers the schema, passes the gate and stores the row |
| Joined.CompatibleEvolutionsNeedNoMigration | README.md:19 | if every evolution was compatible, every stored row validates under the current schema, under all interleavings |
| Validation.ValidateData | internal/validation/data.go:19-45 | accepts exactly the conforming rows for any iteration order of the map; a refusal's reason is true of the row |
| Validation.CheckValue | internal/validation/data.go:51-110 | accepts exactly the values of the field's type within its effective limits, and null |
| Validation.ValueOkIff | internal/validation/data.go:51-133 | what each type accepts besides null: whole numbers, strings of at most max_chars or 255 characters, lists of at most max_list_items or 100 such elements |
| Validation.ConformsIff | internal/validation/data.go:19-45 | with distinct names a row conforms exactly when each of its keys is a field whose value fits and each required field is there and not null |
| Validation.KnownIsLast | internal/validation/data.go:19-24 | the lookup by name returns the last field of that name |
| Validation.IndexFields | internal/validation/data.go:19-24 | the filled map is the name lookup in which a later duplicate wins |
| Validation.ValidateForWrite | internal/service/data_service.go:318-346 | FIELD_DEPRECATED only for a field absent now and present in history; NEW_REQUIRED_FIELD only on updates of rows otherwise well typed; anything else keeps its truthful reason |
| Validation.FieldExistedInHistory | internal/meta/meta.go:190-219 | true exactly when some schema of the history names the field |
| Validation.ValidateFields | internal/validation/schema.go:202-251 | accepts exactly the well-formed schemas; the reserved-name error only when a reserved name is there |
| Validation.WellFormedIff | internal/validation/schema.go:202-251 | a schema is well formed exactly when it has a field, as many names as fields, and every field is in order |
| Validation.FieldOkIff | internal/validation/schema.go:202-251 | which limits each type may set and how far, and the eight names that are taken |
| Validation.FieldNamesGrow | internal/validation/schema.go:202-251 | names grow from one lower-case letter by lower-case letters, digits and underscores up to 63 |
| Validation.ValidateUniqueFields | internal/validation/schema.go:113-142 | accepts exactly lists of distinct scalar fields of the schema; a 422 names a field that is unknown, a list or repeated |
| Validation.UniqueOkIff | internal/validation/schema.go:113-142 | for a well-formed schema the legal unique keys are lists of as many different names as entries, each of an int or string field |
| Compat.CompatibleIffKeepsEveryRow | internal/validation/data.go:19-127 | for well-formed schemas every row of the one is accepted by the other if and only if fields stay, types stay, effective limits do not shrink and nothing becomes required |
| Compat.Separator | internal/validation/data.go:51-127 | when a type differs or a limit shrinks, a value that the old field takes and the new one refuses |
| Compat.IncompatibleLosesRow | internal/validation/data.go:19-45 | every incompatible evolution loses some valid row, given explicitly |
| Compat.RepairableIff | internal/service/data_service.go:484-495 | a merge can make a row valid if and only if the row's keys are all in the schema |
| Like.KeywordMatches | internal/repository/data.go:211-236 | the escaped pattern matches a text exactly when the keyword is a contiguous part of it |
| Like.KeywordSearchIsLiteral | internal/repository/data.go:211-236 | the folded pattern is always well formed and matches the folded text exactly when the folded keyword occurs in it |
| Like.PatternMeaning | internal/repository/data.go:211-236 | the pattern language as PostgreSQL defines it: percent any run, underscore any one character, a backslash the next character, every other character itself |
| Like.EscapedIsLiteral | internal/repository/data.go:211-215 | an escaped keyword in a pattern matches itself literally and nothing else |
| Filter.TrimmedTakesOuterSpace | internal/service/data_service.go:148 | trimming the keyword takes white space off both ends, all of it and nothing else |
| Filter.KeywordLimitCountsBytes | internal/service/data_service.go:149-152 | the announced limit of 100 characters and the byte limit of the code agree if and only if the keyword fits in 100 bytes or has more than 100 characters: for all of ASCII, not for 34 three-byte characters |
| Filter.CheckFilter | internal/service/data_service.go:148-179 | refuses exactly a trimmed keyword of more than 100 bytes, an unpaired field or value, an unknown field or a list field, and names it |
| Filter.FilterOkIff | internal/service/data_service.go:148-179 | a filter is legal exactly when its keyword has at most 100 bytes and it names neither field nor value, or a value and an int or string field of the schema |
| Filter.Characters | internal/service/data_service.go:148-152 | the byte widths that the limit counts, and exactly which characters are trimmed as white space |
| Filter.ScalarFields | internal/service/data_service.go:153-158 | collects exactly the names of int and string fields |
| Filter.SelectedIff | internal/repository/data.go:221-243 | the WHERE clause selects a row exactly when it is active, or deleted and deleted rows are asked for, an int or string field contains the keyword up to case (ignored without such fields), and the named field has the value |
| Paging.ListDocs | internal/repository/data.go:217-268 | returns the first rows in descending (created_at, id) order among the selected ones below the cursor |
| Paging.PageIsUnique | internal/repository/data.go:217-268 | table, filter, cursor and limit determine the page |
| Paging.PageIsNewestFirst | internal/repository/data.go:239-243 | a page is newest first, the higher id first among equals, and strictly below the cursor |
| Paging.WalkDescends | internal/handler/data.go:84-99 | over tables that change between the pages the keys returned strictly decrease |
| Paging.WalkNeverRepeats | internal/handler/data.go:84-99 | no row is returned twice |
| Paging.WalkIsComplete | internal/repository/data.go:217-268 | a finished walk has returned exactly once every row that matched the filter at each request |
| Paging.HistoryIsStable | internal/repository/data.go:140-197 | inserts, updates, deletes and restores between pages keep rows and their sort keys, as the walk results need |
| Walks.RunIsAlongHistory | internal/repository/data.go:217-268 | what successive moments of one interleaved run have committed are tables along that run's committed history |
| Walks.WalkOverRunIsComplete | internal/handler/data.go:84-99 | a walk whose pages are read while transactions interleave, no import committing, returns no row twice, and when finished has returned exactly once every row that matched at each request |
| Paging.ParseCursor | internal/handler/data.go:164-187 | the two cursor parameters are accepted exactly when both are absent or both are there and parse, and then give that cursor |
| Paging.HandlerPageSize | internal/handler/data.go:53-72 | the effective page size is within [1, max], the requested one when that is, the default for 0 |
| Paging.ServicePageSize | internal/service/data_service.go:142-147 | the second clamp leaves every size the first lets through unchanged |
| Paging.PageCount | internal/handler/data.go:84-99 | on a table at rest with N matching rows no walk makes more than floor(N / size) + 1 requests, and its last page is short exactly when it has made them all |
| Transfer.EncodeDocs | internal/transfer/transfer.go:24-51 | succeeds exactly when neither the query nor the output breaks, and then has written the encoded array; any error leaves a proper beginning of it, possibly cut inside a document |
| Transfer.CutShortIsRejected | internal/transfer/transfer.go:22-95 | what a broken export leaves behind is never decoded |
| Transfer.EncodedShape | internal/transfer/transfer.go:24-51 | brackets around, documents at the odd places, commas between them, nothing else |
| Transfer.DocIter.Next | internal/repository/transfer.go:21-41 | yields each row once, in order, then the end or the error that broke the query off |
| Transfer.Decoder.Decode | internal/transfer/transfer.go:57-95 | reads one document with the comma due before it, in step with the grammar |
| Transfer.ParseOkIff | internal/transfer/transfer.go:57-95 | the decoder accepts exactly the streams that begin with an encoded array, and reads that array's documents |
| Transfer.DecodeEncoded | internal/transfer/transfer.go:24-95 | decoding an encoded sequence yields it back, whatever follows it |
| Transfer.TruncatedIsRejected | internal/transfer/transfer.go:57-95 | every proper prefix of an encoded stream is rejected, also when it ends inside a document |
| Transfer.CutFailsAsItEnds | internal/transfer/transfer.go:55-95 | a stream that ends between tokens fails as it ends, so running into the size limit is told from a malformed file |
| Transfer.Exported | internal/repository/transfer.go:21-41 | an exported document names every column of its row, the version included |
| Importing.ImportSession.CheckRows | internal/service/data_service.go:437-461 | succeeds exactly when every row of the batch has a positive id, a legal or empty status and conforming data, and completes the batch in place |
| Importing.ImportSession.InsertImportBatch | internal/repository/transfer.go:65-107 | succeeds exactly when the rows loaded so far and the batch have distinct ids and storable operators, and then holds both |
| Importing.ImportSession.Handle | internal/service/data_service.go:437-464 | one callback extends the loaded file by its batch exactly when the whole stays acceptable |
| Importing.ReadBatch | internal/transfer/transfer.go:66-84 | a batch is non-empty, and full unless the array has ended |
| Importing.DecodeBatches | internal/transfer/transfer.go:57-95 | for any batch size of at least 1 it ends, succeeds exactly when the whole stream parses and all rows are acceptable, and delivers in-order, non-empty batches that are full but for the last |
| Importing.BatchingIsUnique | internal/transfer/transfer.go:66-84 | there is one way to cut a file into such batches |
| Table.TypeTable.Insert | internal/service/data_service.go:81-113 | succeeds exactly when the gate is open, the reference insert takes the row and no active row holds its key, and then equals it, with the row stated column by column; otherwise the error: deprecated, the mapped validation error, the conflict with the holder's id, or 500 for an operator too long or a sequence that is exhausted or behind |
| Table.TypeTable.Update | internal/service/data_service.go:185-235 | equals the reference update behind the duplicate check: next version, merged data, signed by the operator at this time, all else kept; otherwise the rows are untouched and the error is that of the first failing check: deprecated, version missing, not found, deleted or stale, the mapped validation error, the conflict with the holder's id, or 500 for an operator too long |
| Table.TypeTable.SoftDelete | internal/service/data_service.go:238-270 | equals the reference delete: next version, deleted, signed, all else kept; a deleted row is returned as it is; 404 or, for an operator too long, 500 |
| Table.TypeTable.Restore | internal/service/data_service.go:273-310 | equals the reference restore behind the duplicate check: next version, active, signed, all else kept; an active row is returned as it is; each refusal with its error |
| Table.TypeTable.CheckUniqueDup | internal/service/data_service.go:357-379 | conflict exactly when there is a key and another active row holds it; the error carries the id of such a row |
| Table.TypeTable.SetSequenceAfterImport | internal/repository/transfer.go:109-120 | the sequence becomes MAX(id)+1, 1 for an empty table, and overflow fails exactly when the largest id is the last 64-bit one |
| Table.TypeTable.Import | internal/service/data_service.go:409-482 | for any batch size: succeeds exactly when the stream parses, all rows are acceptable and the commit succeeds; then rows, sequence and the reported counts are the file's; otherwise the rows are untouched; the table stays valid, and the sequence stays ahead unless the commit fails with a stored id beyond the file's |
| Table.TypeTable.Export | internal/service/data_service.go:392-403 | streams every row, deleted ones too, once and in id order; what a failed export has written no import accepts |
| Table.ExportThenImport | internal/service/data_service.go:392-482 | exporting one table and importing into another or the same: succeeds exactly when the type is not deprecated and the rows are reimportable, and the target is then the source with versions reset; otherwise it is as before |
| Table.TypeTable.ListData | internal/handler/data.go:48-100 | a page of the selected rows, by the trimmed keyword, newest first, with its effective size and a cursor exactly when it is full; without any filter and cursor a page that is not full lists exactly the active rows, and the deleted ones when asked for; refuses exactly the illegal filters, naming the field |
| Table.MergeData | internal/service/data_service.go:484-495 | keys of the patch win, all others stay, none is removed |
| RoundTrip.ExportThenImport | internal/service/data_service.go:392-482 | export then import is the identity but for version 1 exactly when every row validates under the current schema (and no id is the last 64-bit one); otherwise it is refused |
| RoundTrip.ExportThenImportStream | internal/repository/transfer.go:19-41 | the same law over the token stream, whatever follows the array: it parses, its rows are acceptable exactly when all stored rows validate, and importing it gives the rows with versions reset or is refused |
| RoundTrip.ReimportIsIdempotent | internal/repository/transfer.go:65-88 | importing a file that names its times again gives the same table, at any later time |
| RoundTrip.ReimportNeedsTimes | internal/service/data_service.go:450-455 | for acceptable files, and two different times, only such files do |

## Left out

- HTTP binding, envelopes, routing, authentication, access logs, configuration, migrations, pools and DDL: plumbing. `page_size_max >= page_size_default > 0` and a positive batch size are preconditions, as the configuration checks them.
- SQL text and plans: a statement is its effect on the state.
- JSON lexing: a document is one token. Numbers are reals, so rounding of large integers and number text are not modelled, nor are characters that JSONB cannot store.
- RFC 3339 parsing and wall clocks: times are parameters. The lock timeout is an abort at any time.
- Deadlock freedom and progress: an update holding a row lock and an import holding the table lock can wait for each other until one aborts; only safety is proved.
- Concurrent uniqueness: the duplicate check is a SELECT before the write (internal/service/data_service.go:360-363); it holds for serial runs, and for interleaved ones exactly as far as UniqueRuns.CheckedRunKeepsKeys and UniqueRuns.RivalsCanClash say. Imports do not check keys at all.
- EngineTheorems.RunKeepsSeqAhead: excludes the aborts after setval that leave the sequence behind, because with one the property is false (EngineTheorems.StepKeepsSeqAheadIff); a later import can mend it.
- The gate's 404 for an unknown type: the methods take the definition that the gate has read.
- Table.TypeTable.Import: which of several faults of a file is reported may depend on the batch size; success, rows, sequence and counts do not. `commits` stands for the final commit succeeding.
- Table.TypeTable.Export: one query snapshot.
- Paging.WalkIsComplete: the filter is one fixed predicate for the whole walk, and no import runs between its pages.
- Class form of the registry: register, evolve and deprecate are modelled as steps of a state machine, not as methods of a class, because what they guarantee concerns their interleavings. Their error codes are not distinguished, and the operators and times on the metadata row are not modelled.
- Type-name rules, display data of the rules endpoint, error wording: no hard property.
- docs/activelist.md from line 42 on: a superseded design without code.
