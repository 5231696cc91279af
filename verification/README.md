# Goodnight Check, verified

Goodnight Check runs Nuclei scans on scanner nodes and keeps, for every finding ever seen, one lifecycle
row: first and last scan that saw it, the last scan that covered it, and how often it was mitigated and came
back. This project models the parts of that system whose correctness is not obvious from reading one
function, and proves what they promise.

`dafny verify dfyconfig.toml` checks the whole project (Dafny 4.11).

## What is modelled

**Finding lifecycle.** `Timeline` is the replay of one finding's history. `LifecycleDb` holds the tables and
each transaction as a function from tables to tables: ingest, completion, deletion with its repair.
`LifecycleRuns` proves that the rows maintained step by step equal the replay over any in-order run with
deletions. `LifecycleDelete` proves the affected set complete and deletions commutative with no assumption
about order. `LifecycleInterleavings` says what the pointers mean when scans overlap in any way.
`LifecycleDigest` and `SeverityTally` cover the mailed digest. `LifecycleStore` is the same logic as a class
that updates its tables in place, each method proved against the corresponding function.

The equality with the replay is stated for orderly runs (`LifecycleRuns.Orderly`): scans ingest and complete
one at a time in (created_at, id) order; scans with results complete; a finding keeps its endpoint and names a
template; stored coverage is a well-formed array. Over several target scopes it holds after every event exactly
when each newly associated target brings no claim that opens a mitigation cycle of its own
(`LifecycleRuns.AgreesAllAlongIff`, with the condition `ScopeIsHarmless` on the tables before the scan;
`TimelineGaps` is the counting argument). With a single target scope that always holds
(`LifecycleRuns.SingleScopeIsHarmless`). `FailedScanInSyncIff` and `RowStaysInSyncIff` say exactly which rows
fall out of step after a failed scan, a malformed coverage array or a late association, and `LifecycleLimits`
shows concrete histories in which it happens.

**Findings filter.** `FindingQuery` compiles OR-of-AND groups to tokens and bound arguments, `SqlCondition`
reads tokens with SQL's operator precedence and evaluates them in three-valued logic, `FilterMeaning` says
what a filter means on the values as given (`FilterOperands`, `FilterFields`), and the clause is proved to
select just that. `LikeEscape` covers LIKE patterns
(section 8.5 of ISO/IEC 9075-2).

**Scanner node and backend protocols.** `NodeSafety` runs starts, cancels, finishes, bundle pushes and
deletions as critical sections in any order, with the classes of `ScannerParts`. `ScanProtocol` does the same
for scan rows, the notification outbox and mail. `BackendAdmission` is the backend's per-node limit.

**Bytes.** `ZipRecords`, `ZipDirectory` and `ZipAcceptance` are the central directory check (sections 4.3.12
to 4.3.16 of PKWARE APPNOTE.TXT). `FindingLines`, `OutputCapture` and `CoverageTrace` are the bounded line
readers and the ring buffer; `Export` and `SarifExport` the byte-budgeted exporters. `ByteStrings`, `ScanStates` and `Wrappers` are
shared.

**Identities, addresses, names.** `ResultIdentity` is the canonical identity and the dedup key, `Cidr` and
`NodeRegistry` are address ranges (section 3.1 of RFC 4632), scope and node selection, and `TemplateImport`
plans an import with its search for a free id.

## Where the code and its description differ

- A lifecycle row is dropped by repair when only failed scans still hold occurrences of it, although the
  comment speaks of rows with no surviving occurrence (`LifecycleDelete.SeenIffObserved`; a history in which it
  happens is `LifecycleLimits.FailedEvidenceIsDropped`).
- One undecodable element in a stored coverage array: completion skips the element, repair discards the
  whole array (`LifecycleRuns.RowStaysInSyncIff`, `LifecycleLimits.JunkBreaksSync`).
- A target that comes to a finding late brings along claims it made before; the replay counts mitigation cycles
  from them that the row never counted (`LifecycleRuns.LateAssociationBreaksSync`,
  `LifecycleLimits.LateAssociationHappens`).
- A repeated completion can move the covering pointer of a row that appeared in between
  (`LifecycleInterleavings.RetryChangesRowIff`); the outbox is never changed by a retry.
- A completion reaching a failed scan makes it complete, so both kinds of mail exist
  (`ScanProtocol.LateCompletionOfFailed`).
- `not_contains` is not the complement of `contains` on NULL columns (`FilterMeaning.ContainsComplementaryIff`,
  `FilterMeaning.NullHostIsMissed`). The schema lets name, host and matched_at be NULL
  (internal/store/migrations/0001_init.sql:29-32); the ingest statement always binds strings to them
  (internal/store/lifecycle.go:212-258), so such rows come from elsewhere.
- A completed or failed job can be deleted from the node while its goroutine still holds the shared template
  lock (`NodeSafety.CompletedJobDeletedUnderLock`); only a closed done channel would tell that it has let go
  (`NodeSafety.DeletableJobIsReleasedIff`).
- A JSON export with rows needs 5 bytes, not the 3 of the empty document (`Export.StreamFindingsJSON`).
- A generated template id can be written twice when the archive brings the same id as a fresh template later
  (`TemplateImport.WritesAreDistinctIff`, `TemplateImport.GeneratedIdWrittenTwice`).
- Deleting the last catch-all node is refused, giving it ranges is not (`NodeRegistry.Registry.Update`,
  `NodeRegistry.UpdateLastCatchAll`).

## Model

| member | source | states |
|---|---|---|
| Timeline.ComputeLifecycleTimeline | internal/store/lifecycle_repair.go:18-47 | The replay loop computes, for any scan list, coverage predicate and occurrence map, the pointers and counter of the fold over the covered scans, and the occurrence of the last one |
| Timeline.ReplayShape | internal/store/lifecycle_repair.go:18-47 | Which pointers a replay sets, and that each is a covered scan of the list (first and last also observing ones) |
| Timeline.ReplayPointers | internal/store/lifecycle_repair.go:18-47 | First and last are the first and last covered scans that saw the finding, covering is the last covered scan |
| Timeline.TimesCountsAbsentRuns | internal/store/lifecycle_repair.go:18-47 | times_mitigated is exactly the number of maximal covered-absent runs between two covered-present scans |
| Timeline.RemovingOneScan | internal/store/lifecycle_repair.go:18-47 | Taking out any one scan, the coverage of the others unchanged, leaves the counter the same or lowers it by one |
| Timeline.ReplayWithoutUncovered | internal/store/lifecycle_repair.go:18-47 | A scan that does not cover the finding can be left out of the replay |
| Timeline.EarlyAbsencesDoNotMatter | internal/store/lifecycle_repair.go:18-47 | Covered absences before the first observation change nothing once the finding has been observed |
| TimelineGaps.ExtraAbsencesCountIff | internal/store/lifecycle_repair.go:18-47 | Extra covered absences, followed by one more observation, leave times_mitigated as it was exactly when each of them lies before the first observation or in a gap that already held an absence; otherwise they raise it |
| LifecycleDb.ChronologicalOrder | internal/store/lifecycle_repair.go:97-109 | The scans are replayed in the total order of (created_at, id), each exactly once |
| LifecycleDb.DeleteKeepsConsistent | internal/store/store.go:911-1051 | After a deletion no pointer or occurrence refers to a row that is gone |
| LifecycleDelete.SeenIffObserved | internal/store/lifecycle_repair.go:207-217 | A repaired row survives exactly when a complete scan observed the finding: an occurrence in a failed scan alone does not keep it, unlike the comment at lines 56-57 says |
| LifecycleDelete.UnaffectedTimeline | internal/store/store.go:934-978 | For every finding outside the affected set, in any number of target scopes, the timeline without the deleted scan is the same |
| LifecycleDelete.AffectedSetIsComplete | internal/store/store.go:934-1051 | After a deletion every affected row is dropped exactly when no other complete scan observed it and otherwise is its replay; every other row and its replay are untouched |
| LifecycleDelete.AfterTwoDeletions | internal/store/store.go:911-1051 | The row two deletions leave, stated without reference to their order |
| LifecycleDelete.DeletionsCommute | internal/store/store.go:911-1051 | Deleting two scans gives the same tables in either order |
| LifecycleRuns.IncrementalIsReplay | internal/store/lifecycle.go:212-258 | Over any run of in-order completing scans mixed with deletions, every row kept by upsert, completion and repair has exactly the pointers and counter the replay of the surviving tables gives |
| LifecycleRuns.RunScanKeepsSyncIff | internal/store/store.go:467-529 | One scan with well-formed coverage, ingested and completed in order, keeps every row equal to its replay exactly when each observed finding is associated with the scan's target already, or the target's earlier claims on it fall before its first observation or into gaps covered as absent anyway |
| LifecycleRuns.DeleteKeepsSync | internal/store/lifecycle_repair.go:58-228 | A deletion keeps every row equal to its replay |
| LifecycleRuns.RowStaysInSyncIff | internal/store/lifecycle_repair.go:129-203 | Row by row and for any coverage: an observed row stays equal to its replay exactly under that scope condition, any other row exactly when completion and repair read the scan's coverage of it alike, which an undecodable element prevents |
| LifecycleRuns.AgreesAllAlongIff | internal/store/lifecycle.go:212-258 | For an in-order run over any number of scopes, rows and replay agree after every event exactly when the scope condition holds at every event |
| LifecycleRuns.HarmlessIsFilled | internal/store/lifecycle_repair.go:184-203 | The scope condition, which reads only the tables before the scan, says exactly that the claims the late association adds to the replay fill no empty gap |
| LifecycleRuns.EmptyHandedKeepsSync | internal/backend/orchestrator.go:800-808 | A scan that ends without results and without completing leaves every row equal to its replay |
| LifecycleRuns.FailedScanInSyncIff | internal/backend/orchestrator.go:488-498 | After a failed scan's partial ingest a row equals its replay exactly when the failed scan did not observe it |
| LifecycleRuns.SingleScopeIsHarmless | internal/store/store.go:510-518 | With one target scope, the scope condition of the equality always holds |
| LifecycleRuns.LateAssociationBreaksSync | internal/store/lifecycle_repair.go:184-203 | Whenever the scope condition fails for an observed finding, its row keeps the right pointers and a counter that is too low |
| LifecycleLimits.LateAssociationHappens | internal/store/lifecycle_repair.go:184-203 | A concrete run of three scans and two targets in which that happens |
| LifecycleLimits.JunkBreaksSync | internal/store/lifecycle_repair.go:129-145 | From empty tables, one scan and then one whose coverage array holds an undecodable element leave a row whose covering scan the replay denies |
| LifecycleLimits.FailedEvidenceIsNotEnough | internal/store/lifecycle_repair.go:207-217 | Deleting the only complete scan that observed a finding drops its row, whatever failed scans still hold, and unlinks their occurrences |
| LifecycleLimits.FailedEvidenceIsDropped | internal/store/lifecycle_repair.go:207-217 | From empty tables, a complete and a failed scan of the same finding and the deletion of the complete one, which drops the row while the failed scan's occurrence survives |
| LifecycleInterleavings.PointersUnderInterleaving | internal/store/lifecycle.go:212-256 | Under every interleaving of inserts, ingests, completions and imported coverage, first is the oldest and last the newest observing scan, covering the newest scan that covered the row when it completed, and the counter stays below the number of observing scans |
| LifecycleInterleavings.IngestUnderInterleaving | internal/store/lifecycle.go:205-256 | For any earlier events, a first observation opens the row; a later one counts a mitigation exactly when its scan is newer than every scan that observed or covered the finding and the newest of those that covered it did not see it, and takes over the endpoint exactly when it is newer than every observer |
| LifecycleInterleavings.CompletionUnderInterleaving | internal/store/store.go:467-529 | For any earlier events, a completion makes the scan complete and moves the covering pointer of exactly the rows it observed or has an untruncated, node-traced or trusted pair for, that a scan of its target observed, and that no scan at least as new has covered; nothing else in the tables changes |
| LifecycleInterleavings.CoveringIff | internal/store/lifecycle_repair.go:129-203 | Which scans the repair lets cover a finding, field by field of the stored scan |
| LifecycleInterleavings.RetryAtOnceChangesNothing | internal/store/store.go:467-529 | A completion repeated at once changes nothing |
| LifecycleInterleavings.RetryChangesRowIff | internal/store/store.go:482-529 | A completion repeated later changes exactly the rows it would now cover and that nothing at least as new has covered |
| LifecycleInterleavings.RetrySparesKnownRows | internal/store/store.go:506-529 | Rows the first completion already knew are never changed by a retry, whatever happened in between |
| LifecycleInterleavings.CoveringOnlyAdvances | internal/store/store.go:519-528 | The covering pointer never moves to an older scan |
| LifecycleInterleavings.LateRetryCoversNewRow | internal/store/store.go:482-529 | A retry can change a row that appeared in between, so completion is not idempotent in general |
| LifecycleDigest.DigestAlternates | internal/store/store.go:530-589 | Along any in-order run the statuses mailed about one finding are a prefix of new (fixed changed)*, and the number of changed equals times_mitigated |
| LifecycleDigest.StatusInOrder | internal/store/store.go:531-551 | Which status a newest completing scan gives a row, in terms of the row before it |
| LifecycleDigest.StatusesTellTheRow | internal/store/store.go:530-589 | The word of statuses so far determines whether the finding is present and its counter |
| SeverityTally.TotalsSumToFindings | internal/store/store.go:590-629 | The severity buckets of new, changed and fixed together count each listed finding once |
| SeverityTally.MailableIffListed | internal/store/notify.go:60-63 | A digest has a mailable change exactly when it lists a finding |
| SeverityTally.CountIsMultiplicity | internal/store/store.go:593-615 | Each bucket is the number of listed rows with that status and severity |
| SeverityTally.BucketsAre | internal/store/store.go:590-629 | Each of the eighteen buckets counts the listed rows of its own status and severity |
| LifecycleStore.Store.IngestFinding | internal/store/lifecycle.go:189-271 | One transaction inserts the occurrence and upserts its row as the specification says, reports whether the row is new, and changes nothing for an unknown scan |
| LifecycleStore.Store.MarkComplete | internal/store/store.go:467-529 | The state change and the coverage update equal the specification's completion |
| LifecycleStore.Store.DeleteScan | internal/store/store.go:911-1051 | Refuses an unknown or in-flight scan unchanged; otherwise the tables are those of the specification's deletion |
| LifecycleStore.Store.RepairLifecycleFindings | internal/store/lifecycle_repair.go:58-228 | The loop over the affected rows rebuilds them together as the specification does, whatever their order |
| LifecycleStore.Store.RepairRow | internal/store/lifecycle_repair.go:180-225 | Replaying one row from the collected maps and writing it back, or dropping it, repairs one more row |
| LifecycleStore.CoveredAsInTables | internal/store/lifecycle_repair.go:97-109 | Replaying only the scans listed for the affected scopes gives the replay over all complete scans |
| LikeEscape.ThreePassesEscapeEach | internal/store/findingquery.go:514-519 | The three replacement passes equal one character-wise escape |
| LikeEscape.ContainsPattern | internal/store/findingquery.go:521-533 | The escaped value between wildcards matches exactly the strings containing the value |
| LikeEscape.PrefixPattern | internal/store/findingquery.go:521-533 | The escaped value before a wildcard matches exactly the strings starting with the value |
| LikeEscape.WrapFolded | internal/store/findingquery.go:268-275 | Escaping commutes with case folding, so the same holds of ILIKE |
| SqlCondition.PrintedMeaning | internal/store/findingquery.go:192-221 | A printed OR of ANDs, read with SQL operator precedence, evaluates in three-valued logic to what it was built to mean |
| SqlCondition.JoinedMeaning | internal/store/findingquery.go:211-213 | Joining conditions with AND means their conjunction even where one is itself an unparenthesised AND |
| SqlCondition.OrsReadBack | internal/store/findingquery.go:216-221 | A printed OR of ANDs reads back as itself and leaves what follows it unread |
| FindingQuery.BuildFindingWhere | internal/store/findingquery.go:192-221 | The loops over groups and conditions push into one argument list and produce the specified clause, or its first error |
| FilterGroups.ClauseSelects | internal/store/findingquery.go:198-221 | For any compiler of single conditions that prints and means what it should, the whole clause selects a row exactly when some non-empty group holds in full, or there is no condition |
| FilterGroups.FilterAccepted | internal/store/findingquery.go:198-210 | A filter is accepted exactly when it has at most 60 conditions and each compiles by itself |
| FilterMeaning.CompiledClauseSelects | internal/store/findingquery.go:192-312 | The compiled WHERE clause selects exactly the rows satisfying the OR over non-empty groups of ANDed conditions, everything when there are none, and keeps earlier arguments bound; a condition is read on its non-blank values in order, whatever the compiler makes of them |
| FilterOperands.OperandsAreCounted | internal/store/findingquery.go:536-544 | What is bound is the non-blank values, trimmed and for lowered fields lower-cased, all of them and in order |
| FilterOperands.OperandIff | internal/store/findingquery.go:536-544 | A text is bound exactly when some non-blank value is compared as it |
| FilterFields.FieldIs | internal/store/findingquery.go:77-98 | The twenty filterable names, the kind of each, the column it reads and whether it is compared in lower case; every other name is unknown |
| FilterMeaning.ConditionMeans | internal/store/findingquery.go:225-312 | Under any later arguments, the text of one compiled condition is true exactly when the condition holds of the row |
| FilterMeaning.ConditionPrints | internal/store/findingquery.go:225-312 | Each placeholder of a compiled condition denotes the value pushed for it, and earlier arguments stay in place |
| FilterMeaning.TimeMeans | internal/store/findingquery.go:314-365 | after, before and the unparenthesised between keep their meaning, a date admitting its whole day |
| FilterMeaning.AcceptedIff | internal/store/findingquery.go:192-257 | A filter compiles exactly when it has at most 60 conditions and each is acceptable by itself |
| FilterMeaning.AcceptableIff | internal/store/findingquery.go:225-257 | One condition compiles exactly when its field is known, its operator belongs to the kind of field, it has at most 100 values of at most 256 bytes, and the non-blank ones are as many and as readable as the operator wants |
| FilterMeaning.AnyOfSelects | internal/store/findingquery.go:259-294 | any_of selects a row exactly when some non-blank value, trimmed and for lowered fields lower-cased, equals the column, an element of it or a target of an occurrence |
| FilterMeaning.AnyOfNoneOfComplementary | internal/store/findingquery.go:259-294 | any_of and none_of select complementary rows, NULL columns included |
| FilterMeaning.ContainsComplementaryIff | internal/store/findingquery.go:268-275 | On any row, contains and not_contains are complementary exactly when some searched column has one of the values or none of them is NULL; they never both select it |
| FilterMeaning.NullHostIsMissed | internal/store/findingquery.go:268-275 | For every value that compiles, a row whose host is NULL is selected by neither operator |
| ScannerParts.ScanAdmission.TryAcquire | internal/scanner/admission.go:46-63 | A slot is given only below the limit in force, which a valid request replaces; an error changes no count |
| ScannerParts.BundleStore.LockTemplates | internal/scanner/bundle.go:146-204 | The shared lock is kept exactly when the bundle serves the request, and each requested template is resolved once, in order of first mention |
| ScannerParts.BundleStore.Apply | internal/scanner/bundle.go:81-131 | A push does nothing while a scan or another push holds the lock; otherwise a failed file operation leaves the digest as it was |
| ScannerParts.DistinctHasAllOnce | internal/scanner/bundle.go:164-176 | Resolving skips repeated ids and nothing else |
| ScannerParts.DistinctGrows | internal/scanner/bundle.go:164-176 | Ids are resolved in order of first appearance |
| ScannerParts.JobCell.Cancel | internal/scanner/runner.go:212-240 | Accepted exactly by a running job whose cancel was not requested before, and then only the request is recorded |
| ScannerParts.JobCell.Finish | internal/scanner/runner.go:732-751 | Closes done, and publishes cancelled exactly when the cancel was requested |
| NodeSafety.SafeUnderInterleaving | internal/scanner/runner.go:127-206 | Over all interleavings of start, cancel, finish, push and delete: a job holding the shared lock has its commit active, readers and admission count equal the jobs holding them, and every status fits its goroutine's place |
| NodeSafety.LeavesRunningOnce | internal/scanner/runner.go:732-840 | Once a job has left running its state never changes |
| NodeSafety.AcceptedCancelWins | internal/scanner/runner.go:212-240 | A job whose cancel was accepted ends cancelled whatever its run reports |
| NodeSafety.BundleFixedUnderLock | internal/scanner/bundle.go:101-131 | No file operation of a push changes the bundle while a scan holds the shared lock |
| NodeSafety.PushBeginsIff | internal/scanner/bundle.go:101-112 | A push gets the exclusive lock exactly when no scan and no other push holds it |
| NodeSafety.PushReplaces | internal/scanner/bundle.go:101-131 | A push none of whose file operations fails leaves its tree under its digest; each failure leaves just what the files then hold |
| NodeSafety.StartSucceeds | internal/scanner/runner.go:127-174 | A start with a free slot and all its templates under the requested commit holds slot and lock, and its job is listed as running |
| NodeSafety.RefusedStartLeavesNothing | internal/scanner/runner.go:127-174 | A start refused by the templates, or given up before its job is listed, leaves slots and lock as they were |
| NodeSafety.RunEndsAsReported | internal/scanner/runner.go:732-840 | A run that is not cancelled ends with the status it reports, gives lock and slot back, and cannot be deleted before |
| NodeSafety.CancelledRunEnds | internal/scanner/runner.go:212-240 | A cancelled run ends as cancelled whatever it reports, gives lock and slot back, and cannot be deleted before |
| NodeSafety.DeletedIff | internal/scanner/runner.go:254-280 | A listed job can be deleted exactly when its status is terminal |
| NodeSafety.DeletableJobHoldsLockIff | internal/scanner/runner.go:254-280 | A job that may be deleted holds the shared lock exactly between its last status write and its unlock, and never when it was cancelled |
| NodeSafety.DeletableJobIsReleasedIff | internal/scanner/runner.go:254-280 | What the job object tells a deleting caller: the lock is released, wherever the goroutine may be, exactly when the done channel is closed |
| NodeSafety.CompletedJobDeletedUnderLock | internal/scanner/runner.go:405-425 | A completed job can be deleted while its goroutine still holds the shared lock |
| ScanProtocol.SafeUnderInterleaving | internal/store/store.go:346-449 | In every interleaving of dispatch, completion, failure, cancel, sweep, deletion, mail and restart, complete and failed scans have their outbox row, the others none, and no key is mailed twice |
| ScanProtocol.CancelledIsAbsorbing | internal/store/store.go:880-895 | A cancelled scan stays cancelled and never gets an outbox row |
| ScanProtocol.RetriesChangeNothing | internal/backend/orchestrator.go:855-871 | A terminal write repeated after it took effect changes neither the row nor the outbox |
| ScanProtocol.LateCompletionOfFailed | internal/store/store.go:467-472 | A completion arriving after a failure makes the scan complete and queues the second kind of mail |
| ScanProtocol.MailAtMostOnce | internal/store/notify.go:73-88 | Mail is attempted at most once per scan and kind |
| ScanProtocol.Transitions | internal/store/store.go:346-383 | The only ways a scan's state can change while its row exists |
| ScanProtocol.WhoChangesState | internal/store/store.go:346-895 | A scan's state is changed only by its own terminal writes, its cancel or the sweep, and only a finished scan is deleted |
| ScanProtocol.LostClaimIsNeverMailed | internal/store/notify.go:70-88 | A claim lost in a crash before the mail is never mailed by any later steps: its row stays claimed or goes with its scan |
| ScanProtocol.Rows.CreateScan | internal/store/store.go:303-329 | A new scan starts out queued, without outbox rows |
| ScanProtocol.Rows.MarkRunning | internal/store/store.go:346-353 | Moves exactly a queued scan to running |
| ScanProtocol.Rows.DeleteScan | internal/store/store.go:911-933 | Deletes exactly a finished scan, and with it its outbox rows |
| ScanProtocol.Rows.MarkFailed | internal/store/store.go:367-383 | Fails exactly a queued or running scan and gives it a failure row, unclaimed unless it was there |
| ScanProtocol.Rows.MarkComplete | internal/store/store.go:467-472 | Completes a queued, running, complete or failed scan and gives it a digest row, unclaimed unless it was there; a cancelled one stays as it is |
| ScanProtocol.Rows.CancelScan | internal/store/store.go:880-895 | Cancels exactly a queued or running scan and says whether it did |
| ScanProtocol.Rows.FailOrphanedScans | internal/store/store.go:427-449 | Fails every queued or running scan, each with its outbox row, and counts them |
| ScanProtocol.Rows.ClaimScanNotification | internal/store/notify.go:73-88 | A row is claimed exactly by the first claim |
| ScanProtocol.Rows.RetryMarkComplete | internal/backend/orchestrator.go:855-871 | Retried until an attempt succeeds, with attempts that may have been applied despite an error, a completion is applied once or not at all |
| ScanProtocol.Rows.Notify | internal/backend/notify.go:45-107 | Only the caller that claims the row sends, an unmailable payload is claimed without sending, and a call made while another caller holds the claim sends nothing |
| ScanProtocol.Rows.NotifyUnclaimed | internal/backend/notify.go:115-133 | Every listed row is claimed and exactly the mailable ones are sent, in listing order |
| BackendAdmission.ScanAdmission.Acquire | internal/backend/admission.go:26-41 | Per node, a slot is given exactly below the limit of the call, and only valid configurations are admitted |
| BackendAdmission.ScanAdmission.Release | internal/backend/admission.go:43-51 | Gives one slot back; the map keeps busy nodes only |
| ZipDirectory.ScanZipBundleDirectory | internal/backend/scanbundle.go:227-342 | The check accepts exactly the acceptable bundles, on machine integers that never overflow |
| ZipDirectory.WalkDirectory | internal/backend/scanbundle.go:291-342 | The walk accepts exactly a region holding the declared number of headers, and reads only inside it |
| ZipDirectory.FindScanBundleZipEnd | internal/backend/scanbundle.go:174-185 | Finds the last end record whose comment fits, or says there is none |
| ZipDirectory.ReadScanBundleZip64End | internal/backend/scanbundle.go:187-220 | Returns what the zip64 records declare, and an error exactly when they declare nothing |
| ZipDirectory.ReadDeclaration | internal/backend/scanbundle.go:228-262 | Returns the one declaration of the bundle's end records, or an error when there is none |
| ZipRecords.CountIsExact | internal/backend/scanbundle.go:291-342 | A region counts n headers exactly when it is n complete headers followed by at most one digital signature |
| ZipRecords.LittleEndian | internal/backend/scanbundle.go:291-342 | Numbers are read least significant byte first |
| ZipAcceptance.AcceptedIff | internal/backend/scanbundle.go:227-342 | Accepted exactly when the declared region is the declared number of complete headers and at most one trailing digital signature, within the limits and unambiguous |
| ZipAcceptance.AcceptsSerialised | internal/backend/scanbundle.go:227-342 | Every directory serialised from an allowed entry list is accepted, with data before the archive and a comment that hides no end record |
| ZipAcceptance.AcceptsSerialised64 | internal/backend/scanbundle.go:252-262 | The same directory stored with zip64 records is accepted |
| ResultIdentity.ResultDiscriminator | internal/store/lifecycle_identity.go:43-67 | The builder writes the canonical form part by part; an empty identity has the empty discriminator |
| ResultIdentity.CanonicalIdentifies | internal/store/lifecycle_identity.go:48-64 | Two canonical forms are equal exactly when matcher, extractor and the multiset of extracted values are |
| ResultIdentity.CanonicalText | internal/store/lifecycle_identity.go:55-82 | The exact bytes that are hashed |
| ResultIdentity.LexIff | internal/store/lifecycle_identity.go:48-49 | Values are sorted by the bytes at their first difference, prefixes first |
| ResultIdentity.EncodedIsUnique | internal/store/lifecycle_identity.go:55-82 | The length-prefixed encoding decodes in one way only |
| ResultIdentity.DiscriminatorIdentifies | internal/store/lifecycle_identity.go:43-67 | Discriminators agree exactly when the identities do, unless the hash collides on them |
| ResultIdentity.DedupKeyIdentifies | internal/store/lifecycle.go:59-65 | The key is injective on sanitised components, and an absent discriminator differs from every present one |
| ResultIdentity.SameRowIff | internal/store/lifecycle.go:42-65 | Two results share a lifecycle row exactly when sanitised template, sanitised location and identity agree |
| ResultIdentity.CleanTextIsKept | internal/store/lifecycle.go:67-77 | Sanitising keeps a text unchanged exactly when every character is at least 0x20 and not 0x7f |
| ResultIdentity.SanitizedByPart | internal/store/lifecycle.go:67-77 | Sanitising keeps or drops each character by itself, in order: those below 0x20 and 0x7f go |
| ResultIdentity.SanitizedHas | internal/store/lifecycle.go:67-77 | A character survives exactly when it occurs, is at least 0x20 and is not 0x7f |
| ResultIdentity.PrintableKeys | internal/store/lifecycle.go:42-65 | Without control characters the key is template, location and any discriminator with 0x1f between them, and equal keys mean equal fields |
| FindingLines.ReadFindingLine | internal/backend/orchestrator.go:259-297 | However the reader fragments the stream, one call returns its next record: one trailing CR removed, oversized exactly when the content exceeds the limit |
| FindingLines.ReadAllRecords | internal/backend/orchestrator.go:209-217 | Reading record by record yields the newline split of the stream for every fragmentation |
| FindingLines.RecordsAreLines | internal/backend/orchestrator.go:259-297 | The records are the lines of the stream and, at a clean end of file, its unfinished last line |
| FindingLines.LineIsRead | internal/backend/orchestrator.go:259-297 | LF and CRLF end a line alike, and a line is oversized exactly when its content is over the limit |
| FindingLines.ScanFindingLines | internal/backend/orchestrator.go:199-252 | The ingest loop under both caps equals the step-by-step specification for every fragmentation |
| FindingLines.SucceedsIff | internal/backend/orchestrator.go:199-252 | A scan of the results succeeds exactly when the stream is whole, within the byte cap and no record stops it; then ingested plus skipped is the number of non-blank records and the kept lines are emitted in order |
| FindingLines.EndsWith | internal/backend/orchestrator.go:199-252 | What a scan ends with: the first record that does not pass decides between the count cap and a fatal record, then the byte cap, then the stream error; emitted and skipped are accounted for up to there |
| FindingLines.CapHolds | internal/backend/orchestrator.go:221-223 | Successful or not, no more than the cap is ingested |
| ByteStrings.SplitRejoins | internal/backend/orchestrator.go:255-258 | The newline split loses nothing: lines and rest rejoin to the data |
| OutputCapture.StatsWriter.Write | internal/scanner/stats.go:86-107 | After any writes, the handled lines are the last 64 KiB of each line written so far and the buffer that of the pending one |
| OutputCapture.StatsWriter.AppendPendingLine | internal/scanner/stats.go:112-123 | The buffer keeps the last 64 KiB of what it held and what is appended |
| OutputCapture.StatsWriter.Flush | internal/scanner/stats.go:126-133 | At the end an unfinished line is handled as a line |
| OutputCapture.WriteAll | internal/scanner/stats.go:86-146 | For every chunking of the output the same statistics lines and the same forwarded text come out |
| OutputCapture.HandedIs | internal/scanner/stats.go:86-133 | The lines handed on are the last 64 KiB of each line in order, and of what follows the last newline if anything does |
| OutputCapture.LastOfLast | internal/scanner/stats.go:109-123 | Cutting to the last 64 KiB early loses nothing that cutting late would keep |
| OutputCapture.CappedBuffer.Write | internal/scanner/validate.go:94-128 | The ring always holds exactly the last 64 KiB written, and truncated is set exactly when more was written |
| OutputCapture.CappedBuffer.String | internal/scanner/validate.go:130-142 | Reads the ring out as the last 64 KiB written |
| OutputCapture.Appended | internal/scanner/validate.go:112-126 | Writing behind the retained bytes, round the end of the ring, leaves them in place |
| CoverageTrace.CoveredEndpointsFromTrace | internal/scanner/coverage.go:45-186 | For every fragmentation the trace is read as its newline split |
| CoverageTrace.KnownIff | internal/scanner/coverage.go:38-44 | Coverage is known exactly when the trace was read to its end, has at most 250000 distinct pairs and is blank or has a record with a status; then it is the set of explicitly successful pairs |
| CoverageTrace.RecordsAre | internal/scanner/coverage.go:45-120 | One record per line, malformed when the line with its newline is over 1 MiB, and one for a last line without newline |
| CoverageTrace.WarningsAreTallied | internal/scanner/coverage.go:165-173 | The warnings count the malformed records and the successful ones without a known template and endpoint |
| Export.StreamFindingsJSON | internal/backend/export.go:326-369 | Never writes more than the budget; with rows a closed array comes out exactly from 5 bytes on, without rows from 3, and it holds a row prefix whose next row would not fit |
| Export.LongestPrefix | internal/backend/export.go:346-348 | No longer prefix of the rows fits either |
| Export.AllFitIff | internal/backend/export.go:346-348 | Every row is exported exactly when the whole array fits |
| Export.JoinedLists | internal/backend/export.go:340-349 | Written one after another, the rows stand byte for byte at the places their lengths give, the separator right before every row but the first, and nothing else is there |
| SarifExport.StreamFindingsSARIF | internal/backend/export.go:424-535 | Never writes more than the budget, closes the document exactly when the budget fits the empty one, holds the longest prefix of results and then of their rules that fits, and is truncated exactly when the whole document does not fit; otherwise it is the whole document |
| SarifExport.WriteRules | internal/backend/export.go:502-530 | The spooled rules are read back line by line and written as long as the suffix fits |
| SarifExport.OneRulePerTemplate | internal/backend/export.go:461-466 | The rules of a document are exactly one per distinct template id |
| SarifExport.RuleIsOfFirstRow | internal/backend/export.go:461-466 | Each rule is the one of the first row with its template |
| Cidr.NestedOrDisjoint | internal/store/nodes.go:290-299 | Two CIDR ranges are nested or have no address in common |
| Cidr.OverlapIsExact | internal/store/nodes.go:293-295 | The test on the two base addresses tells exactly whether ranges overlap |
| Cidr.SubnetCoveredIff | internal/backend/scope.go:93-100 | A subnet is covered by an entry exactly when the entry is a subnet that contains all its addresses |
| Cidr.SizesAre | internal/store/nodes.go:290-299 | A family has 2^32 or 2^128 addresses, and a range twice as many with each bit less |
| Cidr.InScope | internal/backend/scope.go:78-104 | A target is in scope exactly when one approved entry grants it: the same name, an allowed address, or a subnet inside an approved subnet |
| Cidr.OutOfScopeHosts | internal/backend/scope.go:109-125 | Returns exactly the targets that cannot be read or that no readable entry grants, in order |
| NodeRegistry.CheckOverlap | internal/store/nodes.go:269-303 | Accepts ranges exactly when they parse and share no address with another node's |
| NodeRegistry.ParseIsPointwise | internal/store/nodes.go:320-332 | Parsing succeeds exactly when every text is a CIDR and gives the range of each in its place |
| NodeRegistry.Registry.Create | internal/store/nodes.go:79-115 | Adds the node exactly when its ranges are free and its name unused, keeping ranges of different nodes disjoint |
| NodeRegistry.Registry.Update | internal/store/nodes.go:124-166 | Replaces the node under the same conditions, its own ranges excepted, keeping ranges of different nodes disjoint; a registry with a catch-all keeps one exactly when the update gives no ranges or another node is a catch-all |
| NodeRegistry.Registry.Delete | internal/store/nodes.go:171-201 | Removes the node unless it is unknown or the only catch-all, and a registry with a catch-all keeps one |
| NodeRegistry.UpdateKeepsCatchAllIff | internal/store/nodes.go:124-166 | A listing with the i-th node replaced has a catch-all exactly when the new node or another one is |
| NodeRegistry.UpdateLastCatchAll | internal/store/nodes.go:124-166 | In a registry of one catch-all, an update that gives it a range succeeds and leaves none |
| NodeRegistry.NodeForIp | internal/store/nodes.go:253-262 | Finds a node serving the address, or none exactly when no node does |
| NodeRegistry.ServedByOne | internal/store/nodes.go:251-252 | At most one node serves an address, so the listing order does not matter |
| NodeRegistry.SelectNode | internal/store/nodes.go:218-249 | Selects the only node the targets hit, else the first catch-all; rejects exactly targets that hit two nodes, and hits on none without a catch-all |
| NodeRegistry.HitIsOrderIndependent | internal/store/nodes.go:218-249 | When a target hits a node, every listing order of the same nodes selects that node |
| TemplateImport.CandidatesDiffer | internal/backend/templateimport.go:280-290 | Candidate ids for different numbers differ, even when the base is cut to 200 bytes |
| TemplateImport.SuffixIs | internal/backend/templateimport.go:280-290 | The suffix is -imported, and from 2 on the number after another dash |
| TemplateImport.CandidateIs | internal/backend/templateimport.go:280-295 | A candidate keeps as much of the base as fits 200 bytes with its suffix |
| TemplateImport.NextImportedTemplateId | internal/backend/templateimport.go:280-295 | The search ends for every finite set of taken ids, within one try more than there are ids, at the first free candidate |
| TemplateImport.Pigeonhole | internal/backend/templateimport.go:280-295 | Candidates that are all taken are at most as many as the taken ids |
| TemplateImport.PlanPortableTemplateWrites | internal/backend/templateimport.go:137-206 | The loop over the archive produces the specified plan or its first error |
| TemplateImport.EveryEntryCounted | internal/backend/templateimport.go:149-200 | created, updated, skipped and ignored add up to the archive's size; created and updated count the new and the overwriting writes, ignored the upstream entries |
| TemplateImport.CountersAre | internal/backend/templateimport.go:149-200 | The four counters are the numbers of fresh or renamed, overwritten, skipped and upstream entries, told from the archive, the catalog and the strategy |
| TemplateImport.WritesAre | internal/backend/templateimport.go:149-200 | Exactly the fresh, renamed and overwritten entries are written, each under its own or its minted id |
| TemplateImport.RenamedAre | internal/backend/templateimport.go:184-195 | The reported renames map exactly the renamed ids to the minted ones |
| TemplateImport.PlanFailsIff | internal/backend/templateimport.go:149-195 | A plan is made exactly when no entry is broken, clashes with an upstream template, or cannot be written under its new id; else the error is that of the first such entry |
| TemplateImport.StrategyIsRespected | internal/backend/templateimport.go:166-199 | Only custom templates of the catalog are overwritten and only when asked; a rename neither overwrites nor skips, and nothing else renames |
| TemplateImport.GeneratedIdIsFresh | internal/backend/templateimport.go:184-195 | A generated id is outside the catalog and was not planned before |
| TemplateImport.OccupiedIsTaken | internal/backend/templateimport.go:137-206 | What the planner takes for occupied is the catalog, the fresh ids so far and the ids minted for renamed entries, computed from the archive alone |
| TemplateImport.WritesAreDistinctIff | internal/backend/templateimport.go:159-164 | Each id is written at most once exactly when no fresh id of the archive was minted for an earlier, renamed entry |
| TemplateImport.DistinctWithoutRename | internal/backend/templateimport.go:166-199 | Under every strategy but rename each id is written at most once |
| TemplateImport.DistinctWithoutCandidates | internal/backend/templateimport.go:280-295 | Nor is an id written twice when no fresh id is a candidate of an earlier entry to be renamed |
| TemplateImport.GeneratedIdWrittenTwice | internal/backend/templateimport.go:159-164 | An archive whose fresh entry has the id just generated for another one, so the id is written twice |

## Left out

- LifecycleRuns.IncrementalIsReplay: says nothing about latest_occurrence_id, timestamps or display columns; duplicates inside one scan make the first depend on order, and repair does not rebuild the others.
- LifecycleRuns.Allowed: deletion of a target, which sets the target of its scans to NULL, is not an event of a run.
- LifecycleInterleavings.PointersUnderInterleaving: covers imports as scans with arbitrary creation times whose coverage is applied after their results; the rest of a bundle import (reference fallbacks, digests, timestamps of occurrences) is not modelled.
- LifecycleDigest.DigestAlternates: no suppressing overlay and no severity floor; the overlay expression only filters rows out.
- LifecycleDigest.StatusInOrder: the status of a row before the overlay filter and the severity floor of the digest query, which only leave rows out.
- FilterMeaning.CompiledClauseSelects: lengths of values count characters where the source counts bytes; works on tokens, so SQL lexing is not modelled; lower(), the folding of ILIKE, date and integer parsing are parameters.
- FilterFields.FieldIs: the SQL of the effective state and of the occurrence count is named, not spelled out.
- ScanProtocol.SafeUnderInterleaving: locally dispatched scans only; imported scans arrive terminal and have no outbox row.
- ScanProtocol.Rows.Notify: whether a payload is mailable (recipients, opt-out, empty delta, failed load) and whether SMTP succeeds are one parameter.
- NodeSafety.SafeUnderInterleaving: each locked section is one step and each file operation of an activation another; crashes inside a file operation are left out.
- ScannerParts.BundleStore.Apply: the unpacked tree arrives verified; tar, gzip, YAML and SHA-256 are library calls.
- ZipDirectory.ScanZipBundleDirectory: the uploaded file is a byte sequence; an I/O error of the disk itself is not modelled; which message a refused bundle gets is not stated, only that it is refused.
- ResultIdentity.DiscriminatorIdentifies: SHA-256 is a parameter assumed not to collide on the two texts compared; JSON decoding of the three identity fields is left out.
- ResultIdentity.DedupKeyIdentifies: strings are character sequences, so the replacement of invalid UTF-8 is not modelled.
- FindingLines.ScanFindingLines: JSON decoding and the store's verdict on a record are one parameter; the samples kept for the log are left out.
- OutputCapture.StatsWriter.Write: which lines are statistics is a parameter; the verbatim log mirror and the mutex are left out.
- CoverageTrace.CoveredEndpointsFromTrace: decoding a record and resolving its template and endpoint are one parameter; the result is a set, without its sorted listing and without warning texts.
- Export.StreamFindingsJSON: row encodings are given; a failing or short write of the spool file is left out. The CSV and raw exporters write each record whole or stop, and would add nothing.
- SarifExport.StreamFindingsSARIF: the three fixed texts are parameters of which the first is non-empty; encoded rules hold no newline.
- Cidr.InScope: IPv4-mapped IPv6 forms and zones are normalised away; splitting URLs and ports off a target is left out.
- NodeRegistry.Registry.Update: endpoint, token, tags, limits and TLS fields are left out.
- TemplateImport.PlanPortableTemplateWrites: whether a template parses and whether its id can be rewritten are parameters; the set document, the batch validation and its application are left out.
- HTTP handlers, sessions, audit log, scheduling, retention, pagination, object storage, naabu and the web front end are plumbing around these parts.
- Postgres is a set of tables whose statements and transactions are atomic; row-lock order, connection pools and migrations are left out.
