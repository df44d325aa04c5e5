# Synqro in Dafny

A model of the parts of the Synqro update engine that hold state, and proofs of what they are for: canonical JSON and the
tamper-evident audit log, the verification of update manifests, the download of artifacts, the self-heal engine (snapshots,
restore, rollback counters, blacklist), degraded mode and backoff, and the pure parts of the crash reporter.

`dafny verify dfyconfig.toml` checks everything.

## How it is built

SHA-256, SHA-512, HMAC, Ed25519, Base64 and the RFC 3339 reader are function-valued fields about which nothing is known. No
lemma assumes that they are free of collisions: where that would matter the lemma says "equal, or here is a collision"
(`Audit.AcceptedLineTellsEvent`, `Artifacts.SamePayloadSameBytes`).

| file | what it models |
|---|---|
| `wrappers.dfy`, `numbers.dfy`, `sequences.dfy`, `sorting.dfy` | results and errors; machine integers; facts about sequences; sorting by any order |
| `text.dfy` | strings, their byte order, UTF-8, decimal numerals |
| `json.dfy`, `json_text.dfy`, `json_round_trip.dfy`, `json_value.dfy` | the serde_json printers and parser; what compact text is; untyped and typed reading, repeated keys included |
| `canonical.dfy` | recursive key sorting and compact printing (the same code stands in `audit.rs`, `rollback.rs` and `downloader.rs`) |
| `audit.dfy`, `tamper_evidence.dfy`, `audit_lock.dfy` | the JSONL audit log; exactly which logs verify; mutex and `flock` under every interleaving |
| `manifest.dfy`, `manifest_complete.dfy` | steps 2 to 5 of fetching a manifest: what is accepted, and exactly when |
| `degraded.dfy`, `retry.dfy`, `artifact.dfy` | the failure latch, backoff and retry, the capped download |
| `paths.dfy`, `disk.dfy` | path components; files with atomic rename, and every state a crash can leave behind |
| `restore.dfy`, `restore_guarantees.dfy` | the verified restore, its crash points and its error exits |
| `confinement.dfy` | which files a rollback can write at all |
| `snapshot.dfy`, `snapshot_identity.dfy` | taking a snapshot, rolling back, and the two together |
| `store.dfy`, `ledger.dfy`, `store_runs.dfy` | counters and blacklist, and runs of interrupted rollbacks |
| `sealed_files.dfy` | exactly which snapshot manifests and blacklists pass their MAC, and what the MAC tells |
| `torn.dfy`, `glued.dfy`, `torn_files.dfy` | partly written JSON, log records and snapshot manifests, and what is written after them |
| `versions.dfy`, `engine.dfy` | which backup is chosen; apply and roll back as wholes |
| `hkdf.dfy`, `report.dfy`, `crash_reporter.dfy` | the crash reporter |

An operation that works step by step is a method on a class (`AuditLogger`, `Drive`, `Breaker`, `CrashReporter`) or a loop,
proved against a function; the lemmas are about those functions. A `Drive` records in its ghost history every state it has
been in, so a statement about each element of a trace is a statement about each point where the process may die.

## Where the code differs from what it says about itself

The model follows the code.

- `src/downloader.rs:532-538` accepts ages above minus one second and below 25 hours; the comments say 24 hours
  (`Manifest.FreshWindow`).
- `src/audit.rs:325` speaks of insertion order. Without the `preserve_order` feature serde_json's map is sorted, so
  `line_hmac` is not last. The MAC does not depend on it.
- `ffi/synqro.h:455-456` promises chained audit entries, so that a deletion can be detected. Each line has a MAC of its own
  and is checked by itself (`Audit.EachLineAlone`), so deleting, repeating or reordering whole lines goes unseen
  (`Audit.RearrangingUnseen`).
- `src/lib.rs:375` calls the comparison of backup versions semantic. It is the byte order of the names, so 1.10.0 comes
  before 1.9.0 (`Versions.TenBeforeNine`); `Versions.TextOrderIff` and `Versions.LatestIsChosen` say exactly when it is right.
  A release candidate counts as newer than its release (`Versions.CandidateAfterRelease`).
- A snapshot records base names only, and the restore writes relative to the working directory (`src/rollback.rs:350-352`).
  An executable that lives elsewhere is not restored, although the rollback reports success
  (`SnapshotIdentity.ExecutableElsewhere`; exactly when, `SnapshotIdentity.RollbackRestoresSnapshot` and
  `Engine.ApplyThenRollback`).
- `take_snapshot` overwrites the backups of an earlier snapshot of the same version before it replaces the manifest, and
  every update takes a snapshot before it downloads, so an update that is tried again does this. If it dies in between, the
  old manifest still verifies over destroyed backups (`TornFiles.RetakingDestroys`; exactly when, `TornFiles.AtomicExactly`).
- The traversal check is made on the backup path, and the temporary file of the restore is not checked. It lies inside
  except for an absolute entry that names the version directory itself, and only the failing attempt to read a directory
  keeps that entry from being written (`Paths.TempStaysInside`, `Confinement.ConfinedExactly`).
- `src/rollback.rs:278` promises to restore the application atomically. Each file is (`RestoreGuarantees.PerFileAtomic`), but
  the restore as a whole is not all-or-nothing: after an error exactly the entries before the failing one are restored
  (`RestoreGuarantees.ReturnLeavesPrefix`). `RestoreGuarantees.AllOrNothing` says exactly when it is, and
  `SnapshotIdentity.HalfRestored` is a snapshot of two files with a tampered second backup, after which it is not.
- The engine makes a new downloader for every call (`src/lib.rs:260-266`), so degraded mode does not outlast a call; but a
  fetch that succeeds at its sixth attempt or later has degraded the downloader, and the download is refused
  (`Engine.ApplyUpdate`).
- `_format_report` says that its message fits into 4096 characters. It does exactly when the parts that are never cut do
  (`Report.FitsExactly`, `Report.LongFieldOverflows`).
- `_hkdf_expand` takes the hash length from the PRK; for other PRK lengths the output may be too short
  (`Hkdf.OutputLength` says when).
- `send_report` says that the report comes back intact. A `hmac_sha256` field is lost if it holds null, if its text has a
  character outside ASCII, or if the other fields cannot be written as UTF-8; the last two raise where the code does not put
  the field back (`CrashReporters.ReportComesBack`, `CrashReporters.AccentLosesField`, `CrashReporters.SurrogateLosesField`).
- After a failed write the next record is appended to the torn line, so that record is lost too and the log never verifies
  again (`TornFiles.TornRecordSpoilsLog`; exactly when it survives, `TornFiles.LogSurvivesExactly`).

## Model

| member | source | states |
|---|---|---|
| Text.DecodeEncode | src/audit.rs:327 | decoding UTF-8 undoes encoding, for every text |
| Text.ByteOrderIsScalarOrder | src/audit.rs:473 | the byte order in which keys are sorted is the order of their Unicode scalars (not UTF-16 order) |
| JsonRoundTrip.ParsePrint | src/audit.rs:460-463 | the parser reads back exactly the tree that the compact or the pretty printer wrote |
| JsonRoundTrip.PrintInjective | src/rollback.rs:588-592 | different trees never print the same text |
| JsonText.EscapedExactly | src/audit.rs:462 | a character is escaped exactly if it is a quote, a backslash or a control character, by the shortest escape there is, in lower case, and reads back as itself |
| JsonText.CompactSize | src/audit.rs:460-463 | compact text has as many characters as the tree needs for its words, digits, strings and punctuation, so no white space is outside its strings |
| Canonical.CanonicalIsNormalForm | src/audit.rs:458-481 | two trees with unique keys have the same canonical bytes if and only if they are equal up to key order at every depth |
| Canonical.SortKeysKeepsLookups | src/rollback.rs:594-609 | sorting keeps every lookup, the values sorted in turn |
| Canonical.SortKeysIdempotent | src/downloader.rs:865-880 | sorting a sorted tree changes nothing |
| JsonValue.ToValueSame | src/downloader.rs:518-519 | for unique keys the untyped reading is the document up to key order |
| JsonValue.StructFieldsOfValue | src/downloader.rs:590-591 | where the typed reading of a document succeeds, the typed reading of its untyped value finds the same fields |
| Audit.AuditLogger.Log | src/audit.rs:296-364 | appends one record signed over the canonical payload and changes nothing already written; with a poisoned mutex or without the lock nothing is written, a failing write leaves a part of the record, a failing flush all of it, and each is an error |
| Audit.AuditLogger.VerifyLog | src/audit.rs:390-441 | returns the number of valid records, or the error of the first invalid line |
| Audit.CountLines | src/audit.rs:397-438 | the verification loop counts like the recursive definition, saturating |
| Audit.ConstantTimeEq | src/audit.rs:487-496 | the branch-free comparison is equality |
| Audit.TextNoNewline | src/audit.rs:327-329 | compact JSON holds no raw newline, whatever the strings hold |
| Audit.SplitJoin | src/audit.rs:397 | splitting into lines recovers the records that were appended |
| Audit.VerifyConcat | src/audit.rs:390-441 | a log made of two parts verifies exactly when both parts do, and the counts add up |
| Audit.RecordVerifies | src/audit.rs:418-436 | the payload rebuilt from a logged line has the MAC that was logged |
| Audit.LogThenVerify | src/audit.rs:296-441 | after any n events were logged, verification returns n |
| Audit.AcceptedLineTellsEvent | src/audit.rs:418-436 | a line accepted with the MAC issued for an event tells that event, exactly unless it exhibits a MAC collision |
| TamperEvidence.LogExactly | src/audit.rs:390-441 | a log verifies if and only if each line is blank or a record carrying the MAC of its other fields, and then the count is that of the lines that are not blank |
| TamperEvidence.SpacesAreBlank | src/audit.rs:406-408 | a line of ASCII is blank exactly if it holds nothing but white space |
| TamperEvidence.FirstUnsound | src/audit.rs:397-435 | the first other line decides the error: undecodable, not a record, or a record with another MAC |
| TamperEvidence.ReadsExactly | src/audit.rs:207-222 | an object is a record exactly if its six fields are in it |
| TamperEvidence.EditIsDetected | src/audit.rs:418-435 | a log with a line that carries the MAC issued for an event but tells another one does not verify, unless the two payloads are a MAC collision |
| Audit.EachLineAlone | src/audit.rs:397-438 | a log verifies if and only if every line of it does |
| Audit.RearrangingUnseen | src/audit.rs:390-441 | take any of the lines of a log, in any order and any number of times: what is left verifies with its number of lines |
| AuditLock.RecordsStayWhole | src/audit.rs:331-364 | under every interleaving of threads and processes, with records written in any pieces, the file is whole records and a prefix of the lock holder's record |
| AuditLock.QuiescentFile | src/audit.rs:331-364 | when nobody is writing the file is exactly the records in lock order |
| AuditLock.ConcurrentLogVerifies | src/audit.rs:331-441 | what concurrent writers leave behind is exactly the records taken up, each thread's once and in its order, and verifies with their number |
| TornFiles.TornRecordDetected | src/audit.rs:352-353 | a log that ends inside a record never verifies |
| TornFiles.TornRecordExactly | src/audit.rs:318-360 | a log that ends with a part of a record verifies if and only if what is before it does and the part is nothing or a whole line, with or without its newline |
| TornFiles.TornRecordSpoilsLog | src/audit.rs:318-360 | a record torn anywhere, even before its newline only, makes the record after it unreadable: the log never verifies again, whatever is logged later |
| TornFiles.LogSurvivesExactly | src/audit.rs:318-441 | with another record after that part, and anything later, it verifies if and only if the part is nothing or the whole record with its newline, and what is before and later verifies |
| Glued.GluedText | src/audit.rs:397-407 | a printed object, whole or cut off anywhere, with another object after it is no document |
| Torn.TornBytes | src/rollback.rs:216-220 | no proper part of a printed object is a document |
| Manifest.UsedIsSigned | src/downloader.rs:518-606 | an accepted manifest is the one written in a text for which its signature, 64 bytes of Base64, verified strictly under the configured key of 32 bytes, repeated and unknown keys included |
| Manifest.SamePayloadSameManifest | src/downloader.rs:549-591 | two accepted documents with the same signed text yield the same manifest but for the signature |
| Manifest.FreshWindow | src/downloader.rs:532-538 | the window that truncated seconds and hours amount to, in nanoseconds |
| ManifestComplete.AcceptedExactly | src/downloader.rs:518-606 | a document is accepted as a manifest if and only if it reads as that manifest, is younger than 25 hours and at most a second early, its decoded signature verifies strictly for its canonical text under the decoded valid key, and it is for this tenant |
| ManifestComplete.ReadsExactly | src/downloader.rs:84-101 | an object reads as a manifest exactly if each of its fields is in it, with its type |
| ManifestComplete.ArtifactReadsExactly | src/downloader.rs:67-80 | and as an artifact exactly if each of its six fields is |
| ManifestComplete.RefusedManifest | src/downloader.rs:536-603 | any other document that reads as a manifest is refused with a signature error, or a crypto error exactly if only the configured key is unusable |
| ManifestComplete.ReleasedIsAccepted | src/downloader.rs:518-606 | any text of a manifest's fields, with the keys in any order and any white space, is accepted as exactly that manifest if and only if it is fresh, signed and for this tenant |
| ManifestComplete.PrintedIsAccepted | src/downloader.rs:518-606 | in particular what serde_json prints for it, compact or pretty |
| Degraded.FlagIsLatch | src/downloader.rs:356-376 | for any number of concurrent callers and runs of any length the flag is raised only after five failures in a row, and exactly then once no call is in progress, in spite of wrap-around |
| Degraded.FlagStays | src/downloader.rs:361-362 | the flag is never taken down |
| Degraded.Breaker.CheckDegraded | src/downloader.rs:349-354 | refuses exactly when the recorded history has five failures in a row somewhere |
| Degraded.Breaker.RecordFailure | src/downloader.rs:356-372 | keeps the counter equal to the failure tail modulo 2^32 and the flag equal to the latch |
| Degraded.Breaker.RecordSuccess | src/downloader.rs:374-376 | resets the counter and leaves the latch |
| Degraded.NotDegradedIsFew | src/downloader.rs:349-372 | for one caller, not degraded means a counter of at most four |
| Retry.BackoffIsIdeal | src/downloader.rs:383-389 | the seconds are min(base * 2^retry + jitter, 300) over unbounded integers |
| Retry.BackoffMonotone | src/downloader.rs:383-389 | a later retry never waits less |
| Retry.FetchManifest | src/downloader.rs:415-449 | attempts up to the first success or max_retries + 1; returns that attempt's answer; sleeps the sum over the retries k of min(base * 2^k + jitter, 300), at most 300 * max_retries; refused when degraded |
| Retry.RetryLoop | src/downloader.rs:424-448 | on failure the last attempt's error, never the placeholder; failures and success recorded in order |
| Retry.FetchIsCall | src/downloader.rs:424-446 | a fetch records at most one failure for each attempt |
| Retry.CounterBounded | src/downloader.rs:349-448 | over any sequence of calls the counter is at most max_retries + 5, and if that fits it never wraps |
| Artifacts.ReadCapped | src/downloader.rs:680-705 | the buffer is within the cap after every chunk; the result is the whole body, a read error, or too large, exactly as the chunks say |
| Artifacts.FindArtifact | src/downloader.rs:632-641 | the first artifact for the platform, or none |
| Artifacts.StageAndSwap | src/downloader.rs:716-797 | what the staging file, the rename, the clean-up and the failure counter do on every exit |
| Artifacts.DownloadArtifact | src/downloader.rs:623-797 | the whole call, disk and failure counter |
| Artifacts.DeploymentUntouched | src/downloader.rs:716-797 | at every crash point but the rename of a success only the staging file has changed |
| Artifacts.ErrorLeavesDeployment | src/downloader.rs:623-797 | every error leaves the deployment file as it was |
| Artifacts.SuccessDeploysGenuine | src/downloader.rs:680-797 | on success the deployment file holds the whole body, within the cap, with both hashes and the signature |
| Artifacts.GenuineIsDeployed | src/downloader.rs:731-797 | if the disk works, a body within the cap is deployed exactly when it is genuine |
| Artifacts.DeploysExactly | src/downloader.rs:623-797 | a download succeeds if and only if there is an artifact, a token, a whole genuine response within the cap and a working disk, and then the whole response is deployed, nothing is left staged, and a success is recorded |
| Artifacts.FailuresRecorded | src/downloader.rs:699-785 | a failure is recorded exactly if the body does not arrive whole within the cap, or was staged and has another hash or a well-formed signature that is not for it, and then the staging file is removed |
| Artifacts.SamePayloadSameBytes | src/downloader.rs:549-797 | accepted manifests with the same signed text deploy the same bytes, or the bytes collide in both hashes |
| Paths.AcceptedEntries | src/rollback.rs:568-585 | exactly which manifest entries pass the traversal check |
| Paths.ResolveIsJoin | src/rollback.rs:352 | a path that the system resolves from the working directory is the one joined to it |
| Paths.ReadsStayInside | src/rollback.rs:329-333 | every file read for an accepted entry lies below the version directory |
| Paths.WritesStayInside | src/rollback.rs:350-397 | the file that an accepted entry is renamed to lies below the working directory or, for an absolute entry, the version directory, at the place of its backup |
| Paths.TempStaysInside | src/rollback.rs:366-376 | the temporary file of an accepted entry lies inside, exactly unless the entry is absolute and names a version directory whose sibling lies outside |
| Paths.TempNameDiffers | src/rollback.rs:367 | a file is never its own temporary file |
| Disk.Drive.Write | src/rollback.rs:368-373 | writing passes through every partial content; the mode of an existing file stays |
| Restore.RestoreFiles | src/rollback.rs:329-400 | the restore loop on a disk, with every state it passes through |
| RestoreGuarantees.PerFileAtomic | src/rollback.rs:329-400 | at every crash point, for any entries, each file but the temporary ones is untouched or holds exactly the bytes that the backup of an entry had in an earlier state, where they matched the recorded hash, with the recorded mode |
| RestoreGuarantees.CrashLeavesPrefix | src/rollback.rs:329-400 | at every crash point a prefix of the manifest is restored, each file with exactly the bytes its backup had when its step began, or at the start if no step writes what another reads, and nothing else has changed |
| RestoreGuarantees.ReturnLeavesPrefix | src/rollback.rs:329-400 | an error at an entry leaves exactly the entries before it restored, byte for byte; Ok means all |
| RestoreGuarantees.RestoresBackupBytes | src/rollback.rs:335-397 | a restored file holds the bytes its backup had at the start |
| RestoreGuarantees.GoodBackupsRestore | src/rollback.rs:329-400 | if all backups match and nothing fails the restore succeeds |
| RestoreGuarantees.StopsAtFirstBad | src/rollback.rs:329-400 | if nothing else fails the restore stops exactly at the first backup that is missing or does not match |
| RestoreGuarantees.FirstBadError | src/rollback.rs:329-357 | and with which error: that of the traversal check, or a rollback error |
| RestoreGuarantees.AllOrNothingAt | src/rollback.rs:278-400 | whatever fails, a restore is all-or-nothing if and only if nothing fails or the entries before the failing one had nothing to change |
| RestoreGuarantees.AllOrNothing | src/rollback.rs:278-400 | with bad backups as the only failure: if and only if all backups are intact, or every file before the first bad one already is what its backup says |
| Confinement.ConfinedExactly | src/rollback.rs:329-400 | for all manifests, faults and crash points every changed file, temporary ones included, lies below the working or the version directory, if and only if the version directory is not readable as a file or its sibling lies inside |
| Confinement.DirectoryEntryLeaks | src/rollback.rs:330-376 | otherwise the entry that names the version directory is written outside |
| Confinement.RollbackStaysInside | src/rollback.rs:288-400 | a rollback, whatever its manifest says, changes nothing outside at any point |
| Snapshot.ManifestRoundTrip | src/rollback.rs:199-220 | a written snapshot manifest reads back as itself |
| Snapshot.TakeSnapshot | src/rollback.rs:145-220 | copies, records, signs and writes in the order of the targets, with every state it passes through; the first bad target or failing read or write stops it |
| Snapshot.RollbackFiles | src/rollback.rs:288-400 | a missing or unreadable manifest, or one whose MAC is not that of its other fields, is an error and touches nothing; otherwise the restore of its entries |
| SealedFiles.LoadsExactly | src/rollback.rs:297-321 | a manifest loads if and only if the file reads as it and it carries the MAC of the canonical text of version, time and entries |
| SealedFiles.BadManifestTouchesNothing | src/rollback.rs:297-321 | with any other file, the whole restore is a rollback error and no state |
| SealedFiles.LoadedIsSealed | src/rollback.rs:303-321 | a loaded manifest with the MAC of a snapshot equals it in every field of every entry, unless the contents are a MAC collision |
| SealedFiles.ManifestReadsExactly | src/rollback.rs:60-69 | an object reads as a manifest exactly if its four fields are in it |
| SealedFiles.EntryReadsExactly | src/rollback.rs:47-56 | and as an entry exactly if its four fields are, the numbers in range |
| SnapshotIdentity.TakenSnapshot | src/rollback.rs:145-220 | a snapshot reported as taken verifies under its key and holds the bytes, hashes and modes of its targets; without faults it is taken |
| SnapshotIdentity.RollbackPlacesSnapshot | src/rollback.rs:102-400 | a rollback puts into the working directory the bytes and modes that the snapshot took |
| SnapshotIdentity.RollbackRestoresSnapshot | src/rollback.rs:102-400 | snapshot then rollback is the identity on a target if and only if the target is in the working directory or unchanged |
| SnapshotIdentity.ExecutableElsewhere | src/rollback.rs:350-352 | an executable in /bin with the working directory /srv: the rollback returns Ok and does not restore it |
| SnapshotIdentity.TamperedBackup | src/rollback.rs:278-400 | whenever the second of two snapshotted files has a bad backup, the rollback fails with the first file old and the second as it was |
| SnapshotIdentity.HalfRestored | src/rollback.rs:278-400 | so it is with /srv/app and /srv/lib: the failed rollback leaves the old app and the new lib |
| TornFiles.TornSnapshotRefused | src/rollback.rs:216-301 | a rollback to a snapshot whose manifest was written in part reports an error and touches nothing |
| TornFiles.AtomicExactly | src/rollback.rs:102-220 | with or without faults, taking a snapshot is atomic (usable only after its last write, and then exactly if reported as taken) if and only if there was no usable snapshot of that version before or the first target, if any, is missing, has no name, or cannot be read or its copy not be opened |
| TornFiles.RetakingDestroys | src/rollback.rs:145-150 | for every version taken before, after the first write of a second snapshot the old manifest still loads and the first backup is empty |
| TornFiles.RollbackWhileRetaking | src/rollback.rs:102-400 | a rollback at such a point follows the old manifest and restores exactly the files before the first backup whose bytes no longer match |
| Store.ReplaceFile | src/rollback.rs:535-565 | `write_json_atomic` on a disk, with every fault and every state |
| Store.ReplaceStates | src/rollback.rs:535-565 | until its last state a replacement changes the temporary file only, then the file is complete |
| Store.IncrementCounter | src/rollback.rs:515-532 | the counter update on a disk |
| Store.NextCountExact | src/rollback.rs:527-528 | with stored counts that fit, the cast to 32 bits loses nothing and the sum saturates |
| Store.IncrementDone | src/rollback.rs:515-532 | after an update the file reads as the old counters with one entry advanced |
| Store.BlacklistVersion | src/rollback.rs:437-460 | the blacklist update on a disk |
| Store.WithVersionAscending | src/rollback.rs:445-448 | the list stays sorted and without duplicates and gains exactly the version |
| Store.SortAscending | src/rollback.rs:447 | sorting a stored list changes nothing |
| Store.WrittenListLoads | src/rollback.rs:492-512 | every list the engine writes in order passes its own check |
| Store.OwnCheckExact | src/rollback.rs:450-507 | a written list passes its check exactly when the MACs of the stored and the sorted order agree |
| Store.AddThenCheck | src/rollback.rs:437-486 | afterwards the check answers yes exactly for the added version and those before; an unreadable list counts as empty |
| Store.SortKeepsAll | src/rollback.rs:447 | sorting loses and invents nothing |
| SealedFiles.CheckExactly | src/rollback.rs:473-512 | the check of a version: no without a file, an error for an unreadable list or one without the MAC of its sorted form, otherwise membership |
| SealedFiles.ListIsSealed | src/rollback.rs:497-507 | a list that passes with the MAC of another list has the same versions as often, unless there is a MAC collision |
| StoreRuns.FinishRollback | src/rollback.rs:402-428 | success record, counter and, from the third rollback on, blacklist, with every fault |
| StoreRuns.FinishStates | src/rollback.rs:402-428 | at every state of it, counter and blacklist are each as before or as after |
| StoreRuns.FinishExactly | src/rollback.rs:402-428 | the end of a rollback returns Ok if and only if the success is logged and the counter replaced, and from the third rollback on the blacklist replaced and logged |
| StoreRuns.FinishDone | src/rollback.rs:402-428 | then one more rollback is on record, and from the third on the version is added to the list |
| StoreRuns.AttemptEffect | src/rollback.rs:402-428 | one rollback cut off anywhere leaves both files complete and advances one count by one or none |
| StoreRuns.AlwaysComplete | src/rollback.rs:402-565 | over any run of rollbacks interrupted anywhere both files are complete documents |
| StoreRuns.CountsAddUp | src/rollback.rs:515-532 | every stored count is min(recorded rollbacks, 2^32 - 1) |
| StoreRuns.CountsNeverFall | src/rollback.rs:515-532 | no stored count ever falls |
| StoreRuns.BannedForever | src/rollback.rs:437-460 | no version ever leaves the blacklist |
| StoreRuns.BannedMeansThree | src/rollback.rs:415-425 | only versions with three recorded rollbacks are on it |
| StoreRuns.ThreeMeansBanned | src/rollback.rs:413-425 | a rollback that returns Ok with three on record has its version on the list from then on, even if an earlier one died between the two files |
| StoreRuns.CheckAnswers | src/rollback.rs:473-486 | over any run the check never fails and answers membership |
| Versions.MostRecentIsGreatest | src/lib.rs:361-383 | the backup chosen is the byte-order maximum, an error exactly without backups |
| Versions.TextOrderIff | src/lib.rs:374-377 | with any numbers of fields and any suffixes, the names of an older and a newer version are in order exactly when their first differing fields are in digit order, and never when they differ only by a suffix |
| Versions.EqualWidths | src/lib.rs:374-377 | fields of equal widths always are |
| Versions.TenBeforeNine | src/lib.rs:374-377 | 1.10.0 is taken for older than 1.9.0 |
| Versions.CandidateAfterRelease | src/lib.rs:374-377 | a release candidate is taken for newer than its release |
| Versions.LatestIsChosen | src/lib.rs:361-383 | of any versions in any listing, the latest is chosen if and only if it is in text order with all others and no other name is greater |
| Versions.EqualWidthsChoose | src/lib.rs:361-383 | with fields of equal widths the numerically greatest version is chosen |
| Engine.ApplyUpdate | src/lib.rs:255-320 | fetch, snapshot, download in this order, each only after the one before, with every state; Ok means the whole genuine artifact is deployed, after a fetch of at most five attempts |
| Engine.AppliedExactly | src/lib.rs:286-315 | applying a manifest succeeds if and only if the snapshot is taken, the mode is not degraded, the artifact can be delivered and the success is logged; then the deployment file holds the whole response, which is the manifest's artifact |
| Engine.GenuineIsApplied | src/lib.rs:286-315 | if nothing fails it succeeds exactly when there is a named executable and the artifact can be delivered |
| Engine.DeployedIsReleased | src/lib.rs:255-315 | if the manifest was accepted from a response, what is deployed is an artifact named in a text that verified as a release |
| Engine.TakesOneExactly | src/rollback.rs:102-220 | an uninterrupted snapshot of one file is taken exactly if it is there and has a name |
| Engine.VersionDirNamed | src/rollback.rs:294 | a version's directory is the one that the listing of backups shows for it |
| Engine.ApplyKeeps | src/lib.rs:247-320 | at every point of an update, successful or not, only files in the version and staging directories have changed |
| Engine.UpdateCrash | src/lib.rs:286-320 | an update that dies anywhere has deployed nothing but a complete genuine artifact, by its last write, and has staged nothing before the snapshot could be loaded |
| Engine.RollbackVersion | src/rollback.rs:288-428 | the files first, then counter and blacklist, on a disk, with every state |
| Engine.RollbackCrash | src/rollback.rs:288-428 | a rollback that dies anywhere leaves a prefix restored, byte for byte, and the store as it was, or everything restored, counter and blacklist each old or new, and nothing else changed |
| Engine.RollbackExactly | src/rollback.rs:288-428 | a rollback returns Ok if and only if every entry is restored, the success is logged and the counter, and from the third rollback on the blacklist, is replaced; then all of that is done and nothing else has changed |
| Engine.RollbackLatest | src/lib.rs:332-358 | a rollback goes to the chosen backup, with every state; without one nothing changes |
| Engine.ApplyThenRollback | src/lib.rs:286-354 | a rollback after an update whose version is the byte-order greatest finds that update's snapshot, and brings the executable back exactly if it was in the working directory or unchanged |
| Engine.StoreKeepsRestored | src/rollback.rs:402-428 | whatever happens to counter and blacklist, restored files stay restored |
| Hkdf.ExtractIsHmac | synqro/reporter/telegram_bot.py:92-96 | the default salt is the one that HMAC cannot tell from an empty key |
| Hkdf.Expand | synqro/reporter/telegram_bot.py:99-108 | the loop computes the octets of RFC 5869, section 2.3; its two errors occur exactly for an empty PRK and for lengths above 255 blocks |
| Hkdf.OutputLength | synqro/reporter/telegram_bot.py:101-108 | for a PRK of any length, exactly when the output is as long as requested |
| Hkdf.ExactLength | synqro/reporter/telegram_bot.py:99-108 | a PRK of hash length gives exactly the requested length |
| Hkdf.ShorterIsPrefix | synqro/reporter/telegram_bot.py:99-108 | shorter outputs are prefixes of longer ones |
| Hkdf.DerivedKeyLength | synqro/reporter/telegram_bot.py:111-117 | extract and expand fit together for every salt and input |
| Report.UnescapeEscape | synqro/reporter/telegram_bot.py:275-280 | unescaping undoes escaping, and every special character is escaped |
| Report.EscapeUnescape | synqro/reporter/telegram_bot.py:275-280 | every well-escaped text is the escape of something |
| Report.EscapeLength | synqro/reporter/telegram_bot.py:275-280 | escaping at most doubles the length |
| Report.TruncatedLog | synqro/reporter/telegram_bot.py:298-303 | a shortened log is the marker and the end of the log, max(budget, 15) characters long |
| Report.LengthBounded | synqro/reporter/telegram_bot.py:306-370 | the message has at most max(3500, fixed parts + 15) characters, and exactly that many when the log is shortened |
| Report.FitsExactly | synqro/reporter/telegram_bot.py:306-370 | exactly when a message fits into 4096 characters |
| Report.LongFieldOverflows | synqro/reporter/telegram_bot.py:306-370 | no report with a trigger field of 4096 characters or more fits, whatever its other fields |
| Report.OrdinaryFieldsFit | synqro/reporter/telegram_bot.py:306-370 | with uncut fields of 1400 characters in all a message has at most 3500 |
| Report.HeaderReadsBack | synqro/reporter/telegram_bot.py:322-341 | whatever the fields hold, the header can be read back field by field |
| Report.BodyReadsBack | synqro/reporter/telegram_bot.py:343-370 | after the header stand the first 400 characters of the error message, if there is one, the log as far as it fits, and the footer, and nothing else |
| CrashReporters.CrashReporter.SendReport | synqro/reporter/telegram_bot.py:403-476 | every exit with the report it leaves behind; a report is suppressed exactly if one for its installation was delivered in the last 300 seconds, so deliveries stay five minutes apart |
| CrashReporters.Utf8OfText | synqro/reporter/telegram_bot.py:440 | text without surrogates is encoded as UTF-8 |
| CrashReporters.ReportComesBack | synqro/reporter/telegram_bot.py:434-451 | the report is unchanged if and only if the call ends before the field is taken out, or there is no such field, or it is not null, its text is ASCII and the other fields encode; otherwise exactly that field is gone |
| CrashReporters.OnlyAuthenticIsSent | synqro/reporter/telegram_bot.py:425-463 | sending is tried exactly for authentic reports outside the rate limit |
| CrashReporters.AccentLosesField | synqro/reporter/telegram_bot.py:435-448 | the MAC field of a report is lost if it holds an accented letter |
| CrashReporters.SurrogateLosesField | synqro/reporter/telegram_bot.py:435-448 | so is any MAC of a report with a lone surrogate in another field |

## Left out

- Floating-point JSON numbers and serde_json's nesting limit: numbers are the integers from the smallest i64 to the largest
  u64, nesting is unbounded, and a document with any other number does not parse.
- Internals of the hash, MAC, signature, Base64 and time libraries; TLS, certificate pinning, HTTP, tokio, tokens and all of
  `src/keychain/`.
- AuditLock.ConcurrentLogVerifies: assumes that writes succeed; failing ones are in `Audit.AuditLogger.Log`, and what they do
  to verification is in `TornFiles.TornRecordDetected` and `TornFiles.TornRecordSpoilsLog`.
- AuditLock.RecordsStayWhole: models the Linux path only; elsewhere there is no lock between processes.
- TornFiles.AtomicExactly: is for targets not called `snapshot.json`.
- Directories, symbolic links and canonicalisation: directories exist implicitly and canonical paths are given.
  Failure to create a parent directory is a fault of the restore; the names given to temporary files are parameters.
- Power failures: the restore never calls `fsync` on its temporary file before the rename (`src/rollback.rs:368-397`), and
  nothing calls it on the parent directory. The model keeps the order of writes, so it covers the death of the process and
  not the reordering of unsynced writes.
- Confinement.RollbackStaysInside: that a directory cannot be read as a file is a condition on the file system, not derived.
- Versions.LatestIsChosen: leaves the order among the pre-releases of one release open; of two such versions neither is the
  older.
- RestoreGuarantees.AllOrNothing: is for entries with distinct destinations, none of them a temporary file, where no entry
  reads what another one writes; temporary files do not count as changes.
- Engine.RollbackCrash: is for entries with distinct destinations, none of them a temporary file or in the directory of
  counter and blacklist; `RestoreGuarantees.PerFileAtomic` and `Confinement.ConfinedExactly` are for any entries.
- StoreRuns.CountsAddUp: assumes that reading the two files never fails and that nobody else writes them; a blacklist that
  fails its check is replaced by a list of one version (`Store.AddThenCheck` with an empty old list).
- SnapshotIdentity.RollbackRestoresSnapshot: is for targets in one directory with distinct base names, none of them
  `snapshot.json` or the temporary name of another target.
- Degraded.FlagIsLatch: takes the operations on each atomic as one step each, in one order.
- Artifacts.ReadCapped: is for a 64-bit `usize`.
- Engine.ApplyUpdate: leaves out the creation of the staging directory, the key derivation and the watchdog.
- CrashReporters.CrashReporter.SendReport: a dictionary is a map, so the position of the restored field is not modelled;
  `_format_report` and the delivery are in `Report` and a parameter.
- Regex scrubbing, Telegram delivery, logging and configuration of the reporter.
- Features that the documentation describes and the Rust code does not have: downgrade rejection, rollout and channel checks,
  `size_bytes` checks, refusing blacklisted versions on apply, pruning of old backups, swapping the installed binary.
- Configuration validation, status codes, event tables, bindings and `scripts/post_install.py`: they would add only easy
  members.
