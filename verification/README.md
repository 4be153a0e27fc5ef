# Persistence protocols of the stack manager backend

Several backend processes and one leader change the same tables through
conditional updates, row locks and batched deletes. This project models those
protocols and proves what the code comments promise about every interleaving.

A table is a map from id to row (or a set of rows), a SQL statement or a locked
transaction is one atomic step, and a run is any sequence of steps of any number
of processes. Main results speak about all runs. Where a rule of the protocol is
a choice (a lock, a statement order, the place of a read), the rule is a
parameter and the theorem says that the protocol is safe if and only if the rule
is kept. Code that updates rows step by step is a class. Its methods are proved
equal to the steps of the machine, or to the run of one call that nothing
interrupts; `SetDefault` of the clusters, the client registry, the migrations and
the channel repository state their new rows instead.

| file | contents |
|---|---|
| `Keys.dfy`, `Logs.dfy` | ids, the (time, id) order, the deploy log row |
| `OperationLog.dfy` | writers of running logs, heartbeats, recovery of interrupted operations |
| `Retention.dfy` | keep rule, batched delete, history highlights |
| `InstanceDelete.dfy`, `Followers.dfy` | instance delete, owned definition cleanup, follow |
| `Cursor.dfy`, `Paging.dfy` | cursor codec and keyset paging |
| `Summaries.dfy` | single and batched deploy statistics |
| `ChannelSecrets.dfy`, `RefreshTokens.dfy` | stored secrets and URLs, token families |
| `DefaultCluster.dfy`, `ClientCache.dfy` | the caches of the default cluster and of the clients |
| `Redaction.dfy` | redaction of SQL error texts |
| `TemplateRelease.dfy`, `UserBackfill.dfy` | the two data migrations |

`dafny verify dfyconfig.toml` checks everything.

## Assumptions

- A log's id, instance, action and `started_at` do not change after the insert;
  ids of logs, instances and tokens are not reused.
- `RowsAffected` counts changed rows. Row locks are held to commit. A transaction
  reads plainly in the snapshot of its first plain read. The effects of a
  transaction appear at its commit; `InterruptOperation` is one atomic step.
- Database time does not go back. Times are integers in column precision; only
  the template release looks at finer clock readings and at the rounding column.
- Recovery (`RecoveryOverwritesOnlyWhatItRead`): no two writes of an instance row
  have the same status and `updated_at`, apart from the statements that clear
  `delete_after_clean` and set `expiry_warned_at`, which keep `updated_at`.
- Decrypting an encrypted text with the same key gives the text. A time text
  parses back to its time, is not empty and has no bar. AES-GCM and the RFC 3339
  format are parameters.
- Ids compare byte by byte, and `secret = ?` compares exact texts.
- A process has one encryption key or none for its whole life; processes with
  and without it may serve at the same time.
- The charts query returns the charts of a template in a fixed order. A stored
  snapshot that is read back is the snapshot that was stored (JSON), and its text
  is valid UTF-8.
- The owner of a quick deploy definition uses it.

## Findings

- A writer call for a log that was not yet inserted is the one exception to
  linearizability: the COUNT can see a row that the UPDATE missed
  (`CallBeforeInsertIsNotLinearizable`).
- Among deletes alone the definition cleanup is safe and complete with either
  place of the snapshot. The comment at `instance_delete.go` lines 53-55 is
  right about clones: the snapshot order decides whether a clone from before the
  lock can be missed (`SnapshotMustFollowTheLock`). The lock itself does not block
  a clone, as the comment at lines 128-130 says; the danger is exactly a clone
  between the count and the commit (`CloneWindowIsExact`,
  `CloneAfterCountLosesItsDefinition`).
- A failed cleanup leaves a definition behind exactly when it was the last care
  for it (`FailureForgets`, `FailedCleanupForgets`).
- `GetClients` reads the cluster row outside the lock: a slow lookup can store the
  clients of the old row after `InvalidateClient`, and they stay until the next
  invalidation (`SlowLookupStoresOldClients`, `CacheStaysUntilInvalidated`). The
  rule is exact (`StaleExactlyByAStaleStore`). The default cluster, read under
  the lock, has no such problem.
- Without a key, a save that confirms the stored plain secret succeeds also when
  another process has replaced the secret meanwhile (`ConfirmedSecretIsGone`).
- The optimistic lock of the recovery does not see a cleared
  `delete_after_clean` or an expiry warning, because both keep `updated_at`
  (`ClearedMarkIsNotNoticed`), and not a write with the same status and clock
  reading (`ReusedVersionIsOverwritten`).
- A save of other channel fields writes the loaded URL back, so it undoes a
  concurrent URL change (`UrlChangeIsLost`). The secret has no such problem.
- Redaction of the two known messages does not depend on the value for every
  prefix, not only for prefixes without quotes. Other quoted texts can show a
  part of the value in two ways: the value imitates a duplicate-entry message,
  or letters touch a quote (`ImitationShows`, `ApostropheLeaks`);
  `OtherQuotedTextIsRedacted` is exact.
- Migration 44 leaves a blank template version in place when the newest snapshot
  already holds the default one, so the template row and its snapshot can differ
  in the version (`BlankVersionStays`).
- Migration 44 compares clock readings before the column rounds them. Within the
  rounding of the column a new snapshot can tie with the stale one and sort
  below it (`TiedSnapshotDoesNotRelease`).
- Retention can take a partial last good log, exactly when it is old and a later
  deploy or rollback log exists (`PartialLastGoodIsTaken`).

## Model

| member | source | states |
|---|---|---|
| `OperationLog.WriterIsLinearizable` | backend/internal/database/deployment_log_repository.go:70-148 | an UPDATE-then-COUNT call has, for all statements of other processes in between, the effect and answer of one atomic write at its first or last instant, if and only if the log was inserted before the call, is not running at the COUNT, or already holds the values |
| `OperationLog.CallBeforeInsertIsNotLinearizable` | backend/internal/database/deployment_log_repository.go:127-148 | the input: a call before the insert changes nothing and still answers nil |
| `OperationLog.UpdateDoesWhatItSays` | backend/internal/database/deployment_log_repository.go:70-148 | the UPDATE of each writer, column by column: a running row is replaced, or its deadline becomes the later of the old and the new one, or its output is replaced, with every other column, row and table unchanged; a log that is not running does not change |
| `OperationLog.AnswersAreHonest` | backend/internal/database/deployment_log_repository.go:70-148 | nil: the row was running and held the caller's values (for a deadline, one at least as late); ErrDeployLogNotRunning: the row is not running at the COUNT and the call changed nothing |
| `OperationLog.FinishedForever` | backend/internal/database/deployment_log_repository.go:70-148 | in every run of all writers, replicas, retention, recovery and the user backfill, a finished or deleted log never runs again and no column of it but user_id changes |
| `OperationLog.ClosedHasNoExit` | backend/internal/database/deployment_log_repository.go:70-93 | a log that is not running does not leave running later in any run |
| `OperationLog.LeavesRunningAtMostOnce` | backend/internal/database/interrupted_operation_repository.go:71-134 | over every run a log goes from running to another state at most once |
| `OperationLog.LiveReplicaIsNeverInterrupted` | backend/internal/database/interrupted_operation_repository.go:30-91 | while the last beat of a replica is at most staleAfter old, it is not removed and cleanup keeps at least staleAfter, no InterruptOperation of the run changes one of its running logs |
| `OperationLog.ShortCleanupInterruptsLiveReplica` | backend/internal/database/replica_heartbeat_repository.go:84-90 | for every cleanup age below staleAfter there is a run that ends an operation of a replica with a beat in time, so the condition on the age is exact |
| `OperationLog.InterruptIsGuarded` | backend/internal/database/interrupted_operation_repository.go:71-134 | what InterruptOperation may change: a conflict changes nothing, a closed log gets error, message and time, the instance becomes error only with the log, without a newer operation and with the status and updated_at that were read; no other row changes |
| `OperationLog.InterruptIsExact` | backend/internal/database/interrupted_operation_repository.go:71-134 | outcome and new tables, decided by the old tables alone: the log is closed if and only if it is running, belongs to the replica and the replica has no fresh beat, except when a status is given, no newer operation exists and the instance row fails the lock; that case, and only that one, is a conflict |
| `OperationLog.VersionNeverReturns` | backend/internal/database/interrupted_operation_repository.go:96-125 | when no write but the two marks reuses a (status, updated_at) pair, a pair that is there at the end of a run was there from the start |
| `OperationLog.OnlyMarksChange` | backend/internal/database/stack_instance_repository.go:227-249 | while the pair stays, only delete_after_clean and expiry_warned_at change, each exactly when a statement runs that finds it unmarked and, for the warning, finds its expires_at |
| `OperationLog.RecoveryOverwritesOnlyWhatItRead` | backend/internal/database/interrupted_operation_repository.go:96-134 | whatever ran between the leader's read and its transaction, without a reused pair the transaction sets the instance to error only while every column but the two marks is as read; the whole row is as read if and only if no mark took effect |
| `OperationLog.ClearedMarkIsNotNoticed` | backend/internal/database/stack_instance_repository.go:227-234 | the run: delete_after_clean is cleared, updated_at stays, and the recovery overwrites a row that is not the one it read |
| `OperationLog.ReusedVersionIsOverwritten` | backend/internal/database/interrupted_operation_repository.go:109-125 | the condition on pairs is needed: any row written with the same status and updated_at is overwritten |
| `OperationLog.OtherStepsTakeEffect` | backend/internal/database/retention_repository.go:97-109 | retention removes exactly the finished logs it is given; the backfill writes one user; an instance goes; time makes a beat stale |
| `OperationLog.LogRepository.CountRunning` | backend/internal/database/deployment_log_repository.go:80-92 | a count of 0 for an inserted log is final: no later run of any writers makes it running |
| `OperationLog.LogRepository.Update` | backend/internal/database/deployment_log_repository.go:70-93 | linearizable for an inserted log next to any statements in between; the UPDATE replaces the running row and nothing else |
| `OperationLog.LogRepository.ExtendDeadline` | backend/internal/database/deployment_log_repository.go:99-120 | linearizable likewise; the UPDATE moves the deadline only later, to the maximum of the old and the new one, and changes no other column |
| `OperationLog.LogRepository.UpdateRunningOutput` | backend/internal/database/deployment_log_repository.go:127-148 | linearizable likewise; the UPDATE changes the output and no other column |
| `OperationLog.LogRepository.InterruptOperation` | backend/internal/database/interrupted_operation_repository.go:71-134 | the transaction with its rollback has exactly the outcome and the new tables that InterruptIsExact states |
| `OperationLog.LogRepository.BeatOnce` | backend/internal/database/replica_heartbeat_repository.go:51-57 | after a beat the replica is stale for no age |
| `OperationLog.LogRepository.Remove` | backend/internal/database/replica_heartbeat_repository.go:80-82 | after a remove the replica is stale for every age |
| `OperationLog.LogRepository.DeleteOlderThan` | backend/internal/database/replica_heartbeat_repository.go:86-90 | cleanup changes no staleness answer for ages up to maxAge, and returns the number of rows it removed |
| `OperationLog.LogRepository.SeenWithin` | backend/internal/database/replica_heartbeat_repository.go:61-77 | the ids with a fresh heartbeat, exactly those that the recovery condition calls not stale |
| `Retention.KeepRuleMeansTheKeepList` | backend/internal/database/retention_repository.go:66-95 | on every table the nested EXISTS condition selects a log if and only if it is not on the documented keep list (newest deploy or rollback log, newest successful deploy, two newest successful deploy or rollback logs of an existing instance) |
| `Retention.LaterLogsMean` | backend/internal/database/retention_repository.go:66-72 | which logs count as newer for the three parts of the keep list: same instance, action and status, later start or equal start and greater id |
| `Retention.TwoNewerIsAChain` | backend/internal/database/retention_repository.go:86-87 | two newer successful logs exist if and only if the nested n1, n2 EXISTS holds |
| `Retention.DeletableSurvivesRetention` | backend/internal/database/retention_repository.go:101-105 | removing any set of deletable logs keeps every other deletable log deletable, because its reasons are found among kept logs |
| `Retention.DeletableSurvivesGrowth` | backend/internal/database/retention_repository.go:101-105 | inserts, running-to-finished writes and instance deletes keep a finished deletable log deletable |
| `Retention.BatchKeepsTheRest` | backend/internal/database/retention_repository.go:153-185 | after a batch the selectable rows are exactly the earlier ones without the batch |
| `Retention.VictimsAreTheOldUnprotected` | backend/internal/database/retention_repository.go:83-100 | the rows that the select can return are exactly the successful, failed or partial logs before the cutoff that are on no keep list |
| `Retention.RetentionRepository.DeleteDeploymentLogsOlderThan` | backend/internal/database/retention_repository.go:61-109 | for every batch size and every choice of rows per batch a log is gone if and only if it is finished, before the cutoff and on no keep list of the first table; other rows are unchanged and the total is the number of rows that went |
| `Retention.RetentionRepository.SelectIds` | backend/internal/database/retention_repository.go:161-167 | any such rows, as many as the limit allows |
| `Retention.ScopeSparesTheKept` | backend/internal/database/retention_repository.go:97-109 | the delete statement with ids from an earlier table whose remaining rows are deletable: no log on the keep list goes, and the other selectable rows stay selectable |
| `Retention.StepKeepsInvariant` | backend/internal/database/retention_repository.go:101-109 | between select and delete, through any step of other writers or other retention runs, every selected row that exists stays finished and deletable |
| `Retention.DeleteBatchTakesEffect` | backend/internal/database/retention_repository.go:168-172 | the delete of a selected batch removes exactly its rows that are still finished and old |
| `Retention.SelectThenDelete` | backend/internal/database/retention_repository.go:153-185 | a select and its delete remove any chosen finished and old rows that are on no keep list |
| `Retention.RetentionIsSafe` | backend/internal/database/retention_repository.go:61-109 | in every interleaving of any number of retention runs with inserts, finishing writes and instance changes, no delete removes a running log or a log that is on the keep list at that instant |
| `Retention.NewestRow` | backend/internal/database/deployment_log_repository.go:301-315 | the newest row of the selected ones by (started_at, id), or none |
| `Retention.HighlightsBelongTogether` | backend/internal/database/deployment_log_repository.go:254-297 | each highlight is a log of the instance in the right state, the failure is later than the last good log, and Current is missing only after a rollback whose target log does not exist |
| `Retention.HighlightsAreTheLatest` | backend/internal/database/deployment_log_repository.go:254-297 | each highlight is there when a log for it is, and is the newest such log; the current deploy is the last good deploy or the target of the last good rollback |
| `Retention.LastGoodMayGoOnlyWhenPartial` | backend/internal/database/deployment_log_repository.go:260-280 | retention can select the last good log of an existing instance if and only if it is partial, old and followed by a later deploy or rollback log |
| `Retention.PartialLastGoodIsTaken` | backend/internal/database/deployment_log_repository.go:260-280 | the input: a partial deploy followed by a failed one; retention takes it, and Current is empty afterwards |
| `Retention.NoDeleteChangesCurrent` | backend/internal/database/deployment_log_repository.go:254-297 | in every interleaving of retention with all other writers, no delete of a batch, also with ids from an earlier table, changes a successful last good log of an existing instance or the Current highlight it sets |
| `Retention.RetentionKeepsCurrent` | backend/internal/database/deployment_log_repository.go:254-297 | any number of interleaved retention runs with any ages leaves a successful last good log, and with it the Current highlight when it is a deploy |
| `InstanceDelete.StepKeepsStructure` | backend/internal/database/instance_delete.go:30-76 | every step of every delete, clone and failure keeps: a lock holder's definition exists, and its count is right up to later clones |
| `InstanceDelete.DefinitionStaysCared` | backend/internal/database/instance_delete.go:30-76 | every step keeps: d is used, or some delete under way has not seen a reason to keep it; the one exception is a failed cleanup that was the last care for d |
| `InstanceDelete.FailureForgets` | backend/internal/database/instance_delete.go:25-28 | a failed cleanup of a cared-for definition leaves it without care if and only if it is unused and no other delete still decides about it |
| `InstanceDelete.NothingIsForgotten` | backend/internal/database/instance_delete.go:30-76 | for one definition that is used or under cleanup, whatever was left behind elsewhere: when no delete is between its record and its end, in any interleaving with clones and with failures that are not the last care for it, it is used or gone with its charts |
| `InstanceDelete.FailedCleanupForgets` | backend/internal/database/instance_delete.go:25-28 | the run: an error in the last cleanup leaves the definition without a user |
| `InstanceDelete.DefinitionInUseStays` | backend/internal/database/instance_delete.go:124-171 | no interleaving of any number of deletes, failures and clones removes a definition while an instance uses it, when no clone is of a definition that a delete has already seen unused |
| `InstanceDelete.CloneWindowIsExact` | backend/internal/database/instance_delete.go:124-171 | the rule is exact for the source: a run is at every point out of danger of removing a used definition if and only if no clone falls between the count and the commit of a cleanup of its definition |
| `InstanceDelete.StepKeepsWindow` | backend/internal/database/instance_delete.go:124-171 | one step lets a definition that a delete has seen unused be used if and only if it is a fresh clone of such a definition |
| `InstanceDelete.WindowIsTheDanger` | backend/internal/database/instance_delete.go:151-168 | some next step can remove a definition in use if and only if a cleanup between count and commit has a used definition |
| `InstanceDelete.OnlyLateClonesLoseTheirDefinition` | backend/internal/database/instance_delete.go:124-171 | an instance loses its definition only when it was cloned after the count of the cleanup, which is after its lock |
| `InstanceDelete.SnapshotMustFollowTheLock` | backend/internal/database/instance_delete.go:49-76 | the count misses no clone from before the lock, over all runs, if and only if the owner check has a transaction of its own |
| `InstanceDelete.SharedSnapshotMissesAClone` | backend/internal/database/instance_delete.go:53-56 | the run in which a plain read before the lock makes the count miss a clone |
| `InstanceDelete.CloneAfterCountLosesItsDefinition` | backend/internal/database/instance_delete.go:128-130 | the lock does not block a clone: one inserted between count and commit is left without its definition |
| `InstanceDelete.UsersAreYounger` | backend/internal/database/instance_delete.go:151-168 | the users of a definition that is about to be deleted were all inserted after the snapshot of the count |
| `InstanceDelete.CountDecides` | backend/internal/database/instance_delete.go:136-161 | the cleanup goes on to delete if and only if the definition is owned, its owner is the deleted instance or gone, and no instance uses it |
| `InstanceDelete.CommitRemoves` | backend/internal/database/instance_delete.go:162-168 | the commit removes the definition and its charts, and nothing else |
| `InstanceDelete.DeleteAloneEffect` | backend/internal/database/instance_delete.go:30-45 | a delete of the machine that nothing interrupts has the effect that the code of one delete states |
| `InstanceDelete.InstanceStore.DeleteInstanceRecord` | backend/internal/database/instance_delete.go:82-116 | removes the instance and every row of the five child tables; a missing instance rolls everything back |
| `InstanceDelete.InstanceStore.CleanupOwnedDefinition` | backend/internal/database/instance_delete.go:124-171 | deletes definition and charts exactly when the definition is owned, its owner is the instance or gone, and nothing uses it |
| `InstanceDelete.InstanceStore.DeleteInstanceWithOwnedDefinition` | backend/internal/database/instance_delete.go:30-45 | equals a delete of the machine that nothing interrupts; afterwards no definition of the deleted owner is left without a user, and a deleted definition had no user and leaves no chart |
| `Followers.RunKeepsInvariant` | backend/internal/database/instance_follower_repository.go:39-61 | every interleaving of any number of follow, unfollow and delete transactions, with rollbacks, keeps every committed follower row on an existing instance |
| `Followers.BothRulesAreNeeded` | backend/internal/database/instance_delete.go:99-109 | the protocol leaves no orphan in any run if and only if Follow takes the shared lock and the delete removes the row before the followers |
| `Followers.PlainReadLeavesAnOrphan` | backend/internal/database/instance_follower_repository.go:39-61 | without the shared lock: the run that leaves an orphan |
| `Followers.SweepFirstLeavesAnOrphan` | backend/internal/database/instance_delete.go:99-109 | with the followers deleted first: the run that leaves an orphan |
| `Followers.FollowerRepository.Follow` | backend/internal/database/instance_follower_repository.go:39-61 | equals the three steps of the machine and keeps its invariant; afterwards the row is there exactly if the call reports found |
| `Followers.UnfollowUndoesFollow` | backend/internal/database/instance_follower_repository.go:39-71 | an unfollow after a follow gives the earlier state back if and only if the user did not follow before |
| `Followers.FollowerRepository.DeleteInstance` | backend/internal/database/instance_delete.go:96-109 | equals the four steps of the machine, keeps its invariant and removes exactly the followers of the instance |
| `Cursor.Base64RoundTrip` | backend/internal/database/deployment_log_repository.go:319-331 | base64url decoding undoes encoding for every byte string |
| `Cursor.DigitsAreTheAlphabet` | backend/internal/database/deployment_log_repository.go:319-323 | the 64 digits are A-Z, a-z, 0-9, - and _ in this order |
| `Cursor.DigitsAreTheBits` | backend/internal/database/deployment_log_repository.go:319-323 | four digits stand for the 24 bits of three bytes, most significant first, with zero padding at the end |
| `Cursor.CursorHoldsTimeBarId` | backend/internal/database/deployment_log_repository.go:319-323 | a cursor is the encoding of the time, a bar and the id |
| `Cursor.DecodeCursorMeans` | backend/internal/database/deployment_log_repository.go:325-340 | for any text: which of the errors it gives, and that it is a position if and only if it encodes a time that parses, a bar and an id, split at the first bar |
| `Cursor.LineBreaksAreSkipped` | backend/internal/database/deployment_log_repository.go:325-331 | line breaks in a cursor text do not count |
| `Cursor.CursorRoundTrip` | backend/internal/database/deployment_log_repository.go:317-340 | a cursor decodes to the position it was made from, also with bars in the id, if and only if the id is not empty |
| `Paging.SortDescSorts` | backend/internal/database/deployment_log_repository.go:199-247 | the reference order lists exactly the rows, strictly descending by (started_at, id) |
| `Paging.SortDescIsUnique` | backend/internal/database/deployment_log_repository.go:199-247 | there is one such list |
| `Paging.TakeAndDrop` | backend/internal/database/deployment_log_repository.go:226-229 | LIMIT and OFFSET cut the sorted rows in two without losing one |
| `Paging.DropIsBelow` | backend/internal/database/action_run_repository.go:44-62 | skipping n rows of the sorted list is asking for the rows below the n-th |
| `Paging.PageIsAPrefix` | backend/internal/database/action_run_repository.go:44-70 | a page is the first rows below the cursor, and the next cursor denotes its last row exactly when more rows follow |
| `Paging.ActionRunPage` | backend/internal/database/action_run_repository.go:44-70 | for every limit: the first 20 rows without one, at most 100, below the cursor; the next cursor names the last row exactly when more follow |
| `Paging.DeployLogCursorPage` | backend/internal/database/deployment_log_repository.go:193-224 | the same for the deploy logs, 50 rows without a limit |
| `Paging.DeployLogOffsetPage` | backend/internal/database/deployment_log_repository.go:226-247 | for every offset and limit: the rows from the offset on, and a next cursor for the last of them exactly when more follow |
| `Paging.BadCursorIsRefused` | backend/internal/database/deployment_log_repository.go:199-203 | both lists refuse a text if and only if it is no cursor |
| `Paging.OffsetPageContinues` | backend/internal/database/deployment_log_repository.go:226-247 | an offset page of an unchanged table is the right slice and its next cursor continues exactly there; the page at offset 0 is the first page of the cursor walk |
| `Paging.DeployLogPagesAreAWalk` | backend/internal/database/deployment_log_repository.go:171-248 | the deploy log list without an offset gives the pages of the same keyset walk |
| `Paging.WalkListsEverything` | backend/internal/database/deployment_log_repository.go:171-248 | following NextCursor through encode and decode on an unchanged table ends and lists every matching row once, in order |
| `Paging.WalkNeverRepeats` | backend/internal/database/action_run_repository.go:44-70 | with any inserts and deletes between pages no row is listed twice |
| `Paging.WalkMissesNothing` | backend/internal/database/action_run_repository.go:44-70 | a walk that ends has listed every row below its start that matched throughout |
| `Redaction.RedactSqlError` | backend/internal/database/gorm_logger.go:200-223 | the recursive code with its scan loop terminates and equals the specification that the lemmas below are about |
| `Redaction.RedactBetweenQuotes` | backend/internal/database/gorm_logger.go:207-222 | the scan loop finds the first and the last quote that is no word apostrophe, for every text |
| `Redaction.TailMeansExpression` | backend/internal/database/gorm_logger.go:191-194 | the index test accepts exactly the texts that the part of the regular expression after the value describes |
| `Redaction.TailIsUnique` | backend/internal/database/gorm_logger.go:191-194 | a text has at most one place where that part can start, whatever the value holds |
| `Redaction.RedactionIgnoresTheValue` | backend/internal/database/gorm_logger.go:200-223 | for every prefix, any two values (with quotes, line breaks or message text inside) and every quote-free name, both messages redact to the same text |
| `Redaction.DuplicateEntryIsRedacted` | backend/internal/database/gorm_logger.go:200-206 | the exact redacted duplicate-entry text: no value, the key name kept |
| `Redaction.ColumnValueIsRedacted` | backend/internal/database/gorm_logger.go:200-206 | the exact redacted column text: no value, column name and row number kept |
| `Redaction.UsualDuplicateEntry` | backend/internal/database/gorm_logger.go:200-206 | a quote-free prefix stays as it is |
| `Redaction.DuplicateEntryMessage` | backend/internal/database/gorm_logger.go:191-206 | Duplicate entry 'value' for key 'name': the value becomes a question mark, the rest stays |
| `Redaction.ColumnValueMessage` | backend/internal/database/gorm_logger.go:191-206 |  value: 'value' for column 'name' at row n: the same |
| `Redaction.QuoteFreeTextStays` | backend/internal/database/gorm_logger.go:216-218 | a text without quotes is not changed |
| `Redaction.UnclosedQuoteHidesTheRest` | backend/internal/database/gorm_logger.go:207-229 | a single quote hides all that follows it, unless letters on both sides make it an apostrophe |
| `Redaction.LettersAreAscii` | backend/internal/database/gorm_logger.go:226-229 | letters are those of ASCII |
| `Redaction.OtherQuotedTextIsRedacted` | backend/internal/database/gorm_logger.go:200-229 | a text with one quoted value is redacted to the text around it if and only if no pattern matches it and no letters make an outer quote look like an apostrophe |
| `Redaction.ImitationShows` | backend/internal/database/gorm_logger.go:200-206 | the inputs: a value that imitates a duplicate-entry message shows its last part in the log |
| `Redaction.ApostropheLeaks` | backend/internal/database/gorm_logger.go:207-229 | the inputs: an opening quote between two letters counts as an apostrophe, and the whole value shows |
| `RefreshTokens.RevokedForever` | backend/internal/database/refresh_token_repository.go:34-59 | in every run a revoked token never becomes active and never changes |
| `RefreshTokens.OneRotationWins` | backend/internal/database/refresh_token_repository.go:38-43 | over every run at most one rotation call per token reports a row, and rotated_at is the time of that winner or the earlier value |
| `RefreshTokens.RevokeTakesEffect` | backend/internal/database/refresh_token_repository.go:34-59 | each revoke statement sets revoked of exactly the tokens of its condition and no other column |
| `RefreshTokens.RevokesStayInside` | backend/internal/database/refresh_token_repository.go:55-110 | a revoke for one user leaves the tokens of others active, and the excluded token |
| `RefreshTokens.DeleteExpiredTakesEffect` | backend/internal/database/refresh_token_repository.go:143-146 | the cleanup removes exactly the tokens that expired before the time |
| `RefreshTokens.TouchTakesEffect` | backend/internal/database/refresh_token_repository.go:94-100 | a touch moves the last activity of active, unexpired tokens of the family forward to its time, and nothing else |
| `RefreshTokens.RotateAndCreateTakeEffect` | backend/internal/database/refresh_token_repository.go:22-43 | a rotation changes the one active token, a create adds a token of a new id |
| `RefreshTokens.ActivityIsTheLatestTouch` | backend/internal/database/refresh_token_repository.go:94-100 | for a token that stays active, last_activity is the maximum of its first value and the touch times before its expiry |
| `RefreshTokens.ActivityIgnoresTheOrder` | backend/internal/database/refresh_token_repository.go:94-100 | two runs with the same set of touch times leave the same last_activity |
| `RefreshTokens.CapSparesTheNewest` | backend/internal/database/refresh_token_repository.go:112-137 | whatever runs between the read and the update, the call changes only active candidates of the read with at least keep newer ones, by revoking them; the keep newest, the excluded token and tokens created after the read stay |
| `RefreshTokens.CapLeavesTheNewest` | backend/internal/database/refresh_token_repository.go:112-137 | without interruption exactly the keep newest candidates stay active, and those beyond the batch of 1000 |
| `RefreshTokens.TokenRepository.MarkRotatedIfActive` | backend/internal/database/refresh_token_repository.go:38-43 | the step and the row count that OneRotationWins is about; the token is not active afterwards |
| `RefreshTokens.TokenRepository.RevokeFamily` | backend/internal/database/refresh_token_repository.go:47-51 | exactly the tokens of the family, and a legacy token that started it, become inactive |
| `RefreshTokens.TokenRepository.TouchFamily` | backend/internal/database/refresh_token_repository.go:96-100 | the touch step; no last_activity moves back |
| `DefaultCluster.StepKeepsInvariant` | backend/internal/cluster/registry.go:181-277 | every step of lookups, writers and invalidations keeps: cache and answers hold a default that the database had at a time not before the last invalidation |
| `DefaultCluster.LookupSeesTheChange` | backend/internal/cluster/registry.go:233-277 | a lookup that starts after SetDefault and InvalidateDefault returned yields the new default, in every interleaving |
| `DefaultCluster.CoherentBecauseOfTheLock` | backend/internal/cluster/registry.go:181-277 | every lookup of every run is fresh if and only if the database read runs under the write lock |
| `DefaultCluster.ReadOutsideTheLockGoesStale` | backend/internal/cluster/registry.go:192-225 | with the read before the lock: the run whose later lookup answers with the old default |
| `DefaultCluster.ClusterRepository.SetDefault` | backend/internal/database/cluster_repository.go:444-478 | afterwards the target is the only default; a missing target changes nothing |
| `DefaultCluster.Registry.ResolveDefault` | backend/internal/cluster/registry.go:233-277 | equals a lookup of the machine that nothing interrupts, in cache and answer; a transient error is not remembered |
| `DefaultCluster.RegistryConfigAlone` | backend/internal/cluster/registry.go:318-348 | a lookup of the registry configuration answers like the others but does not remember that there is no default |
| `DefaultCluster.InvalidationForcesARead` | backend/internal/cluster/registry.go:369-375 | after an invalidation a lookup answers with the default of the database, whatever the cache held |
| `ClientCache.StaleExactlyByAStaleStore` | backend/internal/cluster/registry.go:143-178 | no lookup answers with clients from before the invalidation it came after, at any point of the run, if and only if no lookup stores clients that it read before the last invalidation |
| `ClientCache.StepKeepsCoherence` | backend/internal/cluster/registry.go:143-178 | one step leaves old clients in the cache if and only if it is such a store; the answers given so far stay fresh |
| `ClientCache.IncoherentMeansStale` | backend/internal/cluster/registry.go:143-150 | a lookup that starts now can answer stale if and only if the cache holds clients from before the last invalidation |
| `ClientCache.SlowLookupStoresOldClients` | backend/internal/cluster/registry.go:152-178 | the run: a slow lookup stores the clients of the old row after the change and the invalidation, and the next lookup gets them |
| `ClientCache.ClientRegistry.GetClients` | backend/internal/cluster/registry.go:143-178 | a success answers with what the cache holds, the first stored clients win, an error stores nothing, and other clusters are not touched |
| `ClientCache.CacheStaysUntilInvalidated` | backend/internal/cluster/registry.go:143-178 | nothing but an invalidation replaces cached clients |
| `ClientCache.LookupAlone` | backend/internal/cluster/registry.go:143-178 | a hit answers with the cache; a miss stores and answers with the clients of the current row; an error stores nothing |
| `ChannelSecrets.EncryptedReadsBack` | backend/internal/database/notification_channel_repository.go:65-96 | what is stored with a key reads back as the same text, decrypted |
| `ChannelSecrets.StoredTextsRead` | backend/internal/database/notification_channel_repository.go:57-88 | how every stored text reads: encrypted texts with their key, plain texts as they are, older ciphertext only in the secret column, and the rest as unreadable |
| `ChannelSecrets.SaveIsExact` | backend/internal/database/notification_channel_repository.go:235-295 | which saves are refused, and what any other save stores in each column: name and the other fields, URL, secret and its move to the new format |
| `ChannelSecrets.LoadAndEdit` | backend/internal/database/notification_channel_repository.go:104-127 | a request keeps what it loaded, apart from the fields of its edit |
| `ChannelSecrets.SaveKeepsSecret` | backend/internal/database/notification_channel_repository.go:235-295 | a save without a new secret keeps the secret as its process reads it, also while it moves it to the new format; a concurrently changed column, and every column without a key, stays byte for byte |
| `ChannelSecrets.SavesNeverTouchTheSecret` | backend/internal/database/notification_channel_repository.go:235-295 | the same for every save of every interleaving of requests, with any mix of keys among the processes |
| `ChannelSecrets.KeylessSaveKeepsTheColumn` | backend/internal/database/notification_channel_repository.go:144-165 | without a key, confirming the stored plain secret succeeds and keeps the column: it holds the confirmed secret if and only if nobody changed it since the read |
| `ChannelSecrets.ConfirmedSecretIsGone` | backend/internal/database/notification_channel_repository.go:144-165 | the run: a request without a key confirms a secret with success that another process has replaced |
| `ChannelSecrets.UrlSaveKeepsMeaning` | backend/internal/database/notification_channel_repository.go:172-181 | a save of other fields keeps what the URL column means to its process if and only if that is still the loaded URL, or the URL was unreadable |
| `ChannelSecrets.UrlChangeIsLost` | backend/internal/database/notification_channel_repository.go:266-275 | the run: two requests load, one saves a new URL, the other saves other fields, and the new URL is lost |
| `ChannelSecrets.KeyRemovalLosesNothing` | backend/internal/database/notification_channel_repository.go:65-127 | with any mix of processes with and without the key, and any interleaved saves of other fields, secret and URL keep their meaning under the key |
| `ChannelSecrets.ChannelRepository.GetChannel` | backend/internal/database/notification_channel_repository.go:209-219 | the loaded channel; an unreadable column reads as empty |
| `ChannelSecrets.ChannelRepository.UpdateChannel` | backend/internal/database/notification_channel_repository.go:235-295 | every column of the new row, with other writers between the read of the stored secret and the update: other fields stored, a new URL or secret encrypted, a cleared secret empty, an unchanged plain secret moved to the new format; refused exactly for a new secret without a key that is not the stored plain text, and then nothing changes |
| `Summaries.GroupIsSummary` | backend/internal/database/deployment_log_repository.go:539-577 | a group of the grouped query exists exactly for an asked id with a log in the window, and is the single-instance summary |
| `Summaries.NoLogMeansZero` | backend/internal/database/deployment_log_repository.go:377-430 | the single summary of an instance without logs in the window is all zero |
| `Summaries.CountsAreNumbersOfRows` | backend/internal/database/deployment_log_repository.go:377-396 | the counts are the numbers of deploy logs in the window: all, the successful ones, the failed or partial ones |
| `Summaries.LastActivityIsTheMaximum` | backend/internal/database/deployment_log_repository.go:397-428 | the last activity is the maximum over all actions of completion time, or start time without one, and is missing exactly when there is no log in the window |
| `Summaries.SummarizeBatch` | backend/internal/database/deployment_log_repository.go:436-458 | for every id list, with duplicates and chunk boundaries: exactly the ids with a log get their single-instance summary, all others are absent and their single summary is zero |
| `TemplateRelease.SortChartsSorts` | backend/internal/models/template_version.go:100-107 | the snapshot charts are a permutation of the given charts, ordered by deploy order and name |
| `TemplateRelease.SortChartsIsStable` | backend/internal/models/template_version.go:100-107 | charts with the same order and name keep their order |
| `TemplateRelease.WorkingIsSnapshot` | backend/internal/models/template_version.go:64-107 | a snapshot has the fields of the template, its version or 1.0.0 for a blank one, and all its charts, ordered by deploy order, then name, equal ones in their order |
| `TemplateRelease.CurrentMeansTheWorkingCopy` | backend/internal/database/migrations.go:1391-1398 | the content test passes if and only if the snapshot is readable, in the current schema, and agrees with the template in every compared field and, chart by chart after sorting, in every compared chart field |
| `TemplateRelease.SameContentMeans` | backend/internal/models/template_version.go:109-151 | the content comparison, also with a snapshot of the older format, which lacks four chart fields |
| `TemplateRelease.NormalizeValues` | backend/internal/models/template_version.go:153-158 | the longest prefix that does not end with a space, tab or line break; only those characters go |
| `TemplateRelease.BlankMeansWhiteSpace` | backend/internal/database/migrations.go:1384-1388 | any number of white space characters is a blank version |
| `TemplateRelease.BlankIsJoined` | backend/internal/database/migrations.go:1384-1388 | a blank version is nothing but white space characters |
| `TemplateRelease.StaleIsNotReleased` | backend/internal/database/migrations.go:1368-1398 | a template whose newest snapshot fails the content test has no newest snapshot that passes it |
| `TemplateRelease.ReleasedMeansUpToDate` | backend/internal/database/migrations.go:1368-1398 | a template is released if and only if its newest snapshot, by time and then id, holds its working copy |
| `TemplateRelease.SnapshotReleases` | backend/internal/database/migrations.go:1391-1424 | a snapshot of a template that was not released makes it released, with the version of the row, if and only if it sorts above all others of the template |
| `TemplateRelease.OnlyALostTieIsNotAbove` | backend/internal/database/migrations.go:1404-1407 | the new snapshot sorts above all others if and only if the column does not round its time onto the newest one with an id that does not sort after it |
| `TemplateRelease.TiedSnapshotDoesNotRelease` | backend/internal/database/migrations.go:1404-1407 | the input: one microsecond after a stale snapshot, a smaller id leaves the template with the stale one |
| `TemplateRelease.OthersAreUntouched` | backend/internal/database/migrations.go:1338-1427 | releasing one template changes no row of another one |
| `TemplateRelease.OnlyABlankVersionDiffers` | backend/internal/database/migrations.go:1384-1398 | a released template has the version of its newest snapshot if and only if its own version is not blank |
| `TemplateRelease.BlankVersionStays` | backend/internal/database/migrations.go:1384-1398 | the input: a blank version with a current snapshot is left as it is |
| `TemplateRelease.ReleaseAdvances` | backend/internal/database/migrations.go:1338-1427 | one release moves the loop forward: the other templates and all earlier snapshots stay as they were |
| `TemplateRelease.TemplateStore.ReleaseOne` | backend/internal/database/migrations.go:1362-1425 | a snapshot is added exactly for a template that is not skipped, with its fields, owner, version and all its charts; it releases the template exactly if it sorts above the other snapshots |
| `TemplateRelease.TemplateStore.ReleaseTemplateWorkingCopies` | backend/internal/database/migrations.go:1338-1427 | one snapshot for exactly the templates that are not skipped (not published and not both referenced and released, or up to date), with the fields, owner, version and all charts of the template; afterwards every template that must be released is up to date if and only if no new snapshot lost a tie; row and newest snapshot agree in the version if and only if the template was not already released with a blank one; no other template row and no earlier snapshot is altered; a run on such a database changes nothing |
| `UserBackfill.BatchShrinks` | backend/internal/database/migrations.go:1624-1649 | a batch leaves exactly the other rows without a user, and two batches are one update |
| `UserBackfill.LogTable.BackfillDeployLogUsers` | backend/internal/database/migrations.go:1624-1649 | for every batch size and choice of rows the loop ends; exactly the deploy logs without a user whose instance has an owner get that owner, and nothing else changes |

## Left out

- Retention.RetentionKeepsCurrent: does not cover a partial last good log or the target log of a rollback, because retention keeps neither.
- Paging.OffsetPageContinues: one table for COUNT and SELECT; rows that change between the two can end the list early or add an empty page.
- Followers: gap locks of the follower table are not used in the argument.
- Context cancellation, timeouts and database errors in the middle of an operation, except for failures of the definition cleanup and the rollbacks that the code itself decides.
- ListInterruptCandidates and the leader election: they only choose which requests are made, and the model allows every request.
- SetJobFinalStatus, SummarizeByUsers, ListRecentGlobal and the other single-statement reads and writes.
- The temporary kubeconfig files of the clients and the choice of FindDefault between several default rows.
- The set of warned channels, delivery logs and subscriptions.
- Creating definitions and changing the definition of an instance.
- HTTP handlers, Kubernetes, Helm and OIDC clients, pollers, configuration, schema migrations and plain CRUD repositories: little logic of their own.
- The AES-GCM and time libraries; base64url is modelled.
