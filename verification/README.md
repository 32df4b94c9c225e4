# WhaleFall: a verified model of its stateful core

WhaleFall keeps an inventory of database instances: backups seen by Veeam, accounts and their
classification, capacity history in monthly partitions, alert mails and sync sessions. Most of it is
queries and forms. This project models the parts that carry state or arithmetic, and proves what they
are there to guarantee. `dafny verify dfyconfig.toml` checks everything.

Tables are maps or sequences of rows held by a class; methods change them in place, as the repositories
and tasks do, and each method is proved against a function on values. Whole-run theorems are lemmas about
those functions. What the program gets from outside (normalisers, candidate builders, the rule evaluator,
clocks, cancellation flags, failing statements, senders, query answers) is a parameter, and the theorems
hold for every value of it.

**Veeam snapshots** (`VeeamSelector`, `VeeamWriter`, `VeeamWriteProperties`, `VeeamHistory`,
`VeeamRepository`, `VeeamReader`). The selector keeps one backup record per machine name and per IP; a
write merges the kept records into the rows of one source binding, using dictionaries taken before the
loop. Rows are objects with identity, deleting one only marks it, and adding it again revives it. Results:
the selector returns the one kernel of the newest-first list; the writer keeps names and IPs unique in any
case; it stores every record exactly when no claim is lost; two replaces converge exactly when at most one
record lacks a name; after any history the batched lookup and the single lookup agree.
An empty name is no key for the code but is a value for the unique constraint, so a write can fail and is
then rolled back. It commits exactly when at most one unnamed row will be left: an unnamed record that does
not lose its row to a later one, or, on upsert, an unnamed row whose IP no record has.

**Account classification** (`ClassificationModel`, `AutoClassification`, `DailyClassification`, `DailyRun`,
`ClassificationAgreement`). The automatic run cleans up and then deletes and inserts rule by rule, so the
last matching rule wins; manual assignments are wiped as well. A run without rules or accounts leaves the
table alone, and a failed assignment write is rolled back and swallowed. The daily run counts matches per
owner. Results: what an automatic run leaves, also when it stops early; when the daily rows fall on distinct
keys; and that both runs describe the same classification.

**Monthly partitions** (`Calendar`, `PartitionNames`, `PartitionService`). Gregorian calendar arithmetic,
half-open month windows, names that read back as months, and creation and clean-up over four tables inside
nested savepoints. A generated name reads back exactly from year 1000 on, because `%Y` is not padded.

**Alerts** (`AlertEvents`, `AlertRuns`, `AlertRepository`, `AlertDigest`). Events are deduplicated, frozen
once sent, and deleted only while nothing was sent; every channel has its own pending list. Results: over
every run at most one sent delivery is recorded for an event on a channel, the counters agree with the
lists, and the digest records only what a run is allowed to. This is about recorded deliveries. What is
sent can repeat: both channels send one text made from the union of their lists, so a mail carries an event
that was mailed before exactly when mail is attempted and the Feishu list holds an event that the mail list
lacks, and likewise for Feishu (`AlertDigest.RepeatsIff`, with a run that leads there). An upsert without
protection does rewrite an event that was sent on another channel than mail (`AlertRuns.FrozenAfterSendIff`).

**Sync sessions** (`SyncModel`, `SyncRuns`, `SyncProgress`, `SyncService`, `AccountsSync`,
`AccountsSyncTask`). Results: terminal states are absorbing over every run; counters equal record statuses
as long as no finished record is restarted; the session takes the verdict of the first moment at which all
records had finished; the account sync loop ends with a session that agrees with its records exactly when it
was not cut short. The verdict does not always stay right: a record that completes last and then fails
leaves the session completed until the end of the account sync repairs it. Exactly when it stays right is
stated per call (`SyncRuns.SettledSurvivesIff`), over runs (`SyncRuns.SettledThroughoutIff`) and from the
calls alone (`SyncRuns.RightAtEndIff`). The failing end of the account sync counts every instance as failed
even when some had completed; the counts then exceed the total exactly when one had
(`AccountsSync.FailureCountsWithinTotalIff`).

**Latest database sizes** (`LatestSizes`). Newest rows, placeholders for inactive databases, order, totals
and pages. The query for inactive databases has no order, and this shows exactly when two of them that need
a placeholder have names that differ only in case (`LatestSizes.RowOrderIndependentIff`).

`Common` and `Ordering` hold shared facts: Python's string order and stable sort, filtering, counting.

## Model

| member | source | states |
|---|---|---|
| VeeamSelector.BuildSnapshotWriteRecords | app/repositories/veeam_repository.py:72-105 | the loop over two key sets returns `Select`; every selected record has a name or an IP, and no two share one |
| VeeamSelector.SelectIsTheKernel | app/repositories/veeam_repository.py:72-105 | the selection is the kernel of the newest-first list, and there is only one: keyed, conflict-free, every dropped keyed record conflicts with a kept one at least as new |
| VeeamSelector.KernelUnique | app/repositories/veeam_repository.py:78-95 | two kernels of the same list mark the same records |
| VeeamSelector.KernelIsGreedy | app/repositories/veeam_repository.py:78-95 | whatever satisfies the kernel conditions is what the greedy loop keeps |
| VeeamSelector.SelectOrderIndependent | app/repositories/veeam_repository.py:78-82 | the input order does not matter when equal sort keys mean equal records |
| VeeamSelector.SelectIdempotent | app/repositories/veeam_repository.py:72-105 | selecting from what was selected changes nothing |
| VeeamSelector.YieldsToNewer | app/repositories/veeam_repository.py:72-105 | every record with a name or an IP is selected, or a selected one shares its name or IP and was backed up later, or at the same time with a source id at least as great |
| VeeamSelector.SelectedDescend | app/repositories/veeam_repository.py:78-82 | the selected records are input records, and their backup times never increase |
| VeeamSelector.PreparedKeys | app/repositories/veeam_repository.py:62-69 | a record's keys: its normalised name, and its own IP unless that gives none, else its name read as an IP |
| VeeamWriter.PassUntouched | app/repositories/veeam_repository.py:499-519 | after the loop a row that no record targets or deletes has its old values, any other is written or pending deletion |
| VeeamWriter.PassOwned | app/repositories/veeam_repository.py:499-519 | every live written row holds the record that wrote it last, and no record writes two rows |
| VeeamWriter.PassFates | app/repositories/veeam_repository.py:499-543 | a record's row is live and its own at the end exactly when no later record writes over or deletes it |
| VeeamWriteProperties.WriteKeepsKeysUnique | app/repositories/veeam_repository.py:490-526 | from rows with unique keys, replace and upsert both end with live rows whose non-empty names and non-null IPs are pairwise distinct, despite stale dictionaries and rows cleared, deleted or revived |
| VeeamWriteProperties.RecordStoredIff | app/repositories/veeam_repository.py:499-519 | some row has every column from the record and the stamps exactly when no later record claims, by name or by IP, the row it is written to |
| VeeamWriteProperties.OvertakenIffLostClaim | app/repositories/veeam_repository.py:529-543 | being overtaken in the pass is the same as a lost claim on the rows found before it |
| VeeamWriteProperties.CoversIffNoLostClaim | app/repositories/veeam_repository.py:499-526 | every selected record ends in a row if and only if no row is claimed by name by one record and by IP by another in a losing order |
| VeeamWriteProperties.ReplaceCount | app/repositories/veeam_repository.py:521-526 | after a replace every live row holds a selected record, and there are as many rows as records exactly when no claim is lost |
| VeeamWriteProperties.DisjointClaimsCover | app/repositories/veeam_repository.py:499-526 | if no row is claimed by two records, every record is stored and the replaced rows are as many as the records |
| VeeamWriteProperties.UnclaimedRow | app/repositories/veeam_repository.py:521-524 | an unclaimed row is kept unchanged by upsert and removed by replace |
| VeeamWriteProperties.UpsertRemovesOnlyClaimed | app/repositories/veeam_repository.py:538-542 | upsert removes only rows claimed by IP by a record whose name belongs to another row |
| VeeamWriteProperties.SharedClaimLosesARecord | app/repositories/veeam_repository.py:499-519 | the witness that disjoint claims are needed: row (a, ip1), records (a, ip2) and (c, ip1) end as one row |
| VeeamWriteProperties.ReplaceSeparatesClaims | app/repositories/veeam_repository.py:499-526 | after one replace the same records claim disjoint rows |
| VeeamWriteProperties.SettledReplace | app/repositories/veeam_repository.py:448-462 | a replace over rows that already match the records changes only the run stamps |
| VeeamHistory.FlushedExisting | app/repositories/veeam_repository.py:491-493 | a write changes no row of another binding |
| VeeamHistory.StoredColumns | app/repositories/veeam_repository.py:499-571 | after a committed write a record that loses no row is in the table, column by column: its names, IP, backup time, source id and details under the binding, with the run's stamps |
| VeeamHistory.WriteCommitsIff | app/repositories/veeam_repository.py:490-526 | from existing rows and records alone: a write commits exactly when at most one unnamed row will be left, counting unnamed records that keep their row and, on upsert, unnamed rows whose IP no record has |
| VeeamHistory.FlushFailsOnNames | app/models/veeam_machine_backup_snapshot.py:48-59 | the only constraint a flush can break is the name's, by two live unnamed rows of the binding |
| VeeamHistory.SecondUnnamedFailsUpsert | app/models/veeam_machine_backup_snapshot.py:48-59 | the witness: an unnamed row with one IP and an unnamed record with another fail the upsert and not the replace |
| VeeamHistory.Clears | app/repositories/veeam_repository.py:437-445 | a clear removes exactly the rows of its binding, or all rows, and changes no other |
| VeeamHistory.TwoReplacesConverge | app/repositories/veeam_repository.py:448-462 | two replaces with the same records both commit, and then leave one row per record, if and only if at most one selected record lacks a name |
| VeeamHistory.FurtherReplaceOnlyRestamps | app/repositories/veeam_repository.py:448-462 | from there on a replace commits and changes only run id and time |
| VeeamHistory.ApplyKeepsValid | app/repositories/veeam_repository.py:437-526 | replace, upsert and clear each keep both unique constraints |
| VeeamHistory.Run | app/repositories/veeam_repository.py:437-526 | over any history on any bindings the table respects its constraints |
| VeeamRepository.SnapshotRow.ApplyWriteRecord | app/repositories/veeam_repository.py:546-571 | assigns every column from the record and the stamps |
| VeeamRepository.FindSnapshotRow | app/repositories/veeam_repository.py:529-543 | returns the row by name, else by IP; when they differ, clears and deletes the one by IP |
| VeeamRepository.SnapshotStore.WriteRecords | app/repositories/veeam_repository.py:499-519 | the loop over row objects ends in the state of the pass on values |
| VeeamRepository.SnapshotStore.WriteMachineBackupSnapshots | app/repositories/veeam_repository.py:482-526 | selection, dictionaries, loop, deletion and flush amount to one `Write`, rolled back if a constraint breaks |
| VeeamRepository.SnapshotStore.ReplaceMachineBackupSnapshots | app/repositories/veeam_repository.py:447-462 | is the replace step of the histories |
| VeeamRepository.SnapshotStore.UpsertMachineBackupSnapshots | app/repositories/veeam_repository.py:464-479 | is the upsert step of the histories |
| VeeamRepository.SnapshotStore.ClearMachineBackupSnapshots | app/repositories/veeam_repository.py:437-445 | is the clear step of the histories: afterwards exactly the rows of other bindings are left, unchanged |
| VeeamReader.NewestUnique | app/repositories/veeam_repository.py:340-347 | primary keys break ties, so a set of rows has one newest row |
| VeeamReader.LookupIsNewest | app/repositories/veeam_repository.py:350-363 | the single lookup returns, of all rows any binding matches by candidate name or IP, one whose backup time no other exceeds, the greatest id at equal times, with its own binding; None exactly when no row matches |
| VeeamReader.FetchBestSnapshotForCandidate | app/repositories/veeam_repository.py:340-347 | of the rows matched by name or by IP, one whose backup time no other exceeds, the greatest id at equal times |
| VeeamReader.FindBestSnapshotMatch | app/repositories/veeam_repository.py:318-363 | the loop over bindings computes the lookup, the newest matched row |
| VeeamReader.DictionariesLossless | app/repositories/veeam_repository.py:298-308 | on a table with unique names and IPs the two dictionaries give exactly the rows a query would |
| VeeamReader.DuplicateNameMisleadsBatch | app/repositories/veeam_repository.py:298-308 | with two rows of one name the dictionary can return the older one, so uniqueness is needed |
| VeeamReader.FetchBackupSummaryMap | app/repositories/veeam_repository.py:595-646 | the batch has, for instances with distinct ids, exactly the single lookups' rows and bindings, each the newest of all rows matched, and no other entry |
| VeeamReader.ReadPathsAgree | app/repositories/veeam_repository.py:574-646 | after any history of replaces, upserts and clears the batch and the single lookups agree on every instance |
| AutoClassification.LastMatchMeaning | app/tasks/account_classification_auto_tasks.py:365-426 | the last match is the greatest rule index that matches and whose write succeeded |
| AutoClassification.AssignedByLastMatch | app/repositories/account_classification_repository.py:159-225 | after any prefix of the rules an account has one row for a classification with the last matching rule's id, or its former rows |
| AutoClassification.OthersUntouched | app/repositories/account_classification_repository.py:206-224 | rows of accounts outside the run are neither deleted nor added by any rule |
| AutoClassification.BuildAccountsByDbType | app/tasks/account_classification_auto_tasks.py:91-98 | groups the accounts by normalised type, in order |
| AutoClassification.FindMatchedAccounts | app/tasks/account_classification_auto_tasks.py:81-88 | the matching accounts in order; an error exactly when a candidate has no facts |
| AutoClassification.AssignmentTable.CleanupAllAssignments | app/repositories/account_classification_repository.py:109-133 | empties the table and returns how many rows went |
| AutoClassification.AssignmentTable.CleanupAssignmentsForAccounts | app/repositories/account_classification_repository.py:135-157 | removes a row exactly when its account is positive and the id of one of the accounts, and keeps the others in order |
| AutoClassification.AssignmentTable.UpsertAssignments | app/repositories/account_classification_repository.py:159-235 | replaces the classification's rows of the matched accounts, or changes nothing on a database error |
| AutoClassification.AssignmentTable.ProcessRule | app/tasks/account_classification_auto_tasks.py:175-196 | evaluates and writes one rule; raises, with the table as it was, exactly when its expression is missing or invalid or an account of its type has no facts |
| AutoClassification.AutoClassifyAccounts | app/tasks/account_classification_auto_tasks.py:302-426 | clean-up and the rules up to the first cancellation or error, with outcome and match total |
| AutoClassification.RunAssigns | app/tasks/account_classification_auto_tasks.py:352-426 | what a run leaves, complete or stopped after k rules: one row with the last matching rule's id, or none |
| AutoClassification.RunAssignsIffMatched | app/tasks/account_classification_auto_tasks.py:352-426 | without write errors an account has one assignment to a classification if and only if some rule of it with an id has the account's normalised type, not empty, and an expression that holds of the account's facts |
| AutoClassification.ScopedRunKeepsOthers | app/tasks/account_classification_auto_tasks.py:264-275 | a scoped run leaves every assignment of an account that is not one of its accounts exactly as it was |
| AutoClassification.ProgressIsFirstStop | app/tasks/account_classification_auto_tasks.py:365-426 | the rules a run gets through end at the first one where it is cancelled or that raises |
| AutoClassification.TotalMatchesMeaning | app/tasks/account_classification_auto_tasks.py:365-426 | the match total is the number of pairs of a rule and an account that it matches |
| DailyClassification.BuildAccountIndexes | app/tasks/account_classification_daily_tasks.py:114-126 | the accounts per type, in order, and exactly their owner scopes |
| DailyClassification.BuildClassificationDbTypes | app/tasks/account_classification_daily_tasks.py:129-136 | exactly the types each classification has rules for |
| DailyClassification.ClassOrderFirst | app/tasks/account_classification_daily_tasks.py:129-136 | the dictionary has the classifications in the order of their first rules with a type |
| DailyClassification.ScopeResolution | app/tasks/account_classification_daily_tasks.py:104-112 | which accounts have an owner, and which: the given owner id unless absent or zero, else the instance's, and "instance" for an empty owner type |
| DailyClassification.FactsSeen | app/tasks/account_classification_daily_tasks.py:166-169 | a rule sees every present fact unchanged under every key but `db_type`, which is the type; absent facts give only `db_type` |
| DailyClassification.CountedIff | app/tasks/account_classification_daily_tasks.py:158-176 | a rule counts an account with a positive id, an owner and the rule's type exactly when its expression holds of the account's facts with the type written over them |
| DailyClassification.MatchAccumulator.EvaluateRule | app/tasks/account_classification_daily_tasks.py:158-176 | fills the rule's own sets with each owner's matches and adds the same to the shared sets |
| DailyClassification.SortScopes | app/tasks/account_classification_daily_tasks.py:156 | lists each scope once, ascending by owner type, then owner id, then instance id |
| DailyClassification.ListingUnique | app/tasks/account_classification_daily_tasks.py:156 | there is one such list |
| DailyRun.OwnersPartition | app/tasks/account_classification_daily_tasks.py:198 | owners partition a rule's matches |
| DailyRun.SumSizes | app/tasks/account_classification_daily_tasks.py:198 | summing the set sizes gives the number of accounts the rule matches |
| DailyRun.CalculateRuleRecords | app/tasks/account_classification_daily_tasks.py:139-206 | one row per scope with the owner's distinct match count, the matched total, and the shared sets extended by the rule |
| DailyRun.RuleRowsMeaning | app/tasks/account_classification_daily_tasks.py:178-196 | a rule's rows: one per scope that some account of its type is reported under, ascending, each with the rule's ids and the number of accounts of that owner it matches |
| DailyRun.ProgressIsFirstStop | app/tasks/account_classification_daily_tasks.py:331-406 | the rules a run gets through end at the first one where it is cancelled or whose expression does not decode |
| DailyRun.BuildClassificationRecords | app/tasks/account_classification_daily_tasks.py:234-265 | exactly one row per classification, type and scope, counting the union over the rules, in dictionary order of the classifications, then by type, then by scope |
| DailyRun.ClassRowMeaning | app/tasks/account_classification_daily_tasks.py:242-265 | a classification row counts, each once, the accounts of its owner that some rule of the classification and type matches |
| DailyRun.RowsAscend | app/tasks/account_classification_daily_tasks.py:242-248 | rows of one classification ascend by type, then owner type, owner id and instance id |
| DailyRun.RowsByFirstRule | app/tasks/account_classification_daily_tasks.py:129-136 | rows of different classifications stand in the order of their first rules with a type |
| DailyRun.ClassRowsUnique | app/tasks/account_classification_daily_tasks.py:242-265 | those rows in that order are the only such list |
| DailyRun.CalculateRuleStatistics | app/tasks/account_classification_daily_tasks.py:331-406 | the rows of the rules reached, and the ordered classification rows only for a complete run |
| ClassificationAgreement.RuleRowKeysIff | app/models/account_classification_daily_stats.py:48-56 | a rule's rows fall on distinct upsert keys exactly when each owner of its type reports under one instance |
| ClassificationAgreement.AllRuleRowKeysIff | app/models/account_classification_daily_stats.py:48-56 | the same for the rows of a whole run |
| ClassificationAgreement.ClassRowKeysIff | app/models/account_classification_daily_stats.py:100-108 | the same for the classification rows |
| ClassificationAgreement.RuleCountsSum | app/tasks/account_classification_daily_tasks.py:178-202 | then a rule's counts add up to the accounts it matches |
| ClassificationAgreement.DistinctCountBounds | app/tasks/account_classification_daily_tasks.py:246-259 | a distinct count lies between each of its rules' counts and their sum |
| ClassificationAgreement.DailyCountsAutoAssignments | app/tasks/account_classification_daily_tasks.py:158-176 | the accounts the daily run counts for a classification, type and owner are those a full automatic run assigned, as far as writing `db_type` into an account's facts changes no verdict |
| ClassificationAgreement.RowCountsAssignments | app/tasks/account_classification_daily_tasks.py:242-265 | each classification row's count is the number of accounts so assigned |
| Calendar.SubtractDaysOrdinal | app/services/partition_management_service.py:299 | subtracting days lands on the date that many days earlier, or overflows exactly when there is none |
| Calendar.WindowHoldsItsMonth | app/services/partition_management_service.py:379-399 | a date is in a window exactly when it has the window's month |
| Calendar.WindowsTile | app/services/partition_management_service.py:379-399 | every date is in its window, windows sharing a date are equal, and each ends where the next begins |
| Calendar.RetentionBounds | app/services/partition_management_service.py:299 | the cutoff month lies between n months and n plus one month per started four years before today's |
| Calendar.CutoffMeaning | app/services/partition_management_service.py:299 | the cutoff is the month of the day 31 n days earlier, and there is none before the first day of year 1 |
| Calendar.OrdinalClosedForm | app/services/partition_management_service.py:299 | the day numbers are those of the Gregorian calendar: 365 days a year and a leap day every 4 years but not every 100 unless every 400 |
| PartitionNames.PatternsDisjoint | app/services/partition_management_service.py:499 | a generated name matches its own table's pattern and no other's, wildcards included |
| PartitionNames.NameRoundTrip | app/services/partition_management_service.py:522-539 | reading a generated name with its own prefix gives the month back, exactly from year 1000 on |
| PartitionNames.NamesOfNovember2025 | app/services/partition_management_service.py:68-97 | the names themselves, table by table |
| PartitionNames.ReadsFirstTwoParts | app/services/partition_management_service.py:534-539 | a name with a one-digit month, or with more parts after the month, reads by its first two parts |
| PartitionService.PartitionService.CreatePartition | app/services/partition_management_service.py:138-248 | all four tables or none: any failure leaves the partitions as they were; when it succeeds is `CreatedIff` |
| PartitionService.PartitionService.CleanupOldPartitions | app/services/partition_management_service.py:299-370 | drops exactly the expired partitions, or none; when it succeeds is `CleanedUpIff` |
| PartitionService.PartitionService.GetPartitionsToCleanup | app/services/partition_management_service.py:484-520 | the names that match the pattern and read as a month before the cutoff |
| PartitionService.CreatedIff | app/services/partition_management_service.py:138-248 | a creation succeeds exactly when the month has a next one, no check and no flush fails, and each of the four partitions exists or can be created; it then adds those names and reports which are new |
| PartitionService.CleanedUpIff | app/services/partition_management_service.py:299-370 | a clean-up succeeds exactly when there is a cutoff and no query, no needed drop and no flush fails; it then drops exactly the names that some pattern takes and that read as a month before the cutoff |
| PartitionService.CreateGivesMonth | app/services/partition_management_service.py:142-248 | success gives the month in all four tables, and repeating it changes nothing |
| PartitionService.HistoryKeepsLockstep | app/services/partition_management_service.py:142-370 | over any history, failing or not, the four tables keep the same months |
| PartitionService.CleanupRetention | app/services/partition_management_service.py:299-370 | a clean-up keeps this month, later ones and the n before, and drops what is older than the bound |
| PartitionService.NoNameMatchesTwo | app/services/partition_management_service.py:499 | no name at all matches two tables' patterns |
| PartitionService.StatusMeaning | app/services/partition_management_service.py:590-615 | a generated partition is current exactly when today is in its window, past once it ended, future before it begins |
| AlertRepository.EmailAlertsRepository.CreateEvent | app/repositories/email_alerts_repository.py:30-34 | inserts the event under the next key, or fails exactly when some event has its type, day and dedupe key |
| AlertRepository.EmailAlertsRepository.UpsertPendingEvent | app/repositories/email_alerts_repository.py:45-69 | creates exactly when no event has the type, day and key; else refuses a frozen event or overwrites the supplied columns, NULLs included |
| AlertRepository.EmailAlertsRepository.DeletePendingEvents | app/repositories/email_alerts_repository.py:100-127 | deletes the events that `DeletedEvents` says and their deliveries, and returns how many |
| AlertEvents.DeletedEvents | app/repositories/email_alerts_repository.py:100-127 | an event goes exactly when it has the type and day, is neither mailed nor sent anywhere, has the dedupe key if one is named and none of the keys to keep |
| AlertEvents.DeletedDeliveries | app/repositories/email_alerts_repository.py:100-127 | deliveries go exactly with their events |
| AlertRepository.EmailAlertsRepository.ListPendingDigestEvents | app/repositories/email_alerts_repository.py:130-152 | lists exactly the events of the day that are not sent on the channel and, for mail, not marked, each once, by time and then by id |
| AlertRepository.PendingListUnique | app/repositories/email_alerts_repository.py:152 | there is one such list |
| AlertRepository.EmailAlertsRepository.GetBucketEventCounts | app/repositories/email_alerts_repository.py:155-192 | has exactly the types of the day, with the numbers of events not yet and already counted as sent |
| AlertRepository.CoveredIffCounted | app/repositories/email_alerts_repository.py:174-180 | the collected channels cover the required ones exactly when the event counts as sent |
| AlertEvents.BucketMeaning | app/repositories/email_alerts_repository.py:155-192 | an event of the day and type counts as sent when every required channel delivered it, the mark standing for mail, or, without channels, when it is marked; else as pending |
| AlertEvents.NewEventColumns | app/repositories/email_alerts_repository.py:30-34 | a new event's columns: the payload, and NULL where a column was not supplied |
| AlertEvents.PatchedColumns | app/repositories/email_alerts_repository.py:65-67 | an overwritten event's columns: the payload, and its own value where a column was not supplied |
| AlertRepository.EmailAlertsRepository.MarkEventsDigestSent | app/repositories/email_alerts_repository.py:195-203 | marks exactly the given events |
| AlertRepository.EmailAlertsRepository.RecordDigestDelivery | app/repositories/email_alerts_repository.py:206-234 | stores one attempt per event and marks mailed ones, or rolls back when a constraint breaks |
| AlertEvents.RecordableMeaning | app/repositories/email_alerts_repository.py:206-234 | attempts can be stored exactly when every listed event exists and one listed twice has its row for the channel |
| AlertEvents.RecordedDeliveries | app/repositories/email_alerts_repository.py:206-234 | each attempt has the status and message, and the time exactly when it was sent; no other row changes |
| AlertEvents.RecordedEvent | app/repositories/email_alerts_repository.py:232-233 | a sent mail marks its events with the time and changes nothing else of them; any other attempt changes no event |
| AlertRuns.ApplyKeepsValid | app/models/email_alert_event.py:18-23 | every call keeps the dedupe constraint, the deliveries' parents, and the mark equal to the mail delivery's time |
| AlertRuns.UpsertIdempotent | app/repositories/email_alerts_repository.py:45-69 | upserting again changes and creates nothing |
| AlertRuns.UpsertMeaning | app/repositories/email_alerts_repository.py:45-69 | an upsert changes nothing when the event with the key is marked, or with protection when any channel delivered it; else it overwrites that event alone |
| AlertRuns.OverwrittenIsFresh | app/repositories/email_alerts_repository.py:65-67 | overwriting with a payload that names every column gives the event it would have created |
| AlertRuns.FrozenAfterSendIff | app/repositories/email_alerts_repository.py:61-69 | a delivered event is left alone by an upsert when protection was asked for or it was mailed; otherwise the supplied columns are overwritten |
| AlertRuns.SentStaysSent | app/repositories/email_alerts_repository.py:100-127 | a sent delivery stays sent, its event is not deleted, and a mailed event does not change |
| AlertRuns.DeliveredAtMostOnce | app/repositories/email_alerts_repository.py:130-234 | over every run that records only listed events, the sends recorded for an event on a channel add up to whether it is delivered |
| AlertRuns.NeverListedAgain | app/repositories/email_alerts_repository.py:130-152 | once sent, an event stays in the table and off that channel's list |
| AlertRuns.MarkedIffMailed | app/repositories/email_alerts_repository.py:232-233 | an event is marked exactly when its mail delivery is sent, with the same time |
| AlertRuns.OtherChannelStillPending | app/repositories/email_alerts_repository.py:206-234 | recording on one channel leaves every other channel's list as it was |
| AlertRuns.SentIffPendingNowhere | app/repositories/email_alerts_repository.py:155-192 | an event counts as sent exactly when no required channel lists it |
| AlertRuns.CountsAgreeWithLists | app/repositories/email_alerts_repository.py:155-192 | the sent events of a type are those pending nowhere, and sent plus pending is all of them |
| AlertRuns.SentCountsNeverDecrease | app/repositories/email_alerts_repository.py:155-192 | sent counts never decrease along a run |
| AlertDigest.AlertDigestService.SendPendingDigest | app/services/alerts/email_alert_digest_service.py:56-139 | both lists are read first and both channels send the text of their union; a channel is sent or failed as its sender delivers, exactly when it has something listed and, for mail, recipients; the digest is sent if one was, failed if one failed and none was sent; what is recorded is an allowed run of at most one attempt per channel on its own list, a channel that delivered owes nothing for the day, and each channel's text repeats a delivered event exactly as `RepeatsIff` says |
| AlertDigest.RepeatsIff | app/services/alerts/email_alert_digest_service.py:63-67 | a channel sends an event it had delivered exactly when it sends at all and the other list holds an event that its own lacks |
| AlertDigest.MailRepeatsDelivered | app/services/alerts/email_alert_digest_service.py:104-112 | an event mailed while Feishu failed is in the next mail again, and only the new event is in the mail list that is recorded |
| AlertDigest.FeishuDownArises | app/services/alerts/email_alert_digest_service.py:188-260 | a run from empty tables leads to that case |
| AlertDigest.UniqueMembers | app/services/alerts/email_alert_digest_service.py:305-314 | the union holds each listed event once |
| AlertDigest.UniqueInOrder | app/services/alerts/email_alert_digest_service.py:305-314 | in the order of first occurrence |
| AlertDigest.AttemptRecords | app/services/alerts/email_alert_digest_service.py:188-286 | an attempt is recorded for the whole list of its channel, as sent, or as failed with the message |
| AlertDigest.OtherListStillRight | app/services/alerts/email_alert_digest_service.py:62-65 | the list read for one channel is still accurate after the other was recorded |
| SyncService.SyncSession.UpdateStatistics | app/models/sync_session.py:132-156 | stores the counts; a running session whose counts add up to the total ends, failed if one failed; any other keeps status and end time |
| SyncService.SyncSession.GetProgressPercentage | app/models/sync_session.py:158-168 | a nearest hundredth of a percent of the finished share, 0 without instances |
| SyncService.SyncInstanceRecord.StartSync | app/models/sync_instance_record.py:124-134 | running, with the start time; nothing else changes |
| SyncService.SyncInstanceRecord.CompleteSync | app/models/sync_instance_record.py:136-165 | completed, with end time and items |
| SyncService.SyncInstanceRecord.FailSync | app/models/sync_instance_record.py:167-183 | failed, with end time and message; the items stay |
| SyncService.SyncSessionService.AddInstanceRecords | app/services/sync_session_service.py:129-193 | one pending record per instance, or an error and no record |
| SyncService.AddedRows | app/services/sync_session_service.py:129-193 | the old rows stay, and the k-th new row is the k-th instance's, pending and empty |
| SyncService.AddedIsFresh | app/tasks/accounts_sync_tasks.py:184-193 | a session set up this way meets the hypothesis of the run theorems |
| SyncService.SyncSessionService.StartInstanceSync | app/services/sync_session_service.py:195-229 | is the start step; False for a missing record |
| SyncService.SyncSessionService.CompleteInstanceSync | app/services/sync_session_service.py:231-292 | is the complete step, with the session recounted |
| SyncService.SyncSessionService.FailInstanceSync | app/services/sync_session_service.py:294-340 | is the fail step, with the session recounted |
| SyncService.SyncSessionService.UpdateSessionStatistics | app/services/sync_session_service.py:342-373 | recounts the session from its records' statuses |
| SyncService.SyncSessionService.CancelSession | app/services/sync_session_service.py:424-459 | cancels exactly a running session, with the end time and its counts as they were |
| SyncRuns.OtherSessionsUntouched | app/services/sync_session_service.py:342-373 | a call leaves every other session and its records alone |
| SyncRuns.TerminalAbsorbing | app/models/sync_session.py:146-148 | once ended, a session keeps status and end time under any calls |
| SyncRuns.InStepIff | app/services/sync_session_service.py:195-380 | a call keeps counters equal to statuses exactly when it does not restart a finished record |
| SyncRuns.CountsMatchRecords | app/services/sync_session_service.py:342-373 | over every run without restarts the counters are the numbers of completed and failed records |
| SyncRuns.CountsAddUpIff | app/models/sync_session.py:150-156 | the counts add up to the records exactly when all have finished, and a failure is counted exactly when a record failed |
| SyncRuns.CancelledIff | app/services/sync_session_service.py:424-459 | a session ends cancelled exactly when some cancel found it running |
| SyncRuns.FirstSettledIsFirst | app/models/sync_session.py:150-156 | `FirstSettled` is the first moment at which all records had finished |
| SyncRuns.StatusIsFirstVerdict | app/models/sync_session.py:143-156 | over every run without an effective cancel the session runs until that moment and keeps the verdict of it |
| SyncRuns.StatusIsVerdict | app/models/sync_session.py:143-156 | when each record finishes once, the status is the records' verdict and the counts are theirs |
| SyncRuns.CompletedThenFailed | app/models/sync_session.py:146-148 | a last record that completes and then fails leaves the session completed with one failure counted |
| SyncRuns.SettledSurvivesIff | app/models/sync_session.py:146-156 | one call on a session that says what its finished records say leaves it so exactly when it neither starts one of them, nor fails one while none has failed, nor completes the only failed one |
| SyncRuns.SettledThroughoutIff | app/models/sync_session.py:146-156 | over a run the session is right after every call exactly when no call is one of those |
| SyncRuns.RecordStatusIsLastCall | app/models/sync_instance_record.py:124-183 | after any run a record has the status its last call gave it |
| SyncRuns.RightAtEndIff | app/models/sync_session.py:143-156 | from the calls alone: a session set up and not cancelled is right at the end exactly when its records never all finished, or their last calls finish them all and fail some if and only if some had failed when they first all had finished |
| SyncProgress.RoundedIsNearest | app/models/sync_session.py:168 | the rounding is to a nearest integer, ties to even |
| SyncProgress.FullProgressIff | app/models/sync_session.py:165-168 | progress reads 100.00 exactly when at most one in twenty thousand is left |
| SyncProgress.RunProgressWithinBounds | app/models/sync_session.py:158-168 | over every run progress stays within 0 to 100 |
| AccountsSync.TraceEnds | app/tasks/accounts_sync_tasks.py:238-310 | every processed record ends with its own outcome and items, no other record changes |
| AccountsSync.TotalsMatchRecords | app/tasks/accounts_sync_tasks.py:271-272 | the totals are the numbers of completed and failed records after every round |
| AccountsSync.AccountTotalsMatchRecords | app/tasks/accounts_sync_tasks.py:274-277 | the account totals are, column by column, the sums of what the processed records report |
| AccountsSync.FinalizedAgreesIff | app/tasks/accounts_sync_tasks.py:440-443 | the final session row agrees with its records exactly when every record was processed; it says failed exactly when one failed |
| AccountsSync.FinalizeOverwritesCancel | app/tasks/accounts_sync_tasks.py:440-443 | a session cancelled meanwhile ends as if it had not been |
| AccountsSync.LoopInStep | app/tasks/accounts_sync_tasks.py:238-310 | after every round the session's counters are those of its records |
| AccountsSync.FailureCountsWithinTotalIff | app/tasks/accounts_sync_tasks.py:488-492 | wherever the loop broke off, the failing end keeps the number of completed records and counts every instance as failed, within the total exactly when no outcome was a completion |
| AccountsSync.SyncedThenEscapes | app/tasks/accounts_sync_tasks.py:488-492 | the witness: of two instances, one synced and one broken off, one is counted as succeeded and two as failed |
| AccountsSyncTask.AccountsSyncTask.SyncSingleInstance | app/tasks/accounts_sync_tasks.py:507-629 | one instance: fail, complete, complete and then fail, or an error that escapes, with (1, 0) only for a record that stays completed |
| AccountsSyncTask.AccountsSyncTask.SyncInstances | app/tasks/accounts_sync_tasks.py:226-312 | the loop up to the first cancellation or the first round that an error leaves, before or after its record has ended, with the totals of what it processed |
| AccountsSyncTask.AccountsSyncTask.FinalizeSuccess | app/tasks/accounts_sync_tasks.py:440-443 | writes the totals, the end time and the verdict over whatever the session said; its total stays |
| AccountsSyncTask.AccountsSyncTask.FinalizeFailure | app/tasks/accounts_sync_tasks.py:488-492 | marks the session failed with every instance counted and the end time; succeeded and total stay |
| AccountsSyncTask.AccountsSyncTask.CreateRecords | app/tasks/accounts_sync_tasks.py:184-193 | one record per instance and the total set to their number |
| AccountsSyncTask.AccountsSyncTask.SyncAccounts | app/tasks/accounts_sync_tasks.py:657-746 | the whole task: which end it comes to, from its inputs alone; any session ends with the totals up to the cancellation and their verdict, or given up on; a session of its own agrees with its records one by one when not cancelled, and still counts the completed ones after an error |
| LatestSizes.FetchLatest | app/repositories/instance_database_sizes_repository.py:133-225 | one page of the merged and sorted list, with counts and total size of the whole list |
| LatestSizes.TotalsMeaning | app/repositories/instance_database_sizes_repository.py:201-203 | the filtered count and the total size, entry by entry: one for each entry not active, the size of each active one |
| LatestSizes.InactiveCountIsSize | app/repositories/instance_database_sizes_repository.py:202 | the filtered count is the number of positions with an entry not active |
| LatestSizes.OneEntryPerName | app/repositories/instance_database_sizes_repository.py:133-186 | exactly one entry per lower-cased name that is to be shown |
| LatestSizes.ShownNames | app/repositories/instance_database_sizes_repository.py:101-186 | which names are shown: those of rows not left out, and, with inactive databases asked for or no row left, those of inactive databases |
| LatestSizes.EntriesAreNewest | app/repositories/instance_database_sizes_repository.py:101-131 | an entry has the columns of a shown row of its name than which none has a later date, or the same date and a later time; or those of the placeholder of an inactive database whose name has no row |
| LatestSizes.StrictlyOrdered | app/repositories/instance_database_sizes_repository.py:194-199 | of two entries the earlier is larger, or as large with the smaller lower-cased name |
| LatestSizes.RowOrderIndependentIff | app/repositories/instance_database_sizes_repository.py:151-199 | the order of the query results does not show if and only if no placeholders are added or no two distinct databases that need one have the same lower-cased name |
| LatestSizes.CaseVariantsShowOrder | app/repositories/instance_database_sizes_repository.py:161-186 | the witness: of "DB" and "db" the one returned first is listed |
| LatestSizes.PagesConcatenate | app/repositories/instance_database_sizes_repository.py:205 | consecutive pages add up to the list, without loss or repetition |
| Ordering.StrLeMeaning | app/repositories/instance_database_sizes_repository.py:194-199 | strings compare by the first character in which they differ, a prefix first |

## Left out

- Flask routes, schemas, settings, logging, templates and the frontend: wiring.
- SQL text, locks, isolation between transactions and the order of statements within a flush: a write is one update of the table and one check of its unique constraints.
- Primary keys are given when a row is created, not at flush; gaps that a rolled-back sequence leaves are not modelled.
- The rule evaluator, its validator, the name and IP normalisers and the candidate builders are uninterpreted functions; lower-casing in SQL and in Python is one function.
- Serialisation of a snapshot match, including which candidates the single lookup reports; the theorems compare row and binding.
- VeeamSelector.SelectOrderIndependent: records with equal time and source id but different contents keep their input order, so the claim needs them equal.
- DailyClassification.SortScopes: inserts the scopes one by one, where the code calls the library sort; the sorted list is unique, so it is the same.
- ClassificationAgreement.DailyCountsAutoAssignments: assumes facts are present, ids positive and the evaluator blind to the written `db_type`, because the automatic run stops on missing facts and does not write the type.
- Calendar: time zones and "today" are parameters; `strptime` is modelled for ASCII digits.
- PartitionService.PartitionService.CreatePartition: result and status of each table are modelled, messages and extra error data are not.
- AlertDigest.AlertDigestService.SendPendingDigest: the text is modelled as the events it carries; its wording, result summaries and the reasons shown for a skipped digest are not modelled; a sender that is not configured and one that raises are one outcome with its message.
- SyncService.SyncSession.GetProgressPercentage: computed exactly in hundredths; binary floating point can differ at a tie.
- SyncService.SyncSessionService.CompleteInstanceSync: a savepoint that fails leaves everything as it was and is not a step; concurrent calls are interleaved whole, under the session lock.
- AccountsSyncTask.AccountsSyncTask.SyncAccounts: clock readings are one parameter; task-run items, alert events and AG cluster synchronisation do not touch the session and appear only as errors that may leave a round; a session passed in may hold older records, so its agreement with them is not claimed.
- LatestSizes.FetchLatest: which of several rows of one name with the same date and time the window query ranks first is up to the database.
- Sync details, durations and metrics of a record.
- Password encryption, LDAP, network clients, mail and Feishu transport, the scheduler: library or I/O code.
- JumpServer snapshots, tag synchronisation and query parsing: easier variants of what is here.
