# Verified model of the host manager's core loops

A Dafny model of the stateful and textual cores of a Go web console for a FreeBSD host: the
snapshot scheduler, snapshot retention and ZFS replication; the metrics ring and its table; the
file manager's recursive copy; the alert cooldown; and the readers and writers of the SMB
fragments, the session cookie, `zpool status` and the dataset list. Code that changes things step
by step is an imperative class or method, proved against a function; the theorems over all runs
are about those functions.

Check the project with `dafny verify dfyconfig.toml`.

| file | what it models |
|---|---|
| Calendar.dfy | the Gregorian calendar and the next-run arithmetic, in nanoseconds of UTC |
| Schedules.dfy | the schedules table, tick, create, toggle, delete, run-now |
| Snapshots.dfy | snapshots in creation order, the prune loop, a scheduled snapshot run |
| Replication.dfy | send planning, the receiving side, `last_snapshot`, over every interleaving |
| Pacing.dfy | a snapshot schedule beside a replication task: how often to replicate |
| MetricsRing.dfy, MetricsQuery.dfy, MetricsCollector.dfy | the table, restart, the two query paths; the collector as a class over an array |
| FileCopy.dfy | `copyPath`, `copyDir`, `copyFile` and the paste loop |
| AlertCooldown.dfy | cooldown test, record, history pruning |
| SmbConf.dfy, SessionCookie.dfy, ZpoolStatus.dfy, DatasetTree.dfy | the text formats |
| GoStrings.dfy, Collections.dfy | the string functions of Go used above; small helpers |

## What is assumed

- Environments are arbitrary: every `zfs` or file operation may fail. Which commands fail is given
  to an operation, so that its contract says when it succeeds; unreliable paths fail at any time. A full receive can succeed only on a target without snapshots, an incremental one only on
  a target that holds the base, and it applies the stream's changes to what the target holds there.
- Steps of one schedule, task or alert history are serialised, the clock does not go back, and
  table updates succeed, except that a replication run may die before its update.
- The replication task is not recursive, and nothing else writes to its target.
- Schedules run in UTC. The code takes weekdays and months in the instant's location; the next-run
  arithmetic is proved for every fixed offset as well.
- A snapshot is identified by its label, where ZFS compares identities. The two agree on
  the base of a send in every state that careful runs reach, which never take the label of the last
  replicated snapshot again.
- Collected sample times are after 1970, and a table query asks for a positive number of points,
  by which the code divides.

## Where the code does not do what it is for

- A first replication whose result is not recorded (the process dies, or the sender fails after
  the last byte) leaves the task stuck: it sends in full forever, to a target that now has
  snapshots. The same holds once the last replicated snapshot is gone from the source.
  `ProgressExactlyUnlessStuck` proves for the states careful runs reach that these are the only
  ways to get stuck, and that both are final.
- Destroying the replicated newest snapshot and taking its label again makes the next run report
  "up to date" over other content (`ReusedLabelBreaksChain`); `CreateKeepsChainExactly` gives the
  exact condition.
- A cooldown above 168 hours does not hold, because the history is pruned after seven days
  (`SpacingExactlyUpToRetention`).
- The ring serves windows of up to 1800 s, as documented, but at exactly 1800 s it can miss the
  sample on the edge (`RingWindowExactly`, with the input in `EdgeSampleMissed`).
- Retention matches the bare prefix while labels are `prefix-stamp`, so a schedule can destroy the
  snapshots of another one: "auto" takes those of "auto-weekly" (`AutoTakesAutoWeekly`).
  `SparesExactly` gives the exact condition on the two prefixes.
- The share endpoint writes comments and user lists untrimmed and with line breaks, and such a share
  does not read back as itself (`LostComment`); `PrintParseExactly` gives the exact condition.
- Pasting a directory into itself never ends by itself (`EndlessCopyNests`), and pasting a file
  onto itself empties it (the contract of `CopyFile`).
- The comment on the weekly case promises Monday 00:00 UTC. That holds exactly in locations not
  behind UTC (`WeeklyPromiseExactly`); behind it the run falls on a UTC Tuesday (`WesternWeek`).

## Model

| member | source | states |
|---|---|---|
| Calendar.MonthOfBrackets | scheduler.go:27-29 | every day, counted from 1970-01-01, lies in the month that the year and month computed from it name, in the proleptic Gregorian calendar with its leap rule |
| Calendar.MonthLengthsByFormula | scheduler.go:27-29 | the lengths of the months agree with a formula that names none of them |
| Calendar.KnownRuns | scheduler.go:13-33 | from a Saturday in August 2026 the next run of every frequency, in nanoseconds |
| Calendar.NextRunTime | scheduler.go:13-33 | the switch with its stepping loop computes the next run of a location at any offset, the weekly loop in at most six steps |
| Calendar.LocalNextRunIsLeastBoundary | scheduler.go:13-33 | in every location at a fixed offset the next run is the least boundary of that location strictly after the instant |
| Calendar.WeeklyPromiseExactly | scheduler.go:19-25 | the weekly run is the first UTC Monday midnight after every instant if and only if the location is not behind UTC; behind it never |
| Calendar.WesternWeek | scheduler.go:19-25 | five hours behind UTC the run after the epoch is Tuesday 6 January 1970 |
| Calendar.NextRunIsLeastBoundary | scheduler.go:13-33 | for the four frequencies the next run is a period boundary strictly after the instant, and the least one |
| Calendar.NextRunMonotone | scheduler.go:13-33 | a later instant never has an earlier next run, and the next run is always later than the instant |
| Calendar.NextRunConstantWithinPeriod | scheduler.go:13-33 | two instants share their next run if and only if no boundary separates them |
| Calendar.NextRunOfSecond | configdb.go:306-312 | storing whole seconds loses nothing: the second of an instant has the same stored next run |
| Schedules.Scheduler.Tick | scheduler.go:91-102 | a tick is a step of the machine whose automatic runs are exactly the rows due at its query, each once, in any order |
| Schedules.TickRunsExactly | configdb.go:324-350 | a tick runs a row if and only if it is enabled and has no next run or one that has come |
| Schedules.Scheduler.Run | scheduler.go:113-133 | the row gets the run's second and the next run computed before the work, whether or not the work succeeds |
| Schedules.Scheduler.DueSchedules | configdb.go:324-350 | exactly the enabled rows whose next run is unset or has come, each once, as stored |
| Schedules.Scheduler.RunNow | scheduler.go:105-111 | a manual run moves the row's next run like an automatic one and is refused for a missing row |
| Schedules.Scheduler.Create | handlers.go:1793-1825 | a form without kind, target or frequency is refused; a new row holds the form with its prefix trimmed or defaulted, is enabled, has not run and is due at the boundary after its creation |
| Schedules.AutoRunsAreSeparated | scheduler.go:91-133 | in every reachable state a period boundary lies between any two automatic runs of one schedule |
| Schedules.TickServesAllDueOnce | scheduler.go:91-102 | however late a tick comes it runs each due row once, moves it past the tick, touches no other row and leaves nothing due |
| Schedules.DueTestsDifferOnlyAtBoundary | configdb.go:197-218 | in every reachable state the stored due test and the recomputing one agree at every instant except the boundary itself |
| Snapshots.Host.Prune | hostd.go:295-346 | the destroy loop over collected names leaves exactly the snapshots the retention rule keeps and those whose destroy fails, which is given beforehand |
| Snapshots.Host.Create | hostd.go:177-202 | a snapshot is taken if and only if the command works, the label is proper and the name free |
| Snapshots.SurvivorsAreAllButOldest | hostd.go:339-343 | a prune leaves, in order, all snapshots except the oldest matching ones beyond the newest `keep`, less the held ones |
| Snapshots.SurvivesExactly | hostd.go:322-343 | a snapshot survives if and only if it does not match, fewer than `keep` newer ones match, or its destroy fails |
| Snapshots.CountPruned | hostd.go:339-343 | with no failing destroy exactly min(keep, n) matching snapshots are left, and otherwise at least as many |
| Snapshots.PruneIdempotent | hostd.go:322-343 | pruning again changes nothing |
| Snapshots.PrunesCommute | hostd.go:335-343 | prunes for two prefixes commute when neither extends the other |
| Snapshots.PruneIsLocal | hostd.go:329-337 | other datasets in the listing, children included, are untouched and do not influence the prune |
| Snapshots.NameSplits | hostd.go:329-334 | cutting a listed name at its last at sign gives back its dataset and label |
| Snapshots.Host.RunSnapshot | scheduler.go:135-147 | a scheduled run ends with the new snapshot newest and min(retention, n + 1) matching ones |
| Snapshots.StampsExactly | scheduler.go:35-37 | the stamps are exactly the texts that some second of some day in the years 0 to 9999 is printed as |
| Snapshots.ReachesExactly | scheduler.go:35-37 | a prefix reaches another's labels, told by filling up a begun stamp, if and only if it begins one the other schedule can take on some date |
| Snapshots.SparesExactly | scheduler.go:35-37 | a schedule's prunes never take another schedule's snapshots, whatever else is listed, if and only if its prefix does not reach the other's labels |
| Snapshots.AutoTakesAutoWeekly | hostd.go:335-343 | a prune for "auto" destroys a snapshot of "auto-weekly", and not the other way round |
| Replication.PlanRun | hostd.go:1201-1246 | the planning with its search for the base computes the plan |
| Replication.PlanMeaning | hostd.go:1211-1246 | read back from names: up to date exactly when the last snapshot is the newest, incremental exactly from an older one to the newest, otherwise full |
| Replication.StepKeepsChain | scheduler.go:78-88 | every step keeps the recorded snapshot on the target with its source content, and only a recorded run moves it, to the newest |
| Replication.ChainInEveryRun | scheduler.go:78-88 | in every run that does not take the recorded label again, a recorded last snapshot is on the target with the content the source gave it |
| Replication.CreateKeepsChainExactly | hostd.go:177-202 | taking a label keeps the chain if and only if it is not the recorded one, is refused, or has the content the target holds |
| Replication.ReusedLabelBreaksChain | hostd.go:1215-1222 | destroying the replicated newest snapshot and taking its label again makes the next run report being up to date over other content |
| Replication.ProgressExactlyUnlessStuck | hostd.go:1229-1268 | some careful continuation moves the recorded snapshot if and only if the task is not stuck |
| Replication.UnrecordedFirstRunIsFatal | hostd.go:1291-1323 | a first run that is received and not recorded makes a task that is not stuck stuck |
| Replication.KeepsLastExactly | hostd.go:322-343 | a step keeps the last replicated snapshot on the source if and only if it is protecting: enough room in the prune, another name destroyed, no rollback behind it |
| Replication.ScheduledRunKeepsLastExactly | scheduler.go:135-147 | a scheduled snapshot run keeps the base if and only if it does not match, is held, or fewer than retention - 1 newer ones match |
| Replication.RetentionKeepsIncremental | hostd.go:1215-1246 | through any protecting steps every later plan is up to date or incremental, and its stream can be received |
| Replication.PacedRunStaysIncremental | scheduler.go:135-147 | without manual destroys and rollbacks, recording a replication before `keep` further snapshots of each pruned prefix are taken suffices for that |
| Replication.RollbackRestores | hostd.go:234-262 | whatever lies between, rolling back to a snapshot that is still there restores the data of the moment it was taken, as the newest snapshot |
| Replication.Task.TakeSnapshot | hostd.go:177-202 | the endpoint is a step of the machine and takes only an unused, proper label |
| Replication.Task.DestroySnapshot | hostd.go:204-230 | the endpoint is a step of the machine, or fails and changes nothing |
| Replication.Task.RollBack | hostd.go:234-262 | the endpoint is a step of the machine, or fails and changes nothing |
| Replication.Task.PruneSnapshots | hostd.go:295-346 | the destroy loop, run on the task's source, is one step of the machine |
| Replication.Task.ScheduledSnapshot | scheduler.go:135-147 | a scheduled run on the task's source is the two steps of taking and pruning |
| Pacing.ScheduleKeepsReplicationIncremental | scheduler.go:78-147 | beside any reachable scheduler, a task whose replications are recorded so often that every automatic run comes before boundary number retention - 1 after the last one stays up to date or incremental |
| Replication.Task.RunReplication | hostd.go:1190-1324 | a run succeeds, with the newest label, if and only if the listing works, there is a snapshot, and the last one is the newest or both commands work and the target can take the stream; every run is the machine's step for what the environment answers |
| Replication.Task.RunTask | scheduler.go:78-88 | the bookkeeping around a run, death before the update included, is one step of the machine; it writes the time, status and message, and an error writes the old last snapshot back |
| MetricsRing.InsertIsMapUpdate | metrics.go:136-136 | storing a sample is a last-write-wins update of the map from second to value |
| MetricsRing.TableIsMap | metrics.go:205-216 | over any steps, whatever the sample times, the rows stay in key order and are the map of everything stored, restricted at each retention pass |
| MetricsRing.CleanIsSuffix | metrics.go:205-216 | retention deletes a prefix of the rows |
| MetricsRing.RestartRebuildsRing | metrics.go:159-203 | at every restart of every run the rebuilt ring agrees with the one the process died with, less samples retention had cut and the one not yet stored |
| MetricsCollector.Collector.constructor | metrics.go:80-101 | a start is the restart of the machine, the ring from the newest 360 rows oldest first, followed by a retention pass |
| MetricsCollector.Collector.CollectSample | metrics.go:218-232 | a collection is a step of the machine: into the ring, then into the table |
| MetricsCollector.Collector.Cleanup | metrics.go:205-216 | a retention pass is a step of the machine |
| MetricsCollector.Collector.PushSample | metrics.go:225-231 | a push appends the sample and drops the oldest only when the ring is full |
| MetricsCollector.Collector.PopulateRing | metrics.go:159-203 | pushing the selected rows from the last to the first adds the newest rows in time order |
| MetricsCollector.PushUnrolled | metrics.go:226-230 | overwriting the slot after the newest is a bounded append on the circular array |
| MetricsQuery.EarlyStopIsSound | metrics.go:650-657 | for times that do not go back the scan that stops early is the whole window, newest first |
| MetricsQuery.RingWindowExactly | metrics.go:630-657 | with spaced samples the ring gives the whole history in the window, and misses one sample if and only if the window is 1800 s and the 361st newest lies on its edge |
| MetricsQuery.EdgeSampleMissed | metrics.go:644-657 | with a sample every five seconds up to second 1800 the ring misses the one at second 0 |
| MetricsQuery.RingShowsHistory | metrics.go:630-657 | in every state of every run with spaced samples the ring gives the whole window of the history, but for the edge sample of the full window |
| MetricsQuery.TableHoldsHistory | metrics.go:205-216 | in every state of every run the table holds the whole window of the history that no retention pass reached into |
| MetricsCollector.Collector.QueryRing | metrics.go:644-667 | the rows are the scanned window, thinned to picks that start at the newest, strictly advance, stay in bounds and are spread evenly: the i-th is i * n/p rounded down, up to a thousandth |
| MetricsCollector.Collector.Query | metrics.go:630-642 | windows up to 1800 s are answered from the ring, longer ones from the table |
| MetricsQuery.PickGap | metrics.go:658-665 | picks so spread are never further apart than the rounded-up step and one |
| MetricsQuery.BucketSeconds | metrics.go:691-694 | the width fits the number of points into the window, and a wider one would not, or it is one second |
| MetricsQuery.PicksAdvance | metrics.go:658-665 | any positions within a thousandth of i * n/p pick rows in bounds, strictly further each time |
| MetricsQuery.ExactGap | metrics.go:658-665 | in exact arithmetic no gap between picks exceeds the rounded-up step |
| MetricsCollector.Collector.QueryTable | metrics.go:685-728 | at most P points, newest first, at times that are multiples of the bucket width at least one width apart, each the mean of its bucket's samples and between the least and the greatest; every sample of the window is shown unless the response is full and the sample older than all of it, and then, with no sample ahead of the clock, within b + P - 1 seconds of the window's start |
| MetricsQuery.AnswerIsUnique | metrics.go:702-706 | these properties determine the response |
| MetricsQuery.GroupOrdered | metrics.go:702-706 | buckets are nonempty, strictly decreasing multiples of the width, from the newest row's |
| MetricsQuery.GroupIsGroupBy | metrics.go:702-706 | a bucket has exactly the number and sum of the rows that fall into it, and every row's bucket is there |
| MetricsQuery.GroupConserves | metrics.go:702-706 | before the limit the buckets' counts and sums add up to those of all rows |
| MetricsQuery.AverageIsMean | metrics.go:696-706 | an average lies between the least and greatest value of its bucket and times the count gives the sum |
| MetricsQuery.LimitDropsOnlyOldest | metrics.go:691-706 | a dropped row is within b + P - 1 seconds of the window's start, and none is dropped when the window is shorter than P |
| FileCopy.FileSystem.CopyDir | filemanager.go:711-735 | on success the tree at the target is the tree at the source path by path; in every case nothing outside the target changed; with reliable paths it succeeds if and only if the source is a directory and the target a new place; it terminates unless the target is a new place inside the source |
| FileCopy.FileSystem.CopyFile | filemanager.go:696-709 | on success the target holds the source's data, or nothing when they are the same file; a failure touches only the target |
| FileCopy.FileSystem.CopyPath | filemanager.go:685-694 | the copy to a new place is exact and leaves everything else alone; an existing directory is refused, an existing file overwritten; with reliable paths success and result are determined, and a refusal changes nothing |
| FileCopy.FileSystem.PasteCopies | filemanager.go:664-678 | whether or not it succeeds nothing outside the landings changes; pasted onto distinct new places of a directory, every clipboard path arrives under its last name as it was before the paste, and with reliable paths the paste succeeds; for any landings, with reliable paths, it makes exactly the copies in order up to the first impossible one |
| FileCopy.EndlessCopyNests | filemanager.go:711-735 | a directory copied to a new place inside itself nests beyond every depth |
| AlertCooldown.Alerts.FireAlert | alerting.go:139-146 | an attempt is a step of the machine: suppressed by a recent record, otherwise recorded and sent |
| AlertCooldown.Alerts.AlertFiredRecently | configdb.go:526-535 | true exactly when a record of the subject is newer than the cutoff |
| AlertCooldown.Alerts.PruneAlertHistory | configdb.go:545-548 | keeps exactly the records not older than seven days |
| AlertCooldown.SpacingExactlyUpToRetention | alerting.go:139-158 | alerts for one subject are at least the cooldown apart in every run if and only if the cooldown is at most 168 hours |
| AlertCooldown.PersistentConditionKeepsAlerting | alerting.go:139-158 | with tests at most D apart, each finds an alert less than cooldown + D back |
| AlertCooldown.ConsecutiveAlertsAreNear | alerting.go:139-158 | while each attempt records at most D after an earlier one tested, consecutive alerts for a subject are less than cooldown + D apart |
| SmbConf.ParseSMBConf | hostd.go:721-751 | the line loop computes the parse |
| SmbConf.SmbShareToConf | hostd.go:753-773 | the builder computes the printed text |
| SmbConf.PrintedText | hostd.go:753-773 | the text of a fragment, optional lines only for a value, flags as Yes or No |
| SmbConf.SpelledExactly | hostd.go:735-748 | a key is recognised in exactly the spellings whose lower case it is |
| SmbConf.SettingReads | hostd.go:724-748 | a setting is read from its line in any casing of the key, any blanks around key and value, and any spelling of yes |
| SmbConf.PrintParse | hostd.go:721-773 | reading a printed share gives it back, for fields on one line and trimmed values |
| SmbConf.PrintParseExactly | hostd.go:721-773 | a share survives printing and reading if and only if its fields are on one line and its values trimmed |
| SmbConf.LostComment | hostd.go:824-834 | a comment of two lines, or with a blank at its end, as the endpoint may write it, does not come back |
| SmbConf.ParsePrintParse | hostd.go:721-773 | for any text, reading, printing and reading again is reading once |
| SessionCookie.VerifyAcceptsExactlySigned | session.go:85-103 | verification accepts exactly the signed texts, dots in the payload included |
| SessionCookie.CookieRoundTrip | session.go:44-75 | a cookie reads back as its own identity or not at all, and does if and only if the name is non-empty without a colon and the role is known |
| SessionCookie.ReadSessionExact | session.go:61-75 | a cookie yields an identity if and only if it is that identity's payload signed with the secret |
| ZpoolStatus.ParseZpoolStatus | storage.go:126-195 | the line loop computes the parse |
| ZpoolStatus.ParseComposes | storage.go:139-194 | output split before a pool line parses to the pools of its parts |
| ZpoolStatus.OnePoolPerPoolLine | storage.go:144-147 | as many pools as pool lines |
| ZpoolStatus.RowReads | storage.go:174-190 | a row of any number of words, at any indentation, reads as its name, state and, from five words on, the three counters |
| ZpoolStatus.VdevRowReads | storage.go:174-190 | a row reads as its device, depth from the indentation and columns from the words, whatever the padding |
| ZpoolStatus.PrintedPoolsReadBack | storage.go:126-195 | pools laid out as the command prints them, status, action and scan lines only where there is a value, parse to exactly those pools, every value and device row in its own |
| DatasetTree.ListDatasets | zfs.go:91-184 | the two passes compute the listing; of complete lines each entry has its line's name, kind and size class, and for well-formed unique names closed under parents they form a tree |
| DatasetTree.ListingFormsTree | zfs.go:144-182 | in that listing an entry has children if and only if some entry has it as parent, every entry but a pool has its parent listed one level up and its name composed of the parent's and its short name, and no entry descends from one offered for deletion |
| DatasetTree.HasChildrenExactly | zfs.go:106-113 | the children flag holds if and only if some entry has the dataset as parent, and if and only if some entry has it as ancestor |
| DatasetTree.ParentIsOneUp | zfs.go:126-142 | depth is the parent's depth plus one, and the names without a parent are the pools at depth 0 |
| DatasetTree.ChainEndsAtPool | zfs.go:126-142 | following parents from a listed name reaches a listed pool after exactly its depth |
| DatasetTree.NameIsParentAndShortName | zfs.go:115-134 | a name is its parent, the separator and its short name, which has no separator of its own |
| DatasetTree.DeletableExactly | zfs.go:160-164 | a dataset is offered for deletion if and only if it is a file system below the size threshold, is no pool and no listed name descends from it |

## Left out

- The collector without its table, when the database cannot be opened: it starts with an empty ring and stores nothing.
- Recursive replication, whose listing also holds child snapshots: the chain is about one dataset.
- Concurrency between a manual run and a scheduled one, and between replication ticks: runs of one task are serialised.
- The loop that lists due replication tasks and the one over several of them: only the due test is modelled.
- The scrub and self-test runs of a schedule: an outcome without effect on the model.
- The order of a directory listing and of a query without an order: any order is allowed, so nothing depends on it.
- Permissions, symbolic links and moving instead of copying in the file manager.
- Samples have one value; a chart with several columns treats each alike, and the selection of columns is not modelled.
- Text input of command output: listings enter as names or lines, numbers are parsed by a parameter.
- The wrapped lines of a long `zpool status` text, which the reader skips: the printed form used for reading back puts each text on one line, and no device name begins like a key.
- Bytes that are not valid UTF-8, and the length limit of the line scanner.
- The conditions an alert check tests, its early exit and its delivery: any sequence of attempts and prunes is a run.
- Cookie attributes and the MAC itself, which is any function to texts without dots.
- HTTP handlers, templates, the container client, log and sensor scraping, users and roles.
