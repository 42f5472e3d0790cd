# dist_test decision rules, modelled in Dafny

`dist_test` runs a Java project's unit tests spread over many slave
machines. A client submits a job of isolated tasks to a server. Slaves
take tasks off a queue, run them, upload logs and artifact archives, and
ask for a retry when a task fails with retries left. The client polls the
job and fetches the results. Around this core sit the `grind` tooling and
a result server:

- `grind` finds a Maven project's modules and test classes, packages its
  dependencies and merges JUnit XML reports.
- The result server stores per-test-case results and renders flaky-test
  reports.

This project models the pure decision rules of that system. Every I/O
result is passed in as a parameter: query results, file contents, stderr
lines, whether a path exists, and what a pattern or regular expression
matches. The rules modelled are these:

- task records and their JSON form, and task-group classification
  (`dist_test.dfy`, `legacy_dist_test.dfy`);
- the server's task ids, longest-first ordering, retry priority, task
  listing filter and job summary (`server.dfy`, `legacy_server.dfy`);
- the slave's retry cache, test-directory detection, archive naming, run
  decisions and busy-slot ring (`slave.dfy`, `legacy_slave.dfy`);
- the client's exit code, status printing, URL building, bounded retries
  and download naming (`client.dfy`, `legacy_client.dfy`);
- the settings lookups (`config.dfy`, `legacy_dist_test.dfy`) and the
  autoscaler's resize rule (`autoscale.dfy`);
- Maven module trees, include/exclude closure, the test-class filter
  chain and jar classification (`maven_project.dfy`,
  `legacy_maven_project.dfy`, `enumerators.dfy`);
- the JVM class file header parser, following sections 4.1 and 4.4 of the
  Java Virtual Machine Specification, Java SE 7 edition
  (`classfile.dfy`);
- JUnit XML merging with flaky filtering, and failure-summary extraction
  (`merge_xunit.dfy`, `legacy_merge_xunit.dfy`, `failure_summary.dfy`);
- the packager's cache manifest, unzip commands and unpack script
  (`packager.dfy`);
- the result server's status codes, upload decision and flaky report
  (`result_server.dfy`);
- the in-place linked-list reversal fixture of the test project and its
  unit test, on a heap model (`linked_list.dfy`).

Older root-level variants of the server, client, slave and `dist_test`
modules, and the first `python/disttest` package, are modelled as
separate `Legacy*` modules. Lemmas there relate each older rule to the
newer one, so the differences are stated explicitly.

Shared helpers model library behaviour: Python's `int()`/`str()`,
`os.path` operations, stable sorting, and an abstract XML tree
(`strings.dfy`, `paths.dfy`, `sorting.dfy`, `xml.dfy`, `json.dfy`,
`seqs.dfy`, `wrappers.dfy`). They model no repository lines and have no
rows below.

Python exceptions are modelled as `Failure` values, or as a `Raised`
outcome that keeps the effects that happened before the exception.

## Model

| member | source | states |
|---|---|---|
| LinkedListReversal.Reverse | python/disttest/test/test-resources/MultiModuleTestProject/module-two/src/main/java/com/cloudera/disttest/LinkedListReversal.java:5-18 | the returned head starts a well-formed chain of the same nodes in reverse order, so the old tail comes first and the old head last with a null next; its values are the input values reversed; empty and one-node lists come back as they were |
| LinkedListReversal.RelinkedIsReversed | python/disttest/test/test-resources/MultiModuleTestProject/module-two/src/main/java/com/cloudera/disttest/LinkedListReversal.java:11-17 | once the loop has pointed every node at its predecessor, the last node heads a chain of all the nodes in reverse order, ending in null |
| LinkedListReversal.AtMostOneNode | python/disttest/test/test-resources/MultiModuleTestProject/module-two/src/main/java/com/cloudera/disttest/LinkedListReversal.java:6-8 | the early return applies only to an empty or a one-node list |
| LinkedListReversal.PrintList | python/disttest/test/test-resources/MultiModuleTestProject/module-two/src/main/java/com/cloudera/disttest/LinkedListReversal.java:20-27 | the printed text is each value followed by " -> ", in list order, then "null"; the list is only read |
| LinkedListReversal.CreateList | grind/python/disttest/test/test-resources/MultiModuleTestProject/module-two/src/test/java/com/cloudera/disttest/TestLinkedListReversal.java:10-19 | builds a well-formed list of ten fresh nodes holding 1, 2, ..., 10 in that order |
| LinkedListReversal.IsAscending | grind/python/disttest/test/test-resources/MultiModuleTestProject/module-two/src/test/java/com/cloudera/disttest/TestLinkedListReversal.java:21-31 | true exactly when every value is at least the one before it; empty and one-node lists count as ascending |
| LinkedListReversal.IsDescending | grind/python/disttest/test/test-resources/MultiModuleTestProject/module-two/src/test/java/com/cloudera/disttest/TestLinkedListReversal.java:33-43 | true exactly when every value is at most the one before it; empty and one-node lists count as descending |
| LinkedListReversal.CountNodes | grind/python/disttest/test/test-resources/MultiModuleTestProject/module-two/src/test/java/com/cloudera/disttest/TestLinkedListReversal.java:45-52 | the number of nodes in the chain, 0 for null |
| LinkedListReversal.AscendingRev | grind/python/disttest/test/test-resources/MultiModuleTestProject/module-two/src/test/java/com/cloudera/disttest/TestLinkedListReversal.java:54-65 | a value sequence is ascending exactly when its reversal is descending |
| LinkedListReversal.CreatedOrder | grind/python/disttest/test/test-resources/MultiModuleTestProject/module-two/src/test/java/com/cloudera/disttest/TestLinkedListReversal.java:56-63 | the values 1..10 are ascending and their reversal descending |
| LinkedListReversal.TestReversal | grind/python/disttest/test/test-resources/MultiModuleTestProject/module-two/src/test/java/com/cloudera/disttest/TestLinkedListReversal.java:54-65 | the test's three assertions hold: the created list is ascending, the reversed list is descending, and the node count is unchanged |
| Autoscale.StartedPoolBounded | gce-autoscale.py:37-56 | a loop started from a target size of at most 100 never remembers a size above 100, whatever the polls report |
| Autoscale.StartIdleShrinks | gce-autoscale.py:37-50 | because the loop starts with a last growth time of 0, an idle first poll after the shrink lag asks for a single node, and a successful resize leaves the pool at one node with the grow time still 0 |
| Autoscale.NewSize | gce-autoscale.py:44-50 | queued work asks for ten more nodes, capped at 100; an idle pool whose last growth is more than 600 s old drops to one node; otherwise the size stays |
| Autoscale.Step | gce-autoscale.py:40-56 | a failed poll changes nothing; queued work resets the grow time; resize is called exactly when the new size differs from the last one, and the remembered size changes only if that resize succeeded |
| Autoscale.StepKeepsBound | gce-autoscale.py:46 | a pool of at most 100 nodes never grows past 100 |
| Autoscale.BusyGrowth | gce-autoscale.py:45-47 | k rounds that all see queued work grow the pool by 10 nodes each up to 100 |
| Autoscale.NoShrinkWithinLag | gce-autoscale.py:48-50 | an idle round within 600 s of the last growth neither resizes nor changes the state |
| Config.Get | infra/config.py:86-89 | a lookup succeeds exactly when the section exists and holds the option or the option is a parser default; the section's own value wins over the default; a missing section is a `NoSectionError` |
| Config.GetWithEnvOverride | infra/config.py:112-119 | a set environment variable wins, even when empty; otherwise the file's value when the file has the option; nothing exactly when neither supplies one |
| Config.Defaults | infra/config.py:43-48 | the parser starts with exactly four defaults: `log_dir`, `submit_gce_metrics`, `allowed_ip_ranges` and `accounts` |
| Config.MysqlPortRoundTrip | infra/config.py:64-67 | any port written out in decimal reads back as that port, and an absent setting gives 3306 |
| Config.LoadPortFromEnv | infra/config.py:64-67 | a `MYSQL_PORT` set to a decimal number is the loaded configuration's port |
| Config.ExpandUser | infra/config.py:81 | a `~/` path expands to the home directory with its trailing slashes removed, then a slash, then the rest of the path |
| Config.ExpandUserTrailingSlash | infra/config.py:81 | a trailing slash on the home directory does not change the expansion |
| Config.WithDistTestSection | infra/config.py:76-77 | afterwards the `dist_test` section exists; every section the file had is unchanged |
| Config.Load | infra/config.py:36-99 | the MySQL port falls back to 3306 and the job path to `~/.dist-test-last-job`; user and master come from the environment first, then the `dist_test` section, else nothing; the allowed IP ranges, the accounts and the log directory come from the `dist_test` section when it sets them, else from the parser defaults |
| Config.LoadConfiguresAuth | infra/config.py:152-158 | authentication is set up exactly when the loaded user is non-empty: an environment `DIST_TEST_USER` decides when present, otherwise the `user` of the `dist_test` section does |
| Config.LoadReadsTwoSections | infra/config.py:52-93 | the loaded values depend only on the environment and the `mysql` and `dist_test` sections: files that agree on those load alike |
| Config.EnsureConfigs | infra/config.py:146-150 | succeeds exactly when every listed setting has a value; otherwise the error names a listed setting without one |
| DistTest.ToJson | infra/dist_test.py:50-61 | a task serialises to an object with exactly the eight wire keys |
| DistTest.FromJson | infra/dist_test.py:37-48 | the first of `job_id`, `task_id`, `isolate_hash`, `description` that is missing, in the constructor's order, is the `KeyError`, and a `KeyError` means one is missing; a read task carries those values, and `timeout`, `attempt` and `max_retries` default to 0 and the globs to the empty list |
| DistTest.FromTypedJson | infra/dist_test.py:37-48 | with the four keys present, a read task holds each wire value unchanged and defaults exactly the absent optional ones |
| DistTest.FromJsonToJson | infra/dist_test.py:27-61 | serialising a task and reading it back gives the same task |
| DistTest.ToJsonFromJson | infra/dist_test.py:37-61 | reading an object and serialising the task keeps the value of every wire key the object carried |
| DistTest.RetryIdIdentifiesTask | infra/dist_test.py:63-64 | within one job, two tasks have the same retry id exactly when they have the same task id |
| DistTest.AttemptId | infra/dist_test.py:66-67 | the attempt id extends the retry id by a dot and the attempt number |
| DistTest.AttemptIdParts | infra/dist_test.py:66-67 | the attempt id starts with the retry id and a dot, and the rest parses back to the attempt number |
| DistTest.AttemptIdDistinguishesAttempts | infra/dist_test.py:63-67 | two attempts of one task share a retry id; their attempt ids are equal only when the attempt numbers are |
| DistTest.IsFailed | infra/dist_test.py:79 | a failed attempt has finished and has not succeeded; every finished attempt has failed or succeeded |
| DistTest.IsSucceeded | infra/dist_test.py:83 | a successful attempt has finished |
| DistTest.Classify | infra/dist_test.py:69-106 | a group has failed when all its attempts failed and none has retries left; it has succeeded when some attempt succeeded; it is flaky when it failed with retries left or succeeded after a failure; it is finished exactly when it failed or succeeded; failed and succeeded exclude each other |
| DistTest.EmptyGroup | infra/dist_test.py:76-82 | a group without attempts has no status at all, since `all([])` is true but the failure also needs a non-empty list |
| DistTest.RunningGroupUnfinished | infra/dist_test.py:79-106 | while an attempt is still running the group is finished exactly when some attempt succeeded |
| DistTest.ExecuteQuery | infra/dist_test.py:151-175 | at most three attempts; every attempt before the last lost the server; the query succeeds exactly when the last attempt executed; a lost server before the third attempt is never the error raised |
| DistTest.ExecuteFrom | infra/dist_test.py:159-175 | from attempt `n` on, the loop makes at least one more attempt and never more than three in all |
| DistTest.ExecuteQuerySucceeds | infra/dist_test.py:159-173 | if the first successful attempt comes within three and every earlier one lost the server, the query returns that attempt's cursor |
| DistTest.Abbrev | infra/dist_test.py:263-269 | the abbreviation is a prefix of the log, of length 100 or the whole log when shorter |
| DistTest.MarkTaskFinished | infra/dist_test.py:254-300 | a non-empty stdout or stderr is uploaded under `<attempt id>.stdout` or `.stderr` and stored abbreviated, an empty one gets no key and an empty abbreviation; an artifact archive is uploaded under `<attempt id>-artifacts.zip`; nothing else is uploaded |
| DistTest.FinishedKeysDistinct | infra/dist_test.py:262-274 | the three upload keys of one attempt never collide |
| LegacyDistTest.ToJson | dist_test.py:57-62 | a task serialises to exactly its three fields |
| LegacyDistTest.FromJson | dist_test.py:52-55 | the first of `job_id`, `task_id`, `isolate_hash` that is missing is the `KeyError`, and a `KeyError` means one is missing; reading succeeds exactly when all three keys hold strings, and the task read back serialises to the object's three fields |
| LegacyDistTest.FromJsonToJson | dist_test.py:43-62 | serialising a task and reading it back gives the same task |
| LegacyDistTest.GetWithEnvDefault | dist_test.py:36-39 | the file's value wins; the environment is consulted only when the file lacks the option |
| LegacyDistTest.EnvDefaultVersusOverride | dist_test.py:36-39 | the legacy lookup and the newer environment-first lookup agree unless the file and the environment both supply a value, and then they return the file's and the environment's value respectively |
| LegacyDistTest.ExecuteFromAsWritten | dist_test.py:99-112 | the loop makes at most one attempt past its starting point |
| LegacyDistTest.AsWrittenNeverRetries | dist_test.py:99-112 | a lost server ends the query with the dropped connection in use, leaving the store disconnected, and a disconnected store fails every later query without executing it |
| LegacyDistTest.GoneAwayOnceCounterexample | dist_test.py:107-110 | a server that goes away once defeats the legacy loop, while the reconnecting loop succeeds on its second attempt |
| LegacyDistTest.MarkTaskFinished | dist_test.py:133-146 | both logs are stored abbreviated to 100 characters; a missing log makes the slice raise |
| TaskServer.TaskIdForInjective | infra/server.py:170-172 | two positions of a job never share a task id `<isolate hash>.<position>`, whatever the isolate hashes are |
| TaskServer.DurationTable | infra/server.py:206-208 | the table has an entry for exactly the descriptions among the rows |
| TaskServer.DurationTableLatest | infra/server.py:206-208 | a description's last row gives its duration: later rows replace earlier ones |
| TaskServer.WithDurations | infra/server.py:209-212 | each task is paired with its last duration, 0 for a description never run, in job order |
| TaskServer.SortTasksByDuration | infra/server.py:199-217 | the submission order has as many tasks as the job; it is their permutation by duration, as the next row states |
| TaskServer.SortTasksByDurationCorrect | infra/server.py:199-217 | submission order is a permutation of the tasks, by non-increasing last duration, and tasks of equal duration keep their job order |
| TaskServer.SortTasksPermutation | infra/server.py:214-216 | sorting neither drops nor duplicates a task |
| TaskServer.SortTasksOrdered | infra/server.py:214 | sorted tasks have non-increasing durations |
| TaskServer.SortTasksStable | infra/server.py:214 | the tasks of each duration appear in their job order |
| TaskServer.PrepareTask | infra/server.py:169-173 | a completed task belongs to the job and is named after its isolate hash and position; a missing isolate hash, then a missing description, is the `KeyError`, and a `KeyError` means one of them is missing |
| TaskServer.PrepareTasks | infra/server.py:170-174 | one task per description, each completed from its position, or a failure from some description |
| TaskServer.SubmitJob | infra/server.py:166-181 | the job is submitted exactly when every description can be completed |
| TaskServer.PreparedTasks | infra/server.py:170-174 | the completed tasks belong to the job and have pairwise distinct ids |
| TaskServer.SubmitJobTasks | infra/server.py:166-181 | every submitted task belongs to the job and no two share a task id |
| TaskServer.RetryPriority | infra/server.py:194-195 | a retry's priority is never below 1000 |
| TaskServer.RetryPriorityOrder | infra/server.py:192-196 | a retry jumps ahead of a first attempt at the default priority 2^31, and a later retry is not behind an earlier one |
| TaskServer.RetryTask | infra/server.py:187-197 | a task is retried exactly when it has retries left, as its next attempt at the retry priority |
| TaskServer.RetryChain | infra/server.py:187-197 | a failing task is retried `max_retries - attempt` times, each retry a later attempt of the same task |
| TaskServer.RetryChainLength | infra/server.py:189-190 | retries stop: a task gets exactly `max_retries - attempt` of them, numbered consecutively, and the last has none left |
| TaskServer.ParseStatusFilter | infra/server.py:238-239 | only no status or `failed`, `succeeded` and `finished` are accepted |
| TaskServer.LinkFor | infra/server.py:255-260 | a record carries a link exactly for a non-empty key |
| TaskServer.Record | infra/server.py:251-261 | a record keeps the row's id, attempt and description, and carries each link exactly when its key is non-empty |
| TaskServer.Records | infra/server.py:250-262 | there are never more records than rows |
| TaskServer.Tasks | infra/server.py:237-262 | an unknown status is answered with "Unknown status type"; for an accepted status the answer is one record per row the status selects, in row order |
| TaskServer.RecordsFilterMap | infra/server.py:243-262 | building the records while filtering equals filtering the rows by the status and then building one record per kept row |
| TaskServer.RecordsSelect | infra/server.py:242-262 | one record per selected row and each record built from a selected row; with no status every row is listed |
| TaskServer.FinishedIsFailedOrSucceeded | infra/server.py:243-248 | the finished records are as many as the failed and the succeeded ones together |
| TaskServer.GroupIds | infra/server.py:290-300 | the group ids are pairwise distinct and are exactly the rows' task ids |
| TaskServer.GroupOf | infra/server.py:296-297 | a group holds exactly the rows with its task id |
| TaskServer.CountGroups | infra/server.py:302-306 | a group count is at most the number of groups, and equal to it exactly when every group carries the flag |
| TaskServer.SomeGroupFlagged | infra/server.py:302-306 | the count is positive exactly when some row's group carries the flag |
| TaskServer.Summarize | infra/server.py:264-336 | a job without rows fails, since the minimum of no submit times raises; otherwise the status is `running` or `finished` |
| TaskServer.SummaryTaskCounts | infra/server.py:281-287 | every row is finished or running, every finished row failed or succeeded, timeouts are failures, and retried rows are at most all rows |
| TaskServer.SummaryGroupCounts | infra/server.py:299-317 | finished groups are the failed plus the succeeded ones, there is one group per distinct task id, and the job is finished exactly when every group is |
| TaskServer.SummaryFailedGroups | infra/server.py:304 | the job has failed groups exactly when some row's group failed |
| TaskServer.SummaryStatus | infra/server.py:313-317 | the status is `finished` exactly when every row's group is finished |
| TaskServer.GroupsPartition | infra/server.py:296-300 | the groups together hold every row exactly once |
| TaskServer.SummaryFlakyTasks | infra/server.py:323-328 | the flaky-task count is at most the number of rows and zero when no group is flaky |
| TaskServer.StatusClasses | infra/server.py:440-455 | one class for the row's status, and `task-flaky` as well exactly for a failure that is not a timeout in a flaky group |
| TaskServer.StatusClass | infra/server.py:440-455 | the class is `task-failed task-flaky` exactly for a non-timeout failure in a flaky group; `task-running` exactly for a running row; `task-successful` exactly for a success |
| LegacyServer.RetryTask | server.py:121-129 | a task is retried exactly when it has retries left, as the same task at its next attempt, queued at priority 1000 |
| LegacyServer.RetryAgreesWithNewerServer | server.py:121-129 | the older and the newer server retry the same tasks with the same next attempt; the newer server's priority is never below the older one's 1000 |
| LegacyServer.ClassifyGroup | server.py:222-235 | a group failed when every attempt failed, succeeded when some attempt succeeded, timed out when every attempt timed out, and is flaky when it succeeded and some attempt failed |
| LegacyServer.ClassifyGroupExclusive | server.py:222-228 | in a group with an attempt, failed and succeeded exclude each other, and a timed-out group is also a failed one |
| LegacyServer.EmptyGroupFailed | server.py:223-226 | an empty group would count as failed and timed out, since `all([])` is true |
| LegacyServer.Summarize | server.py:192-258 | a job without rows fails, since the minimum of no submit times raises; otherwise the status is `running` or `finished` |
| LegacyServer.CountGroups | server.py:220-236 | a group count is never more than the number of groups |
| LegacyServer.CountGroupsBounded | server.py:220-236 | failed groups plus succeeded groups never outnumber the groups |
| LegacyServer.SummaryConsistent | server.py:207-248 | finished groups never outnumber groups; every row is finished or running; the job is finished exactly when no row is still running |
| LegacyServer.TimedOutCountedTwice | server.py:212-232 | a job of one timed-out row reports two timed-out tasks: once for the row and once for its group |
| LegacyServer.RenderGroup | server.py:342-347 | a group succeeded when some attempt succeeded, and failed when some attempt at its last retry failed |
| LegacyServer.StatusClass | server.py:371-383 | a running row is `task-running`, a successful row `task-successful`, a failed row `task-failed` when its group failed and never succeeded, and `task-flaky` otherwise; a timeout counts as a failure |
| LegacyServer.RenderRetriesLeft | server.py:378-383 | a failed row whose group has not reached its last retry is shown flaky |
| Slave.MatchLeakLine | infra/slave.py:126-128 | a match captures exactly the text between an occurrence of ` Deliberately leaking ` and a later ` for later examination` |
| Slave.MatchLeakLineOfLeakLine | infra/slave.py:121-128 | the pattern recovers the leaked directory from the line `run_isolated` prints, whatever the spacing and process id, when neither the source location nor the directory holds a ':' |
| Slave.LastMatch | infra/slave.py:127-131 | no directory exactly when no line matches; otherwise the capture of a matching line after which no line matches |
| Slave.ParseTestDir | infra/slave.py:118-140 | a directory comes back exactly when some line matches and the last match names an existing path, and then it is that path |
| Slave.ParseTestDirTakesLastLeak | infra/slave.py:129-131 | a leak line after every other matching line decides the directory, whatever came before it |
| Slave.Run | infra/slave.py:126 | the longest run of matching characters from a position: every character in it matches and the next one does not |
| Slave.KeptFiles | infra/slave.py:152-161 | the archived files are exactly the matched canonical paths that pass the containment check |
| Slave.ArchivePlan | infra/slave.py:142-190 | no archive exactly when there is no test directory, no glob or no kept match; the too-big stub, carrying the kept size, exactly when the kept sizes exceed 200 MiB; otherwise the archive holds exactly the kept matches, all inside the test directory when containment is checked |
| Slave.KeptSizeAppend | infra/slave.py:153-162 | the kept size of the globs' matches is the sum over each glob's matches |
| Slave.KeptAllWithoutCheck | infra/slave.py:158 | on macOS every match is kept, and the kept size is the total size of the matches |
| Slave.ArchiveName | infra/slave.py:185-187 | a member name never starts with '/' |
| Slave.ArchiveNameIsRelpath | infra/slave.py:185-187 | the '/'-stripping loop never changes `relpath`'s result |
| Slave.ArchiveNameOfDescendant | infra/slave.py:185 | a file under the test directory is archived under its path below that directory |
| Slave.NewRetryCache | infra/slave.py:53-60 | a new cache has no entries, so every lookup misses, and it holds at most 100 entries of at most 10 touches |
| Slave.Lookup | infra/slave.py:62-65 | the stored count of an item, and nothing exactly when the item is absent |
| Slave.LookupUpdate | infra/slave.py:69-71 | replacing an entry changes only that item's count |
| Slave.LookupRemove | infra/slave.py:66-68 | deleting an entry removes only that item |
| Slave.LookupAppend | infra/slave.py:78 | appending an entry for a new item adds only that item |
| Slave.Remove | infra/slave.py:66-77 | deleting the entry at one position keeps every other entry, in order |
| Slave.Get | infra/slave.py:62-72 | a present item is returned and an absent one is not, the cache then unchanged; the limits never change |
| Slave.GetCounts | infra/slave.py:62-72 | a get of a present item counts one touch, or evicts the item once its count has passed `max_count`; every other item keeps its count |
| Slave.Assign | infra/slave.py:78 | the assignment grows the cache by one exactly when the item was absent |
| Slave.AssignResets | infra/slave.py:78 | the item's count becomes 0 and every other item keeps its count |
| Slave.PutAsWritten | infra/slave.py:74-78 | a full cache is shrunk by `popitem()` before the insertion; only a cache of size zero raises; the size bound is kept |
| Slave.Put | infra/slave.py:74-78 | the same `put`, evicting the oldest entry as the class promises: raises only at size zero and keeps the size bound |
| Slave.DropOldest | infra/slave.py:76-77 | dropping the oldest entry removes only that item |
| Slave.PutResets | infra/slave.py:74-78 | after `put(x)` the item `x` has count 0 |
| Slave.PutEvictsOldest | infra/slave.py:74-78 | a full cache loses exactly its oldest entry to a new item, and every other count survives |
| Slave.PutAsWrittenEvictsNewest | infra/slave.py:76-77 | with `a` then `b` in a full cache of two, the code evicts `b`, the newest entry, where the documented behaviour evicts `a` |
| Slave.DropNewest | infra/slave.py:76-77 | dropping the newest entry removes only that item |
| Slave.PutAsWrittenResets | infra/slave.py:74-78 | in a cache of positive size, `put(x)` succeeds and leaves `x` at count 0 |
| Slave.PutAsWrittenEvictsNewestEntry | infra/slave.py:74-78 | a new item put into a full cache evicts its newest entry, and every older entry keeps its count |
| Slave.GetsUntilExpired | infra/slave.py:62-72 | from count k the next `max_count + 2 - k` gets all return the item, and the last of them evicts it |
| Slave.Gets | infra/slave.py:62-72 | n gets give n answers |
| Slave.PutThenGets | infra/slave.py:62-78 | after `put(x)`, exactly the next `max_count + 2` gets return `x` and the one after returns nothing |
| Slave.FinishTask | infra/slave.py:262-289 | a successful run uploads no logs; a failed run is marked with its logs; a retry is submitted exactly for a failed run with retries left |
| Slave.RetryMeansFailedWithRetries | infra/slave.py:288-289 | a slave retries exactly the attempts the server shows as failed with retries remaining, within the retry limit |
| Slave.SubmitRetry | infra/slave.py:291-300 | an answer without status `SUCCESS` raises AttributeError before the cache is touched; an accepted retry raises only for a cache of size zero, and otherwise leaves the retry id in the cache with count 0 |
| Slave.SubmitRetryIntended | infra/slave.py:291-300 | reporting a refusal and recording the retry whatever the answer: fails only for a cache of size zero, and otherwise leaves the retry id in the cache with count 0 |
| Slave.RefusedRetryNotRecorded | infra/slave.py:297-300 | on an accepted retry the code and the intended version agree; on a refused one the code raises and records nothing, while the intended version records the retry, so the slave would release it when it next reserves it |
| Slave.SubmitRetryEvictsNewest | infra/slave.py:291-300 | submitting a new accepted retry to a full cache evicts the newest recorded retry, and every older one keeps its count |
| Slave.Reserve | infra/slave.py:320-325 | a reserved task is released instead of run exactly when the cache holds its retry id |
| Slave.RetryReleasedUntilExpired | infra/slave.py:320-325 | after the server accepts a retry recorded through the `popitem` cache, the slave releases the retry when it next reserves it, and runs it once the item's `max_count + 2` touches are spent |
| LegacySlave.ScanLinesIsLastMatch | slave.py:86-91 | the loop over stderr lines ends holding the capture of the last matching line, or what it started with when no line matches |
| LegacySlave.LastMatchCons | slave.py:88-91 | the last match of a list of lines is the tail's last match, or else the head's capture |
| LegacySlave.ScanLines | slave.py:86-91 | the loop ends with no directory only when it started with none |
| LegacySlave.ParseTestDir | slave.py:78-100 | a directory is returned only when it exists |
| LegacySlave.ParseTestDirAgrees | slave.py:78-100 | the older slave finds the same test directory as the newer one for every stderr and every file system |
| LegacySlave.StripSlashes | slave.py:144-145 | the member name never starts with '/' |
| LegacySlave.ArchiveName | slave.py:143-146 | a member name never starts with '/' |
| LegacySlave.ArchiveNameAgrees | slave.py:143-146 | both slaves name archive members alike |
| LegacySlave.RunDecisions | slave.py:215-242 | logs are kept exactly for a failed run, and only a failed run is retried |
| LegacySlave.RunDecisionsAgree | slave.py:215-242 | both slaves keep logs and submit retries alike |
| LegacySlave.ArchivePlan | slave.py:102-150 | no archive exactly when there is no test directory, no glob or no match inside it; the too-big stub, carrying the kept size, exactly when the sizes of the matches inside exceed 200 MiB; otherwise the archive holds exactly the matches inside the test directory |
| LegacySlave.ArchivePlanInsideTestDir | slave.py:113-120 | when every match lies inside the test directory, both slaves archive alike on every platform |
| LegacySlave.KeptAlike | slave.py:116 | with every match inside the test directory, checking containment keeps the same files and sizes as not checking it |
| LegacySlave.NewSampler | slave.py:258-260 | the ring starts with 30 idle slots and no samples |
| LegacySlave.Record | slave.py:262-263 | a sample writes slot `i % 30` and no other, and advances the counter |
| LegacySlave.Run | slave.py:258-263 | after any run of samples the ring keeps its 30 slots and counts every sample |
| LegacySlave.Sample | slave.py:261-267 | each iteration records one sample, and every tenth sample reports the busy slot count, at most 30 |
| LegacySlave.RunSlot | slave.py:258-263 | after any run of samples, each slot holds the latest sample written to it, or idle when none was |
| LegacySlave.RingHoldsLastWindow | slave.py:258-263 | once 30 samples are taken, the ring is a rotation of the last 30 samples, starting at the next slot to write |
| LegacySlave.WindowSample | slave.py:262 | every sample of the last 30 is still in its slot |
| LegacySlave.LoadIsWindowShare | slave.py:264 | the reported load counts the busy samples among the last 30 |
| Client.ReturnCode | infra/client.py:96-103 | nothing while the job runs; once it is finished, 88 exactly when some group failed and 0 exactly when none did |
| Client.ReturnCodeOfJob | infra/client.py:96-103 | on a job's rows the client exits exactly when every group has finished, and exits with 88 exactly when some group failed |
| Client.StatusLine | infra/client.py:65-92 | the status line ends with a newline, and off a terminal starts with the run time |
| Client.PrintStatus | infra/client.py:59-93 | off a terminal nothing is written exactly when a previous poll saw the same number of finished tasks; otherwise the status line is written |
| Client.StatusLinePlain | infra/client.py:65-92 | off a terminal the status line carries no escape sequence |
| Client.MakeUrl | infra/client.py:54-56 | a URL exactly for a path starting with '/': the master URL without its trailing slashes, then the path |
| Client.MakeUrlIgnoresTrailingSlash | infra/client.py:56 | a trailing slash on the master URL changes nothing, and the path's slash is never doubled |
| Client.RetryFrom | infra/client.py:106-120 | from retry `a` on, the calls stop at the first success, and after 11 calls in all the last failure is raised |
| Client.UrlopenWithRetry | infra/client.py:106-120 | at most 11 calls; the result comes from the first call that succeeds, and an error exactly when none of the 11 does |
| Client.DownloadFrom | infra/client.py:330-347 | from attempt `x` on, the fetch happens exactly when the path is absent and some remaining attempt succeeds; the last failure is raised exactly when all remaining attempts fail |
| Client.Download | infra/client.py:330-347 | an existing path is skipped; otherwise the fetch happens when one of 10 attempts succeeds, and the error is raised exactly when all 10 fail |
| Client.JobIdFromArgs | infra/client.py:215-224 | with only the command, the saved job id is used when there is one; otherwise exactly one job id argument is required and returned |
| Client.SafeName | infra/client.py:243-244 | the same length, each ASCII letter or digit kept and every other character replaced by '_', for a text `str` can encode |
| Client.SafeNameChecked | infra/client.py:243-244 | `str` raises exactly for a text holding a character past 0x7F; otherwise the safe name, character by character |
| Client.SafeNameCheckedOfSafe | infra/client.py:243-244 | a safe name can always be encoded, and encoding it again changes nothing |
| Client.SafeNameSafe | infra/client.py:243-244 | safe names are fixed points and hold neither '.' nor '/' |
| Client.SafeNameOfNat | infra/client.py:292 | a non-negative attempt number keeps its name |
| Client.FetchStatusAccepted | infra/client.py:277 | the status the client sends is one the server's task listing accepts: the failed tasks when only failed ones are wanted, the finished tasks otherwise |
| Client.FilePrefixParts | infra/client.py:292 | the file prefix splits on '.' back into the safe task id, attempt and description |
| Client.FilePrefixInjective | infra/client.py:292-294 | two attempts share a file prefix only when their safe task ids, attempt numbers and safe descriptions agree, so distinct non-negative attempts never share files |
| Client.TaskDownloads | infra/client.py:291-312 | one download per link the task carries, for the kinds asked for; every log pairs the task's stdout link with `<prefix>.stdout` or its stderr link with `<prefix>.stderr` under the output directory, stdout first; every archive pairs the archive link with `<prefix>.zip` |
| Client.PlanFetch | infra/client.py:288-312 | no logs are planned unless asked for, and no archives unless asked for |
| Client.PlanFetchLogs | infra/client.py:291-309 | with logs asked for, one log download per stdout link and one per stderr link across the tasks, each the stdout or stderr download of one of the tasks |
| Client.PlanFetchAppend | infra/client.py:291-312 | planning two lists of tasks in turn gives the first list's downloads, then the second's |
| Client.PlanFetchArtifacts | infra/client.py:288-312 | one archive download per task with an archive, each stored under the prefix of the task that links it |
| LegacyClient.ReturnCode | client.py:79-86 | nothing until every task has finished; then 88 exactly when some group failed and 0 exactly when none did |
| LegacyClient.ReturnCodeOfJob | client.py:79-86 | on a job's rows the older client exits exactly when no row is still running, which is when the older server reports the job finished |
| LegacyClient.BuildIdOutputPlain | client.py:96-97 | under a build server (`BUILD_ID` set) a status line is printed exactly when the finished count changed, and it carries no escape sequence |
| LegacyClient.PrintStatus | client.py:36-76 | in non-interactive mode nothing is written exactly when a previous poll saw the same number of finished tasks; otherwise the status line is written |
| LegacyClient.PrintStatusAgrees | client.py:36-76 | for summaries with the same progress, the legacy `print_status` writes exactly what the newer client writes, with interactive mode in place of a terminal |
| LegacyClient.StatusLineAgrees | client.py:47-76 | the legacy status line equals the newer client's line for the same progress |
| LegacyClient.StatusLine | client.py:36-76 | the status line ends with a newline, and in non-interactive mode starts with the run time |
| LegacyClient.StatusLinePlain | client.py:36-76 | non-interactive output never carries an escape sequence |
| LegacyClient.DownloadFrom | client.py:283-296 | from attempt `x` on, the file is fetched exactly when the path is absent and some remaining attempt of the three succeeds; nothing is raised |
| LegacyClient.Download | client.py:283-296 | the file is fetched exactly when the path is absent and one of three attempts succeeds |
| LegacyClient.DownloadComparedWithClient | client.py:283-296 | whatever the older download fetches the newer one fetches too, and where the newer one raises the older one returns without a file |
| LegacyClient.SafeName | client.py:199-200 | the same length, letters and digits kept, every other character replaced by '_' |
| LegacyClient.SafeNameAgrees | client.py:199-200 | both clients make the same safe names |
| LegacyClient.JobIdFromArgs | client.py:176-185 | a job id comes from the one argument after the command, or from the saved job when there is no argument |
| LegacyClient.JobIdFromArgsAgrees | client.py:176-185 | both clients take the job id from the same place |
| MavenProject.NormalizeRoot | grind/python/disttest/mavenproject.py:53-55 | the project root always ends with '/', and a root already ending with '/' is kept |
| MavenProject.NormalizeRootIdempotent | grind/python/disttest/mavenproject.py:53-55 | normalising twice is normalising once |
| MavenProject.FindParent | grind/python/disttest/mavenproject.py:92-102 | a found parent is a module path that is a prefix of the module's path |
| MavenProject.FindParentNearest | grind/python/disttest/mavenproject.py:92-104 | on a normalised absolute path the search never spins; it finds the nearest directory above the path that is a module, or reports that no directory above is one |
| MavenProject.MinPath | grind/python/disttest/mavenproject.py:88-90 | the root is a module path that sorts before or equal to every other |
| MavenProject.Construct | grind/python/disttest/mavenproject.py:79-107 | the tree succeeds exactly when every module but the first in sorted order finds a parent; its root sorts first; every other module is a child of exactly the parent its search found; the error names an orphaned module |
| MavenProject.OrphanError | grind/python/disttest/mavenproject.py:103-104 | the error names a module other than the root whose search hangs or finds no parent |
| MavenProject.ParentMap | grind/python/disttest/mavenproject.py:92-107 | every module except the root is mapped to the parent its search finds, and nothing else is mapped |
| MavenProject.RootIsTopDirectory | grind/python/disttest/mavenproject.py:88-90 | a module above all the others, as the project root is, becomes the root of the tree |
| MavenProject.ConstructWellFormed | grind/python/disttest/mavenproject.py:79-107 | the tree built from distinct normalised module paths is well formed: parents are modules, shorter than their children |
| MavenProject.Subtree | grind/python/disttest/mavenproject.py:140-143 | a module's tree holds exactly the module and every module below it |
| MavenProject.Children | grind/python/disttest/mavenproject.py:105-107 | a module's submodules are exactly the modules whose parent it is, without repeats |
| MavenProject.SubtreeStep | grind/python/disttest/mavenproject.py:140-143 | a module's tree is the module together with its children's trees |
| MavenProject.IncludeTreeIsSubtree | grind/python/disttest/mavenproject.py:140-143 | including a module's tree adds exactly the module and everything below it |
| MavenProject.SiblingsDisjoint | grind/python/disttest/mavenproject.py:105-107 | distinct children of one module have disjoint trees, and neither holds the module |
| MavenProject.ExcludeTreeRemovesSubtree | grind/python/disttest/mavenproject.py:115-118 | removing a module's tree from a set holding all of it succeeds and removes exactly that tree |
| MavenProject.ExcludeEachRemovesSubtrees | grind/python/disttest/mavenproject.py:117-118 | removing the trees of disjoint children in turn removes exactly their union |
| MavenProject.RemoveFirst | grind/python/disttest/mavenproject.py:133 | `list.remove` fails exactly when the item is absent, and otherwise drops one element |
| MavenProject.IncludeCheckAsWritten | grind/python/disttest/mavenproject.py:129-135 | as written, the check passes exactly when the number of named modules equals the number of names |
| MavenProject.IncludeCheck | grind/python/disttest/mavenproject.py:127-135 | the intended check passes exactly when every name is carried by some module, and otherwise reports exactly the names no module carries |
| MavenProject.DuplicateNameMasksMissing | grind/python/disttest/mavenproject.py:129-135 | two modules named `a` hide a name `b` that no module carries: the written check passes where the intended check reports `b` |
| MavenProject.IncludeCheckAgrees | grind/python/disttest/mavenproject.py:129-135 | with distinct names, each carried by at most one module, the written check reports exactly the missing names, like the intended check |
| MavenProject.CountsAgree | grind/python/disttest/mavenproject.py:131 | with those assumptions, the counts agree exactly when no name is missing |
| MavenProject.MismatchReportsMissing | grind/python/disttest/mavenproject.py:132-135 | removing the matched names one by one leaves exactly the missing names, in order |
| MavenProject.RemoveEachFilters | grind/python/disttest/mavenproject.py:132-133 | removing distinct members of a list without repeats leaves the other elements in order |
| MavenProject.AllModules | grind/python/disttest/mavenproject.py:123-124 | the set of modules holds exactly the modules |
| MavenProject.IncludedModules | grind/python/disttest/mavenproject.py:120-143 | without a list every module is included; with a list the count check as written raises exactly when the number of modules carrying a listed name differs from the number of names, and otherwise the included modules are exactly the named ones and everything below them |
| MavenProject.IncludedModulesReportsMissing | grind/python/disttest/mavenproject.py:129-138 | with distinct module paths, distinct names and unique module names, the inclusion fails exactly when some listed name has no module, and its error names the missing ones |
| MavenProject.ExcludedModulesAsWritten | grind/python/disttest/mavenproject.py:109-118 | without a list nothing is excluded; the only error is the `KeyError` of `set.remove` |
| MavenProject.ExcludedModules | grind/python/disttest/mavenproject.py:109-118 | the intended exclusion keeps exactly the included modules not at or below a listed module |
| MavenProject.ExcludeAgrees | grind/python/disttest/mavenproject.py:109-118 | when no listed module lies below another, the written exclusion succeeds in every iteration order and removes exactly the listed modules' trees |
| MavenProject.SelectedTrees | grind/python/disttest/mavenproject.py:111-113 | the trees of the listed included modules are exactly what lies at or below a listed module |
| MavenProject.ExcludeAllRemovesSubtrees | grind/python/disttest/mavenproject.py:112-113 | removing disjoint trees in turn removes exactly their union |
| MavenProject.NestedExcludeFails | grind/python/disttest/mavenproject.py:111-118 | with modules `/p`, `/p/a`, `/p/a/b` all included and `a`, `b` excluded, both iteration orders of the selected set raise `KeyError` |
| MavenProject.NestedIntended | grind/python/disttest/mavenproject.py:109-118 | the intended exclusion of the same example keeps only `/p` |
| MavenProject.ClassifyJar | grind/python/disttest/mavenproject.py:186-194 | a file is a test artifact exactly when it is a `-test-sources.jar` or `-tests.jar` of an included module, and a source artifact exactly when it is any other `.jar` that is not a `-sources.jar` or `-javadoc.jar` |
| MavenProject.SourceArtifactIsPlainJar | grind/python/disttest/mavenproject.py:189-194 | a source artifact is never a test jar and is filed alike for included and excluded modules |
| MavenProject.TestSourcesAreSources | grind/python/disttest/mavenproject.py:189-193 | a `-test-sources.jar` also ends in `-sources.jar`, so only the test check can file it |
| MavenProject.ModuleArtifacts | grind/python/disttest/mavenproject.py:182-194 | a module without a `target` directory has no artifacts and an excluded module no test artifacts; otherwise the artifacts are exactly the entries filed as test or source jars, joined to the `target` directory, one per entry, each with its suffix |
| MavenProject.ArtifactsIn | grind/python/disttest/mavenproject.py:186-194 | the paths under `target` of exactly the entries filed as one kind, one per entry |
| MavenProject.NoTestArtifacts | grind/python/disttest/mavenproject.py:190-191 | an excluded module files no entry as a test artifact |
| MavenProject.SuffixesKept | grind/python/disttest/mavenproject.py:187-194 | joining an entry to the target directory keeps the suffix it was filed by |
| MavenProject.PotentialTestClassName | grind/python/disttest/mavenproject.py:223-239 | a class file is accepted exactly when its base name has no `$`, ends in `.class`, and its stem starts with `Test` or ends with `Test` or `TestCase` |
| MavenProject.StemForms | grind/python/disttest/mavenproject.py:234-237 | the stem tests are the same tests on the whole name with `.class` added |
| MavenProject.TestPrefixLong | grind/python/disttest/mavenproject.py:234-235 | the `.class` suffix never overlaps a `Test` prefix |
| MavenProject.MatchesAny | grind/python/disttest/mavenproject.py:256-262 | the include filter accepts exactly when some pattern matches the class name |
| MavenProject.Chain | grind/python/disttest/mavenproject.py:66-75 | the chain ends with the name filter and the no-abstract filter; an include filter comes right before them and an exclude filter first |
| MavenProject.AcceptsAll | grind/python/disttest/mavenproject.py:175-176 | a class passes the chain exactly when every filter accepts it |
| MavenProject.ApplyChainKeepsAccepted | grind/python/disttest/mavenproject.py:175-176 | filtering in turn keeps exactly the classes every filter accepts, in their original order |
| MavenProject.KeptClasses | grind/python/disttest/mavenproject.py:170-178 | a class is kept exactly when its name has the default test form, it is concrete, some include pattern matches when there are any, and no exclude pattern matches when there are any: exclusion wins |
| MavenProject.SamePatternsKeepNothing | grind/python/disttest/mavenproject.py:247-267 | the same patterns given to both include and exclude keep nothing |
| LegacyMavenProject.Modules | python/disttest/mavenproject.py:24-26 | a path is a module exactly when the walk visits it as a directory holding both `pom.xml` and a `target` directory |
| LegacyMavenProject.TestClassBaseName | python/disttest/mavenproject.py:48-63 | the legacy name filter accepts exactly the names that match the default Surefire pattern and that the later package's reordered filter accepts |
| LegacyMavenProject.ConcreteClass | python/disttest/mavenproject.py:65-68 | a path without the `.class` suffix raises; otherwise the filter raises exactly when loading the class file fails, and it keeps a class only when the header's flags say neither interface nor abstract |
| LegacyMavenProject.Accept | python/disttest/mavenproject.py:44-68 | only the classfile filter can raise |
| LegacyMavenProject.FilterWith | python/disttest/mavenproject.py:35 | one filter pass succeeds exactly when no element raises, and then keeps the accepted elements in order; a failure is the error of some element |
| LegacyMavenProject.ApplyFilters | python/disttest/mavenproject.py:34-35 | what survives the chain is exactly what was in the input and is accepted by every filter |
| LegacyMavenProject.NoClassfileNoFailure | python/disttest/mavenproject.py:44-63 | a chain without the classfile filter never raises |
| LegacyMavenProject.FiltersKeep | python/disttest/mavenproject.py:11 | the default chain keeps exactly the files with a test-class name whose header says concrete, and raises exactly when such a named file fails to load, with that file's error |
| LegacyMavenProject.ChainOrder | python/disttest/mavenproject.py:11 | the file and name filters act first, as one filter, before the classfile filter |
| LegacyMavenProject.KeptClass | python/disttest/mavenproject.py:44-69 | a kept path is a file whose name ends in `.class` |
| LegacyMavenProject.SurefireIsClass | python/disttest/mavenproject.py:48-62 | a name of the default test forms ends in `.class` |
| LegacyMavenProject.NamedClassSuffix | python/disttest/mavenproject.py:52-53 | a name the test-name filter accepts ends with `.class`, so the classfile filter never sees any other name |
| LegacyMavenProject.JoinEach | python/disttest/mavenproject.py:33 | each directory entry is joined to its directory, one for one |
| LegacyMavenProject.TargetClasses | python/disttest/mavenproject.py:31-35 | walking a target directory succeeds exactly when every directory's filter chain succeeds, and records exactly the walked paths accepted by every filter |
| LegacyMavenProject.TargetClassesAsWritten | python/disttest/mavenproject.py:37-38 | recording `os.path.join(root, f)` fails exactly when the intended version fails, and records as many paths |
| LegacyMavenProject.AbsoluteRootsAgree | python/disttest/mavenproject.py:31-38 | under absolute directories the doubled join records the same paths as the intended one |
| LegacyMavenProject.RelativeRootDoubles | python/disttest/mavenproject.py:37-38 | under a relative directory the doubled join repeats the directory and changes the path |
| LegacyMavenProject.DoubledJoinExample | python/disttest/mavenproject.py:31-38 | a walk of the relative directory `p/target` records `p/target/TestA.class` as intended but `p/target/p/target/TestA.class` as written |
| LegacyMavenProject.Collect | python/disttest/mavenproject.py:28-38 | filling the map module by module succeeds exactly when every module succeeds; the map's keys are the modules and each maps to its own classes |
| LegacyMavenProject.Walk | python/disttest/mavenproject.py:22-38 | the walk as written has the walked modules as keys, each mapped to what the doubled join records for its `target` tree; it fails exactly when some module's target walk fails |
| LegacyMavenProject.IntendedWalk | python/disttest/mavenproject.py:22-38 | with the single join, a successful walk has the walked modules as keys and only accepted classes as values, and fails exactly when some module's target walk fails |
| LegacyMavenProject.CollectAgrees | python/disttest/mavenproject.py:28-38 | filling the map with two per-module walks that agree on every module gives the same map |
| LegacyMavenProject.AbsoluteWalkAgrees | python/disttest/mavenproject.py:22-38 | under an absolute root, with a walk that yields absolute directories, the walk as written equals the single-join walk |
| LegacyMavenProject.Project | python/disttest/mavenproject.py:8-12 | the project's keys are the walked modules, each mapped to what the as-written walk with the three filters records; it fails exactly when some module's walk fails |
| LegacyMavenProject.ProjectKeepsClasses | python/disttest/mavenproject.py:8-38 | under an absolute root, a module records exactly the files walked below its `target` that have a test-class name and whose header says concrete |
| LegacyMavenProject.AcceptedIsKept | python/disttest/mavenproject.py:11 | a path all three filters accept is one the chain keeps |
| Enumerators.DefaultWalkSucceeds | python/disttest/enumerators.py:38 | the default chain reads no class file, so the enumerator's walk never raises |
| Enumerators.Create | python/disttest/enumerators.py:35-39 | the enumerator keeps its directory and the default chain; its keys are the walked modules, each mapped to what the as-written walk with the default chain records |
| Enumerators.CreateKeepsTestFiles | python/disttest/enumerators.py:35-39 | under an absolute directory, a module records exactly the files walked below its `target` whose name follows the test-class pattern |
| Enumerators.DefaultAccepted | python/disttest/enumerators.py:38 | the default chain accepts exactly the files with a test-class name |
| Enumerators.AddFilter | python/disttest/enumerators.py:41-42 | the filter is appended to the chain and the recorded classes do not change; adding the classfile filter to the default chain gives the legacy project's chain |
| Classfile.SplitAll | python/disttest/classfile.py:52-67 | splitting always yields at least one component |
| Classfile.SplitAllJoined | python/disttest/classfile.py:52-67 | splitting a relative path made of non-empty, slash-free components gives those components back, in order |
| Classfile.SplitJoined | python/disttest/classfile.py:56 | one split of a slash-joined relative path separates the last component from the rest |
| Classfile.FirstClassesDir | python/disttest/classfile.py:39-42 | the search finds the first `classes` or `test-classes` component, or reports that there is none |
| Classfile.QualifiedName | python/disttest/classfile.py:33-50 | naming fails, with the package error, exactly when no directory of the path is `classes` or `test-classes` |
| Classfile.QualifiedNameOfLayout | python/disttest/classfile.py:33-50 | a class file at `dirs/classes/pkg.../Name.class` is named `pkg...Name`, and with no package directories the name is `.Name` |
| Classfile.BasenameOfClassPath | python/disttest/classfile.py:46-47 | a path ending in `.class` has a base name ending in `.class` |
| Classfile.U2 | python/disttest/classfile.py:145 | a big-endian u2 reads exactly when two bytes remain, and is below 2^16 |
| Classfile.U4 | python/disttest/classfile.py:141 | a big-endian u4 reads exactly when four bytes remain |
| Classfile.KindOfTagTable | python/disttest/classfile.py:69-84 | exactly the fourteen tags of Table 4.3 name a constant kind; tag 1 is Utf8, 5 is Long and 6 is Double |
| Classfile.TagOf | python/disttest/classfile.py:69-84 | the tag written for a kind reads back as that kind |
| Classfile.SkipEntry | python/disttest/classfile.py:114-129 | skipping one entry moves forward and occupies one or two pool indices; an unknown tag byte is an error |
| Classfile.SkipConstants | python/disttest/classfile.py:104-129 | skipping the pool never moves backwards |
| Classfile.SkipOne | python/disttest/classfile.py:114-129 | skipping a written entry lands right after its bytes, occupying two indices for Long and Double and one otherwise |
| Classfile.SkipEncodedPool | python/disttest/classfile.py:111-129 | skipping a written pool whose entries occupy the remaining indices lands exactly at its end |
| Classfile.UnknownTagRejected | python/disttest/classfile.py:114-115 | a tag byte outside Table 4.3 where an entry is expected makes the skip fail with that tag |
| Classfile.Parse | python/disttest/classfile.py:131-150 | a parsed header comes from a file of at least twelve bytes that starts with the magic number, carries the versions and pool count read from their offsets, and flags below 2^16; a wrong magic number fails |
| Classfile.ParseEncodeHeader | python/disttest/classfile.py:131-150 | reading a written header gives back its versions, its pool count (one more than the indices its entries occupy) and its access flags |
| Classfile.Load | python/disttest/classfile.py:23-31 | a path without `.class` fails first, then a path with no classes directory; a loaded class carries the path's qualified name and the parsed header |
| Classfile.AccessFlagExamples | python/disttest/classfile.py:155-159 | the flags javac writes for an interface read as interface and abstract, an abstract class as abstract only, and a plain class as neither |
| MergeXunit.PlusAssoc | grind/python/disttest/merge_xunit.py:97-101 | adding counters report by report does not depend on grouping |
| MergeXunit.IntAttribute | grind/python/disttest/merge_xunit.py:81-83 | an absent counter counts 0; a present one reads exactly when it parses as a decimal integer, and otherwise raises ValueError |
| MergeXunit.SkippedAsWritten | grind/python/disttest/merge_xunit.py:85 | the first report's `skipped` has no default, so an absent attribute raises TypeError; a present one reads with base 0, its value being the base-0 reading and an unreadable one raising ValueError |
| MergeXunit.SkippedBase0Values | grind/python/disttest/merge_xunit.py:81-85 | a plain decimal count reads as itself, but `010` reads 8 where the other counters read 10, and `0x10` reads 16 where the other counters raise ValueError |
| MergeXunit.ReadSuite | grind/python/disttest/merge_xunit.py:97-101 | reading a report's counters finishes exactly when all five read, and then adds them; a counter that raises stops the reading with `skipped` not yet added, and an unreadable `errors` adds nothing |
| MergeXunit.FlattenUpdate | grind/python/disttest/merge_xunit.py:150 | replacing one group's cases changes the merged cases by exactly those cases |
| MergeXunit.AddCase | grind/python/disttest/merge_xunit.py:104-105 | grouping a case by name adds exactly that case to the grouped cases |
| MergeXunit.AddCaseKeepsWellFormed | grind/python/disttest/merge_xunit.py:104-105 | after a case is added, group names stay distinct and every case sits in the group of its own name |
| MergeXunit.AddCases | grind/python/disttest/merge_xunit.py:103-105 | grouping a report's cases adds exactly those cases |
| MergeXunit.AddCasesKeepsWellFormed | grind/python/disttest/merge_xunit.py:103-105 | grouping many cases keeps the groups well formed |
| MergeXunit.ToMerge | grind/python/disttest/merge_xunit.py:87 | the files merged in are exactly the inputs other than the first file's name |
| MergeXunit.MergeFile | grind/python/disttest/merge_xunit.py:90-107 | a report that does not parse, or has no element root, changes nothing; a fully read report adds its counters and exactly its `testcase` elements; one that stops partway adds no case |
| MergeXunit.MergeFiles | grind/python/disttest/merge_xunit.py:90-107 | the loop keeps the groups well formed |
| MergeXunit.MergeFilesSums | grind/python/disttest/merge_xunit.py:90-107 | when every report reads, the loop adds up all their counters |
| MergeXunit.MergeFilesCases | grind/python/disttest/merge_xunit.py:90-107 | when every report reads, the loop collects exactly all their cases |
| MergeXunit.Debit | grind/python/disttest/merge_xunit.py:140-149 | a dropped case's debit raises exactly when some element child's `time` does not read; otherwise it counts one test per element child, one error per `<error>` and one failure per `<failure>`, and never debits `skipped` |
| MergeXunit.FilterCases | grind/python/disttest/merge_xunit.py:133-150 | filtering a mixed group keeps exactly the accepted cases, in order, and debits no more errors and failures than tests |
| MergeXunit.FilterCasesDebits | grind/python/disttest/merge_xunit.py:133-149 | when only failed cases are dropped, `tests` loses at least one per dropped case |
| MergeXunit.FlakyGroup | grind/python/disttest/merge_xunit.py:111-150 | a group whose attempts all failed or all passed passes through unchanged with no debit; a mixed group keeps its name and only the accepted cases |
| MergeXunit.IgnoreFlaky | grind/python/disttest/merge_xunit.py:110-150 | the flaky pass shapes every group as its own classification says, debits no skipped tests, and raises only ValueError |
| MergeXunit.FlakyOutcomeCons | grind/python/disttest/merge_xunit.py:111-150 | the outcome of the first group and of the rest make the outcome of the whole pass |
| MergeXunit.PassingCasesKept | grind/python/disttest/merge_xunit.py:109-150 | with the intended rule the flaky pass never drops a passing attempt |
| MergeXunit.DroppedAttemptsDebited | grind/python/disttest/merge_xunit.py:140-150 | with the intended rule `tests` loses at least one per dropped attempt |
| MergeXunit.WhitespacePassDropped | grind/python/disttest/merge_xunit.py:135-150 | the as-written rule drops a passing attempt that carries whitespace text, so both attempts of a flaky test vanish while the counters lose only the failed one; the intended rule keeps the passing attempt |
| MergeXunit.WriteBack | grind/python/disttest/merge_xunit.py:157-161 | each counter attribute the suite already has is overwritten with the counter's value; no attribute is added and the children stay |
| MergeXunit.WrittenCounterReads | grind/python/disttest/merge_xunit.py:157-161 | a written counter reads back as the number it was set to |
| MergeXunit.Output | grind/python/disttest/merge_xunit.py:152-161 | the merged cases are appended after the first suite's own children, and the suite keeps its tag and attribute names |
| MergeXunit.MergeInto | grind/python/disttest/merge_xunit.py:89-161 | the merged suite keeps its tag, its attribute names and its own children first; without `ignore_flaky` it never fails, and the only failure is ValueError |
| MergeXunit.FirstCounters | grind/python/disttest/merge_xunit.py:81-85 | the first suite's counters read exactly when all five do |
| MergeXunit.MergeSuite | grind/python/disttest/merge_xunit.py:81-161 | a first suite whose counters do not all read ends the merge in failure; a successful merge keeps the suite's tag, attribute names and children |
| MergeXunit.MergeWith | grind/python/disttest/merge_xunit.py:69-79 | an empty list merges to nothing; a first report that does not parse raises a parse error and one whose root is text raises AttributeError |
| MergeXunit.Merge | grind/python/disttest/merge_xunit.py:59-164 | the merge with the intended `skipped` default and flaky filter is the merge of its first report's element root |
| MergeXunit.MergeIntoPlain | grind/python/disttest/merge_xunit.py:90-161 | without `ignore_flaky` nothing is dropped: the suite receives the loop's counters and every grouped case |
| MergeXunit.MergeSums | grind/python/disttest/merge_xunit.py:59-161 | without `ignore_flaky`, when every report reads, each counter the first suite carries becomes the sum over all reports |
| MergeXunit.MergeCollectsCases | grind/python/disttest/merge_xunit.py:87-155 | without `ignore_flaky`, when every report reads, the first suite keeps its children and gains exactly the other reports' cases |
| MergeXunit.MissingSkippedRaises | grind/python/disttest/merge_xunit.py:85 | as written, a first report missing only `skipped` ends the merge with TypeError; with the default 0 it counts no skipped tests and the merge goes on |
| LegacyMergeXunit.RequiredInt | python/disttest/merge_xunit.py:65-67 | a counter without a default raises TypeError when absent, and otherwise reads as in the later code |
| LegacyMergeXunit.RequiredTime | python/disttest/merge_xunit.py:68 | the time reads exactly when present and a float; an absent time raises AttributeError |
| LegacyMergeXunit.ReadSuite | python/disttest/merge_xunit.py:78-82 | a report's counters are added exactly when all five read; one that raises stops the reading before `skipped` is added |
| LegacyMergeXunit.MergeFile | python/disttest/merge_xunit.py:72-87 | a report that does not parse, or has no element root, changes nothing; a fully read report adds its counters and appends its `testcase` elements; one that stops partway adds none |
| LegacyMergeXunit.MergeFiles | python/disttest/merge_xunit.py:72-87 | the loop only ever appends cases |
| LegacyMergeXunit.ReadableAgrees | python/disttest/merge_xunit.py:78-82 | a report the legacy code reads completely, the later code reads to the same counters |
| LegacyMergeXunit.MergeFilesSums | python/disttest/merge_xunit.py:72-87 | when every report reads, the loop sums their counters as the later code does and appends all their cases in file order |
| LegacyMergeXunit.Merge | python/disttest/merge_xunit.py:52-95 | an empty list merges to nothing; a first report that does not parse, has a text root or lacks a counter fails |
| LegacyMergeXunit.MergeAllReadable | python/disttest/merge_xunit.py:52-95 | when every report reads, the legacy merge writes the totals back and appends every other report's cases in file order |
| LegacyMergeXunit.LegacyAgrees | python/disttest/merge_xunit.py:52-95 | when every report reads, the legacy merge and the later one without `ignore_flaky` write the same attributes and the same cases, in a different order |
| LegacyMergeXunit.MissingSkippedPartial | python/disttest/merge_xunit.py:78-87 | a later report lacking only `skipped` has its other counters added but none of its cases, where the later code adds it whole with a skipped count of 0 |
| FailureSummary.ConsumeRest | grind/python/disttest/parse_test_failure.py:26-28 | every remaining line is returned in order, and nothing is left |
| FailureSummary.ConsumeUntil | grind/python/disttest/parse_test_failure.py:30-41 | the lines taken are a prefix of the input that `end_re` matches nowhere; when a match ends the scan, the matching line is consumed and dropped and the rest is left; without one every line is taken |
| FailureSummary.ConsumeUntilSplits | grind/python/disttest/parse_test_failure.py:30-41 | what is taken, the matching line and what is left make up the input; without a match everything is taken |
| FailureSummary.Visit | grind/python/disttest/parse_test_failure.py:60-76 | a case of another name changes nothing; a matching case sets `stdout` and `stderr` from its children, and sets the message and stack trace only when it has an error or a failure |
| FailureSummary.VisitAllLast | grind/python/disttest/parse_test_failure.py:59-76 | over all cases, `stdout` and `stderr` come from the last matching case and the message and stack trace from the last matching case with an error or failure; whatever no case provides keeps its starting value |
| FailureSummary.Suite | grind/python/disttest/parse_test_failure.py:55-58 | the suite is the root when the root is a `testsuite`, else the root's first `testsuite` child |
| FailureSummary.SuiteCases | grind/python/disttest/parse_test_failure.py:59-60 | the cases visited are `testcase` elements, and there are none without a suite |
| FailureSummary.Extract | grind/python/disttest/parse_test_failure.py:46-78 | a log that does not parse raises; a name without exactly one `#` raises ValueError; otherwise the summary is the visit of the suite's cases with the part after `#` |
| FailureSummary.ExtractSelects | grind/python/disttest/parse_test_failure.py:46-78 | with no case of that name the summary is all None; otherwise the last matching case decides `stdout` and `stderr`, and the last matching case with an error or failure decides the message and stack trace |
| FailureSummary.FailureOverridesError | grind/python/disttest/parse_test_failure.py:63-70 | a case with both an error and a failure reports the failure's type and text |
| FailureSummary.SplitName | grind/python/disttest/parse_test_failure.py:54 | the name splits into exactly two parts exactly when it holds one `#`: the suite before it and the case after it |
| Packager.Eq | grind/python/disttest/packager.py:52-64 | two manifests are equal exactly when both carry the four identifying attributes with equal values; anything that is not a manifest is unequal |
| Packager.Ne | grind/python/disttest/packager.py:66-67 | inequality holds exactly when the other is not a manifest, either lacks an identifying attribute, or one of the four differs |
| Packager.EqProperties | grind/python/disttest/packager.py:52-64 | equality is symmetric, holds of a manifest with itself exactly when it carries the four attributes, ignores the commit hash and timestamp, and breaks on a different branch |
| Packager.Read | grind/python/disttest/packager.py:73-78 | a manifest is read exactly when the file exists, and is what the file holds |
| Packager.Stale | grind/python/disttest/packager.py:303-309 | the cache is stale when there is no cached manifest or it is not equal to the current one |
| Packager.RegenerateIfNecessary | grind/python/disttest/packager.py:303-322 | the cache is regenerated exactly when stale, the old directory is removed only when stale and present, and the current manifest is written exactly when regenerating |
| Packager.RegenerateSettles | grind/python/disttest/packager.py:303-322 | once a manifest with the four attributes is written, the next run of the same project finds the cache fresh and does nothing; a manifest lacking one of them regenerates on every run |
| Packager.PrettyLines | grind/python/disttest/packager.py:145-160 | a timestamp of None raises AttributeError while the lines are collected; otherwise a root of None raises TypeError at the join; otherwise the listing is the root (or the placeholder) followed by one tab-indented line per attribute present, the hash last |
| Packager.Details | grind/python/disttest/packager.py:151-158 | there is one tab-indented detail line per attribute present, the hash line last |
| Packager.Detail | grind/python/disttest/packager.py:151-158 | an attribute the manifest has gives exactly one `\t<key>: <text>` line, and a missing one gives none |
| Packager.PrettyStr | grind/python/disttest/packager.py:145-160 | the listing succeeds exactly when its lines do, and is those lines joined by newlines; a timestamp of None raises AttributeError, and otherwise a root of None raises TypeError |
| Packager.PrettyStrStarts | grind/python/disttest/packager.py:148-150 | the listing starts with the project root, or with the placeholder when the manifest has none |
| Packager.UnzipCmdRelative | grind/python/disttest/packager.py:409-414 | the command is `unzip -qq -n <jar> -d <dest>` where the jar's relative path, appended to the project root, names the jar, and the destination is relative unless the output directory is absolute |
| Packager.UnzipCmd | grind/python/disttest/packager.py:409-414 | every unzip command starts with `unzip -qq -n ` |
| Packager.Render | grind/python/disttest/packager.py:420-434 | a line starts with `unzip -qq -n ` exactly when it unzips a jar; a directory line is `mkdir -p <dir>` |
| Packager.UnpackScript | grind/python/disttest/packager.py:416-434 | the script is the interpreter line, `set -e`, one unzip into `test-classes` per test jar, one into `classes` per jar, then one `mkdir -p` per extra directory, in that order |
| Packager.ScriptText | grind/python/disttest/packager.py:436-441 | the file starts with the first rendered line and a newline |
| Packager.Rendered | grind/python/disttest/packager.py:436-441 | one rendered line per script line, in order |
| Packager.ScriptTextJoin | grind/python/disttest/packager.py:436-441 | the file is every rendered line in order, each followed by a newline: the lines joined by newlines, plus a final one |
| Packager.ScriptTextLines | grind/python/disttest/packager.py:436-441 | when no line holds a newline, splitting the file at newlines gives back every line and an empty remainder |
| Packager.UnpackScriptCommands | grind/python/disttest/packager.py:422-434 | after the two header lines, a line is an unzip command exactly when it comes from a jar |
| ResultServer.Status | infra/result_server.py:172-178 | a case's result code is between 0 and 3, odd exactly when it has an `<error>` child, and at least 2 exactly when it has a `<failure>` child |
| ResultServer.UploadNamedUnderTestDir | infra/result_server.py:61-63 | an uploaded report is named relative to the configured test directory, and relative to `/tmp` when none is configured |
| ResultServer.StatusNonZero | infra/result_server.py:172-178 | a result code is non-zero exactly when the case has an error or a failure |
| ResultServer.Insert | infra/result_server.py:170-195 | inserting succeeds exactly when the suite is named (or there are no cases) and every case is named, with one row per case; otherwise TypeError is raised at the first unnamed case, and the rows inserted before it stay |
| ResultServer.Populate | infra/result_server.py:163-195 | no report gives `Failure\n` and a root other than `testsuite` gives `Failure!\n`, both without rows; otherwise every `testcase` element is inserted |
| ResultServer.PopulateRows | infra/result_server.py:163-195 | a stored report has one row per case, named `suite#case`, carrying the request's fields, with a non-zero status exactly when the case failed or errored |
| ResultServer.RowNameSplits | infra/result_server.py:187 | a row's test name, made of two names without `#`, splits back into the suite and case names, so the failure summary looks up that case |
| ResultServer.ArchiveName | infra/result_server.py:215-217 | the archive name never starts with `/` |
| ResultServer.ArchiveNameIsRelpath | infra/result_server.py:215-217 | the stripping loop leaves the relative path as it is |
| ResultServer.CompressFile | infra/result_server.py:197-220 | a report over 200 MB is replaced by an archive holding only `_ARCHIVE_TOO_BIG_`; otherwise it is archived under its path relative to the test directory, a non-empty name not starting with `/` |
| ResultServer.IntOf | infra/result_server.py:286 | a missing counter raises TypeError; a present one reads exactly when it parses as an integer |
| ResultServer.ShowsFailures | infra/result_server.py:286 | the check reads the error count, and the failure count only when there are no errors; it holds exactly when either is non-zero |
| ResultServer.Store | infra/result_server.py:299 | a request without `revision` or `hostname` raises KeyError; otherwise the report is stored with the request's fields |
| ResultServer.AddResult | infra/result_server.py:267-299 | a request without `job_id` is refused; a local report that does not parse raises before anything is uploaded; anything uploaded is a local report stored under a fresh key |
| ResultServer.AddResultUploads | infra/result_server.py:276-294 | a parsed local report is uploaded exactly when it counts errors or failures, and then stored under the fresh key; a clean one is stored under the key `success` |
| ResultServer.FailingLocalReportUploaded | infra/result_server.py:286-291 | a failing local report within the size limit is uploaded as its archive, named relative to the test directory, under the fresh key, and stored under that key |
| ResultServer.AddResultByKey | infra/result_server.py:295-299 | a report fetched by key is stored under that key and nothing is uploaded; one that cannot be fetched gives `Failure\n` |
| ResultServer.SumsBounded | infra/result_server.py:399-402 | the two-day counts never exceed the weekly ones, and a test never fails more often than it runs when no row does |
| ResultServer.Summarize | infra/result_server.py:394-419 | a summary carries its test's name; its two-day counts are the sums over the rows under two days old, and its weekly counts add the older rows' sums to those |
| ResultServer.SumsRecent | infra/result_server.py:401-402 | summing over the last two days is summing the rows under two days old |
| ResultServer.SumsByAge | infra/result_server.py:399-402 | the weekly sums split into the sums over the rows under two days old and over the older rows |
| ResultServer.SumsAppend | infra/result_server.py:399-402 | the run and failure sums over concatenated rows are the sums over each part added |
| ResultServer.GroupBy | infra/result_server.py:394 | grouping makes maximal runs of consecutive rows with one test name, in order, and together they hold every row |
| ResultServer.Extend | infra/result_server.py:394 | a row goes into the first group when that group has its name, and otherwise opens a new group in front |
| ResultServer.GroupByDistinct | infra/result_server.py:381-394 | on rows in test-name order every group has a different name, so each test is summarised once |
| ResultServer.GroupByOrdered | infra/result_server.py:381-394 | on rows in test-name order the groups come in name order |
| ResultServer.Summaries | infra/result_server.py:399-419 | each group gives its test's summary, keyed by its weekly failures |
| ResultServer.AccumulateSorts | infra/result_server.py:414-421 | sorting after every append gives the same list as sorting once at the end |
| ResultServer.FlakyReportSortsOnce | infra/result_server.py:393-421 | the report loop gives the summaries sorted once |
| ResultServer.SortedSummaries | infra/result_server.py:421 | the sorted summaries are the same summaries ordered by weekly failures, largest first, with equal counts in their original order |
| ResultServer.FlakyReportOrdered | infra/result_server.py:373-421 | on rows in test-name order the flaky report is a permutation of the per-test summaries, lists each test once, ordered by weekly failures, largest first, with ties in name order, and every summary's two-day counts are within the weekly ones |
| ResultServer.DistinctTestNames | infra/result_server.py:421 | reordering summaries keeps their test names distinct |
| ResultServer.TiesByName | infra/result_server.py:421 | the stable sort by weekly failures leaves summaries of equal failures in name order |
| ResultServer.NewDateFlags | infra/result_server.py:333-336 | a row opens a new date exactly when its day differs from the previous row's |
| ResultServer.NewDates | infra/result_server.py:333-336 | the first row always opens a date |
| ResultServer.NewDateFlagsCount | infra/result_server.py:326-336 | on rows newest first, the page draws one date heading per distinct day, not counting the previous row's |
| ResultServer.NewDatesCount | infra/result_server.py:326-336 | with no previous row, the headings are exactly the distinct days |

## Left out

- HTTP and web plumbing are not modelled. This covers the CherryPy handlers, Jinja/HTML rendering and the `Authorize` tool (IP ranges, digest auth) in `infra/server.py` and `infra/result_server.py`. The handlers' decisions are modelled over parameters.
- MySQL, S3 and beanstalk access are parameters. Query results, fetched reports and upload keys are given; `uuid1()` is a given fresh key.
- Slave process control is not modelled: subprocess, select and kill timing, the fcntl cache-directory locks, SIGTERM handling and the metrics thread's concurrency. `metrics.py` only calls the Google Cloud Monitoring API.
- Floating-point values are not modelled. This covers success and failure percentages, sparkline percentages, the 0.7/0.3 duration average of `infra/dist_test.py`, `sizeof_fmt`, and the summed `time` attribute of merged reports.
- Datetime arithmetic is not modelled: `runtime`, submit and finish times, `_delta_us`. Dates in the recent-failures page are given as day numbers.
- Library semantics are oracles. fnmatch, glob2 and regular-expression matching are predicates given as parameters, except the leak-line pattern, which is modelled. XML is an abstract element/text tree, and JSON is record-level encode/decode.
- `python/disttest/enumerate.py` is not valid Python (line 24 `def PatternEnumerator(Enumerator)`, line 67 `!(`), so it has no behaviour to model.
- Scripts that mostly walk the file system or run subprocesses are not modelled: `python/disttest/packager.py`, `python/disttest/isolate.py`, `bin/grind.py`, `bin/parse_for_submit.py`, `generate_isolate.py`, `make_classpath.py`, `python/disttest/parse.py`, `grind/surefacade/make_java_facade.py`, `infra/file_path.py`, and `du` in `python/disttest/util.py`.
- `submit.py` and `infra/submit_results.py` are network clients and are not modelled.
- `TestHelloWorld.java` (class-path resource loading) and `TestFailSometimes.java` (randomness) are not modelled.
- The repository's test modules are not modelled; they only informed the properties.
- Other packager operations are not modelled: `Manifest.build_from_project` (git subprocesses), pickling in `Manifest.read`/`write` (the unpickled object is a parameter), the `CacheManager` listing and clearing, `_package_target_dirs`, `_package_maven_dependencies` and `get_relative_output_paths`.
- Other result-server pages are not modelled: `crawl_from_jobid`, `diagnose`, `download_log`, `list_failed_tests` and `test_drilldown` are SQL and HTML plumbing around the modelled rules.
- The `_get_in_files` and `_get_out_file` command-line helpers of the merge scripts, and the `quiet` flag's printing, are not modelled.
- `grind/python/disttest/classfile.py` is not part of this model. The later Maven project takes each class's qualified name and interface/abstract flags as given.
- MergeXunit.AddCase: Python 2 dictionary iteration order is unspecified. The model fixes it to first appearance, so the order of merged cases across groups is that choice; their multiset is what the contracts state.
- MergeXunit.WriteBack: the merged `time` is written as a given text, because float sums are not modelled. Whether a `time` attribute reads as a float is a parameter.
- LegacyMergeXunit.Merge: the merged `time` is likewise a given text.
- LegacySlave.Sample: reports the number of busy slots, not the floating-point share `sum / 30.0`, because floating point is not modelled. The share is that count divided by 30.
- ResultServer.Summarize: the sparkline is not modelled (floating-point percentages); only the run and failure sums are.
- Autoscale.Step: the GCE API calls, the statistics query and `time.sleep` are parameters. The step models one iteration of the loop.
- Config.Load: the file's sections are a given map, so the INI parsing of `ConfigParser` is not modelled.
- DistTest.FromJson: a present field whose JSON type a typed task cannot hold (a number for `description`, say) is refused with `WrongType`. The Python constructor would store any value, so that refusal is stricter than the source. The `MissingKey` failures match the source's `KeyError` exactly.
- DistTest.RequiredString: a present value that is not a string is refused, for the same reason.
- DistTest.OptionalInt: a present value that is not an integer is refused, for the same reason.
- LegacyDistTest.FromJson: a present non-string field is refused with `WrongType`, for the same reason.
- TaskServer.PrepareTask: a present isolate hash that is not a string is refused with `WrongType`. The source would format it into the task id.
- Client.FilePrefix: applies the character mapping only. `str` raising on a non-ASCII name is stated by `Client.SafeNameChecked`, and `Client.PlanFetch` uses the mapping.
- Client.PlanFetch: plans as if every name can be encoded. On a non-ASCII name the source raises `UnicodeEncodeError`, as `Client.SafeNameChecked` states.
- LegacyClient.SafeName: the character mapping only, without the `UnicodeEncodeError` on non-ASCII text.

## Findings

| source | as written | input that shows it | evidently intended | confidence | as-written member | corrected member |
|---|---|---|---|---|---|---|
| infra/slave.py:297-300 | a refused retry is reported with `sys.err.println`, and `sys` has no attribute `err` | the server answers `/retry_task` with a status other than `SUCCESS`: AttributeError, and the retry id is never put in the cache | report on standard error, then record the retry | high, not executed | Slave.RefusedRetryNotRecorded | Slave.SubmitRetryIntended |
| infra/slave.py:51-78 | a full `RetryCache` evicts with `OrderedDict.popitem()`, which removes the most recently inserted entry | a cache of size 2 holding `a` then `b`; `put(c)` evicts `b` | the oldest entry is evicted, as the class documentation says | high, not executed | Slave.PutAsWrittenEvictsNewest | Slave.PutEvictsOldest |
| dist_test.py:99-112 | after "server has gone away" the loop sets `self.db = None` and retries with `self.db.cursor()`, which raises `AttributeError` | the first query attempt fails with error 2006 and the second would succeed | reconnect and retry up to 3 attempts, as the later `infra/dist_test.py` does | high, not executed | LegacyDistTest.GoneAwayOnceCounterexample | DistTest.ExecuteQuerySucceeds |
| grind/python/disttest/mavenproject.py:129-135 | the missing-module check compares the number of matching modules with the number of names | modules `/p`, `/p/x/a`, `/p/y/a` with include names `a`, `b`: two modules match, so `b` is never reported missing | raise `ModuleNotFoundException` naming every name no module carries | medium, not executed | MavenProject.DuplicateNameMasksMissing | MavenProject.IncludeCheck |
| grind/python/disttest/mavenproject.py:109-118 | each listed module's tree is removed with `set.remove`, so a listed module below another listed one is removed twice | modules `/p`, `/p/a`, `/p/a/b` all included, excluding `a` and `b`: `KeyError` in either order | exclude every module at or below a listed one | high, not executed | MavenProject.NestedExcludeFails | MavenProject.ExcludedModules |
| python/disttest/mavenproject.py:33-38 | the recorded path is `os.path.join(root, f)` where `f` is already `os.path.join(root, name)` | a relative project root: `p/target/TestA.class` is recorded as `p/target/p/target/TestA.class` | record each kept path once, `root/name` | medium, not executed | LegacyMavenProject.DoubledJoinExample | LegacyMavenProject.AbsoluteRootsAgree |
| grind/python/disttest/merge_xunit.py:85 | `int(_safe_attribute(testsuite, 'skipped'), 0)` passes the default 0 as `int`'s base | a first report without a `skipped` attribute: `int(None, 0)` raises `TypeError` | `int(_safe_attribute(testsuite, 'skipped', 0))`, like the other counters | high, not executed | MergeXunit.MissingSkippedRaises | MergeXunit.MergeSums |
| grind/python/disttest/merge_xunit.py:117-150 | attempts are classified by element children, but a mixed group keeps only attempts with no child nodes at all, text included | a flaky test whose passing attempt holds whitespace text and whose other attempt has a `<failure>`: both attempts are dropped | keep every passing attempt, the same test the classification uses | high, not executed | MergeXunit.WhitespacePassDropped | MergeXunit.PassingCasesKept |

The slave records retries with the cache as written (`Slave.SubmitRetry` calls `Slave.PutAsWritten`, and raises on a refused retry), because that is what it runs; `Slave.Put` is the corrected cache, and `Slave.SubmitRetryEvictsNewest` shows the consequence for anti-affinity.
