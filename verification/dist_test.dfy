/** The shared library of the service (`infra/dist_test.py`): the task
    record exchanged between server and slaves, the group status computed
    over a task's attempts, the MySQL reconnect loop and the record written
    when a task finishes. */
module DistTest {
  import opened Wrappers
  import opened Strings
  import opened Seqs
  import J = Json

  /** A unit of work: one isolated test invocation, possibly a retry. */
  datatype Task = Task(
    jobId: string,
    taskId: string,
    isolateHash: string,
    description: string,
    timeout: int,
    attempt: int,
    maxRetries: int,
    artifactArchiveGlobs: seq<string>)

  datatype DecodeError = MissingKey(key: string) | WrongType(key: string)

  /** `Task.to_json`: all eight fields, under their wire names. */
  function ToJson(t: Task): (m: map<string, J.Value>)
    ensures m.Keys == {"job_id", "task_id", "isolate_hash", "description",
                       "timeout", "attempt", "max_retries", "artifact_archive_globs"}
  {
    map["job_id" := J.Str(t.jobId),
        "task_id" := J.Str(t.taskId),
        "isolate_hash" := J.Str(t.isolateHash),
        "description" := J.Str(t.description),
        "timeout" := J.Int(t.timeout),
        "attempt" := J.Int(t.attempt),
        "max_retries" := J.Int(t.maxRetries),
        "artifact_archive_globs" := J.Strings(t.artifactArchiveGlobs)]
  }

  /** A required string field: missing raises `KeyError`. */
  function RequiredString(m: map<string, J.Value>, key: string): (r: Result<string, DecodeError>)
    ensures key !in m ==> r == Failure(MissingKey(key))
    ensures r.Success? <==> key in m && m[key].Str?
    ensures r.Success? ==> m[key] == J.Str(r.value)
  {
    if key !in m then Failure(MissingKey(key))
    else if m[key].Str? then Success(m[key].s)
    else Failure(WrongType(key))
  }

  /** An optional integer field: `d.get(key, 0)`. */
  function OptionalInt(m: map<string, J.Value>, key: string): (r: Result<int, DecodeError>)
    ensures key !in m ==> r == Success(0)
    ensures key in m ==> (r.Success? <==> m[key].Int?)
    ensures key in m && r.Success? ==> m[key] == J.Int(r.value)
  {
    if key !in m then Success(0)
    else if m[key].Int? then Success(m[key].i)
    else Failure(WrongType(key))
  }

  /** `Task.from_json` on the parsed object: the four identifying fields are
      required, and the first one missing, in the order the constructor
      reads them, is the `KeyError`; the others default to 0 or the empty
      list. A present field whose JSON type the task cannot hold is
      refused. */
  function FromJson(m: map<string, J.Value>): (r: Result<Task, DecodeError>)
    ensures "job_id" !in m ==> r == Failure(MissingKey("job_id"))
    ensures "job_id" in m && "task_id" !in m ==> r == Failure(MissingKey("task_id"))
    ensures "job_id" in m && "task_id" in m && "isolate_hash" !in m ==> r == Failure(MissingKey("isolate_hash"))
    ensures "job_id" in m && "task_id" in m && "isolate_hash" in m && "description" !in m ==> r == Failure(MissingKey("description"))
    ensures r.Failure? && r.error.MissingKey? ==>
              !("job_id" in m && "task_id" in m && "isolate_hash" in m && "description" in m)
    ensures r.Success? ==> "job_id" in m && "task_id" in m && "isolate_hash" in m && "description" in m
    ensures r.Success? ==> m["job_id"] == J.Str(r.value.jobId) && m["task_id"] == J.Str(r.value.taskId)
    ensures r.Success? && "attempt" !in m ==> r.value.attempt == 0
    ensures r.Success? && "max_retries" !in m ==> r.value.maxRetries == 0
    ensures r.Success? && "timeout" !in m ==> r.value.timeout == 0
    ensures r.Success? && "artifact_archive_globs" !in m ==> r.value.artifactArchiveGlobs == []
  {
    if "job_id" !in m then Failure(MissingKey("job_id"))
    else if "task_id" !in m then Failure(MissingKey("task_id"))
    else if "isolate_hash" !in m then Failure(MissingKey("isolate_hash"))
    else if "description" !in m then Failure(MissingKey("description"))
    else FromTypedJson(m)
  }

  /** The fields of an object that has the four required keys. */
  function FromTypedJson(m: map<string, J.Value>): (r: Result<Task, DecodeError>)
    requires "job_id" in m && "task_id" in m && "isolate_hash" in m && "description" in m
    ensures r.Failure? ==> r.error.WrongType?
    ensures r.Success? ==> m["job_id"] == J.Str(r.value.jobId) && m["task_id"] == J.Str(r.value.taskId)
    ensures r.Success? ==> m["isolate_hash"] == J.Str(r.value.isolateHash) && m["description"] == J.Str(r.value.description)
    ensures r.Success? ==> if "attempt" in m then m["attempt"] == J.Int(r.value.attempt) else r.value.attempt == 0
    ensures r.Success? ==> if "max_retries" in m then m["max_retries"] == J.Int(r.value.maxRetries) else r.value.maxRetries == 0
    ensures r.Success? ==> if "timeout" in m then m["timeout"] == J.Int(r.value.timeout) else r.value.timeout == 0
    ensures r.Success? && "artifact_archive_globs" !in m ==> r.value.artifactArchiveGlobs == []
    ensures r.Success? && "artifact_archive_globs" in m ==> m["artifact_archive_globs"] == J.Strings(r.value.artifactArchiveGlobs)
  {
    var jobId :- RequiredString(m, "job_id");
    var taskId :- RequiredString(m, "task_id");
    var isolateHash :- RequiredString(m, "isolate_hash");
    var description :- RequiredString(m, "description");
    var timeout :- OptionalInt(m, "timeout");
    var attempt :- OptionalInt(m, "attempt");
    var maxRetries :- OptionalInt(m, "max_retries");
    var globs :-
      if "artifact_archive_globs" !in m then Success([])
      else if J.AsStrings(m["artifact_archive_globs"]).Some? then Success(J.AsStrings(m["artifact_archive_globs"]).value)
      else Failure(WrongType("artifact_archive_globs"));
    Success(Task(jobId, taskId, isolateHash, description, timeout, attempt, maxRetries, globs))
  }

  /** Serialising a task and reading it back gives the same task. */
  lemma FromJsonToJson(t: Task)
    ensures FromJson(ToJson(t)) == Success(t)
  {
    J.AsStringsOfStrings(t.artifactArchiveGlobs);
  }

  /** Reading an object and serialising the task keeps every field the
      object carried; extra keys are dropped and absent ones defaulted. */
  lemma ToJsonFromJson(m: map<string, J.Value>)
    requires FromJson(m).Success?
    ensures forall k :: k in m && k in ToJson(FromJson(m).value) ==> ToJson(FromJson(m).value)[k] == m[k]
  {
    var t := FromJson(m).value;
    if "artifact_archive_globs" in m {
      assert m["artifact_archive_globs"] == J.Strings(t.artifactArchiveGlobs);
    }
  }

  /** `get_retry_id`: identifies a task across all its attempts. */
  function RetryId(t: Task): (r: string)
    ensures r == t.jobId + "." + t.taskId
  {
    t.jobId + "." + t.taskId
  }

  /** Within one job the retry id tells tasks apart: two tasks of the same
      job share a retry id exactly when they have the same task id. */
  lemma RetryIdIdentifiesTask(t: Task, u: Task)
    requires t.jobId == u.jobId
    ensures RetryId(t) == RetryId(u) <==> t.taskId == u.taskId
  {
    if RetryId(t) == RetryId(u) {
      var p := t.jobId + ".";
      assert RetryId(t) == p + t.taskId && RetryId(u) == p + u.taskId;
      assert t.taskId == RetryId(t)[|p|..];
      assert u.taskId == RetryId(u)[|p|..];
    }
  }

  /** `get_id`: identifies one attempt of a task. */
  function AttemptId(t: Task): (r: string)
    ensures |RetryId(t)| + 1 < |r|
  {
    RetryId(t) + "." + IntToString(t.attempt)
  }

  /** The attempt id is the retry id, a dot, and text that parses back to
      the attempt number. */
  lemma AttemptIdParts(t: Task)
    ensures var r := AttemptId(t);
            r[..|RetryId(t)| + 1] == RetryId(t) + "." && ParseInt(r[|RetryId(t)| + 1..]) == Some(t.attempt)
  {
    var r := AttemptId(t);
    assert r[|RetryId(t)| + 1..] == IntToString(t.attempt);
    ParseIntOfIntToString(t.attempt);
  }

  /** Two attempts of one task share a retry id and differ in their id; the
      attempt number can be read back from the id's last component. */
  lemma AttemptIdDistinguishesAttempts(t: Task, attempt: int)
    ensures RetryId(t.(attempt := attempt)) == RetryId(t)
    ensures AttemptId(t.(attempt := attempt)) == AttemptId(t) <==> attempt == t.attempt
  {
    var u := t.(attempt := attempt);
    if AttemptId(u) == AttemptId(t) {
      var p := RetryId(t) + ".";
      assert AttemptId(u) == p + IntToString(attempt);
      assert AttemptId(t) == p + IntToString(t.attempt);
      assert IntToString(attempt) == AttemptId(u)[|p|..];
      assert IntToString(t.attempt) == AttemptId(t)[|p|..];
      ParseIntOfIntToString(attempt);
      ParseIntOfIntToString(t.attempt);
    }
  }

  /** `submit_task`'s default beanstalk priority, 2^31: lower values are
      reserved first. */
  const DefaultPriority: int := 2147483648

  /** One row of `dist_test_tasks`: an attempt of a task and, once finished,
      its exit status and the keys of its uploaded logs. */
  datatype TaskRow = TaskRow(
    taskId: string,
    attempt: int,
    maxRetries: int,
    description: string,
    status: Option<int>,
    stdoutKey: Option<string>,
    stderrKey: Option<string>,
    artifactArchiveKey: Option<string>)

  /** Finished with a non-zero status. A running row (`NULL` status) has
      not failed. */
  predicate IsFailed(t: TaskRow)
    ensures IsFailed(t) ==> t.status.Some? && !IsSucceeded(t)
    ensures t.status.Some? ==> IsFailed(t) || IsSucceeded(t)
  {
    t.status.Some? && t.status.value != 0
  }

  /** Finished with status 0. */
  predicate IsSucceeded(t: TaskRow)
    ensures IsSucceeded(t) ==> t.status.Some?
  {
    t.status == Some(0)
  }

  predicate HasRetriesRemaining(t: TaskRow) {
    t.attempt != t.maxRetries
  }

  /** The status of all attempts of one task. */
  datatype GroupStatus = GroupStatus(isFailed: bool, isFlaky: bool, isSucceeded: bool, isFinished: bool)

  /** `TaskGroup`: a group has failed when every attempt failed and one of
      them used the last retry; it is flaky when it failed with retries left
      or mixes a success with a failure; it has succeeded with any success;
      it is finished when it succeeded or failed for good. */
  function Classify(tasks: seq<TaskRow>): (g: GroupStatus)
    ensures g.isFailed <==>
      |tasks| > 0 && (forall i :: 0 <= i < |tasks| ==> IsFailed(tasks[i]))
      && exists i :: 0 <= i < |tasks| && !HasRetriesRemaining(tasks[i])
    ensures g.isSucceeded <==> exists i :: 0 <= i < |tasks| && IsSucceeded(tasks[i])
    ensures g.isFlaky <==>
      (|tasks| > 0 && (forall i :: 0 <= i < |tasks| ==> IsFailed(tasks[i]) && HasRetriesRemaining(tasks[i])))
      || ((exists i :: 0 <= i < |tasks| && IsSucceeded(tasks[i])) && exists i :: 0 <= i < |tasks| && IsFailed(tasks[i]))
    ensures g.isFinished <==> g.isSucceeded || g.isFailed
    ensures !(g.isFailed && g.isSucceeded)
  {
    var allFailed := All(tasks, IsFailed) && |tasks| > 0;
    var anyFailed := Any(tasks, IsFailed);
    var retriesRemaining := All(tasks, HasRetriesRemaining);
    var anySucceeded := Any(tasks, IsSucceeded);
    var isFailed := allFailed && !retriesRemaining;
    var isFlaky := if allFailed then retriesRemaining else anySucceeded && anyFailed;
    var isSucceeded := !allFailed && anySucceeded;
    var isFinished := anySucceeded || (allFailed && !retriesRemaining);
    GroupStatus(isFailed, isFlaky, isSucceeded, isFinished)
  }

  /** A group without attempts is neither failed, flaky, succeeded nor
      finished. */
  lemma EmptyGroup()
    ensures Classify([]) == GroupStatus(false, false, false, false)
  {
  }

  /** While any attempt is still running the group is finished only if
      another attempt succeeded. */
  lemma RunningGroupUnfinished(tasks: seq<TaskRow>, k: int)
    requires 0 <= k < |tasks| && tasks[k].status.None?
    ensures Classify(tasks).isFinished <==> exists i :: 0 <= i < |tasks| && IsSucceeded(tasks[i])
  {
    assert !IsFailed(tasks[k]);
  }

  /** A MySQL driver call: executed, or an `OperationalError` with a code. */
  datatype DbOutcome = Executed | OperationalError(code: int)

  const MaxQueryAttempts: nat := 3

  /** "MySQL server has gone away". */
  const ServerGoneAway: int := 2006

  /** How a query ended: the number of attempts made and the error raised,
      if any. */
  datatype QueryResult = QueryResult(attempts: nat, error: Option<int>)

  function ExecuteFrom(execute: nat -> DbOutcome, attemptNum: nat): (r: QueryResult)
    requires attemptNum < MaxQueryAttempts
    ensures attemptNum < r.attempts <= MaxQueryAttempts
    decreases MaxQueryAttempts - attemptNum
  {
    match execute(attemptNum)
    case Executed => QueryResult(attemptNum + 1, None)
    case OperationalError(code) =>
      if code == ServerGoneAway && attemptNum + 1 < MaxQueryAttempts then ExecuteFrom(execute, attemptNum + 1)
      else QueryResult(attemptNum + 1, Some(code))
  }

  /** `ResultsStore._execute_query`: each attempt takes a connection from
      `_connect_mysql` (a fresh one after the cached one was dropped);
      "server has gone away" is retried with a fresh connection up to three
      attempts in all, any other error is raised at once. `execute(i)` is
      the driver's answer to attempt `i`. */
  function ExecuteQuery(execute: nat -> DbOutcome): (r: QueryResult)
    ensures 1 <= r.attempts <= MaxQueryAttempts
    ensures forall j :: 0 <= j < r.attempts - 1 ==> execute(j) == OperationalError(ServerGoneAway)
    ensures r.error.None? <==> execute(r.attempts - 1) == Executed
    ensures r.error.Some? ==> execute(r.attempts - 1) == OperationalError(r.error.value)
    ensures r.error.Some? && r.attempts < MaxQueryAttempts ==> r.error.value != ServerGoneAway
  {
    ExecuteFrom(execute, 0)
  }

  /** Within three attempts the first successful one is returned: a query
      succeeds whenever every attempt before a successful one lost the
      server. */
  lemma ExecuteQuerySucceeds(execute: nat -> DbOutcome, k: nat)
    requires k < MaxQueryAttempts && execute(k) == Executed
    requires forall j :: 0 <= j < k ==> execute(j) == OperationalError(ServerGoneAway)
    ensures ExecuteQuery(execute) == QueryResult(k + 1, None)
  {
  }

  /** The first 100 characters: the abbreviation kept in the table. */
  function Abbrev(s: string): (a: string)
    ensures a <= s
    ensures |a| == if |s| < 100 then |s| else 100
  {
    if |s| <= 100 then s else s[..100]
  }

  /** A Python truth test on an optional string: present and non-empty. */
  predicate Truthy(s: Option<string>) {
    s.Some? && |s.value| > 0
  }

  /** The columns `mark_task_finished` writes and the uploads it makes. */
  datatype Finished = Finished(
    stdoutKey: Option<string>,
    stdoutAbbrev: string,
    stderrKey: Option<string>,
    stderrAbbrev: string,
    artifactArchiveKey: Option<string>,
    uploads: seq<(string, string)>)

  /** `ResultsStore.mark_task_finished`: non-empty logs are uploaded under
      `<id>.stdout` / `<id>.stderr` and abbreviated to 100 characters; an
      artifact archive is uploaded under `<id>-artifacts.zip`. */
  function MarkTaskFinished(t: Task, stdout: Option<string>, stderr: Option<string>, artifacts: Option<string>): (f: Finished)
    ensures f.stdoutKey.Some? <==> Truthy(stdout)
    ensures f.stderrKey.Some? <==> Truthy(stderr)
    ensures f.artifactArchiveKey.Some? <==> artifacts.Some?
    ensures Truthy(stdout) ==> f.stdoutKey.value == AttemptId(t) + ".stdout" && f.stdoutAbbrev == Abbrev(stdout.value)
    ensures !Truthy(stdout) ==> f.stdoutAbbrev == ""
    ensures Truthy(stderr) ==> f.stderrKey.value == AttemptId(t) + ".stderr" && f.stderrAbbrev == Abbrev(stderr.value)
    ensures !Truthy(stderr) ==> f.stderrAbbrev == ""
    ensures artifacts.Some? ==> f.artifactArchiveKey.value == AttemptId(t) + "-artifacts.zip"
    ensures forall u :: u in f.uploads <==>
      (Truthy(stdout) && u == (f.stdoutKey.value, stdout.value))
      || (Truthy(stderr) && u == (f.stderrKey.value, stderr.value))
      || (artifacts.Some? && u == (f.artifactArchiveKey.value, artifacts.value))
  {
    var id := AttemptId(t);
    var out := if Truthy(stdout) then [(id + ".stdout", stdout.value)] else [];
    var err := if Truthy(stderr) then [(id + ".stderr", stderr.value)] else [];
    var art := if artifacts.Some? then [(id + "-artifacts.zip", artifacts.value)] else [];
    Finished(
      if Truthy(stdout) then Some(id + ".stdout") else None,
      if Truthy(stdout) then Abbrev(stdout.value) else "",
      if Truthy(stderr) then Some(id + ".stderr") else None,
      if Truthy(stderr) then Abbrev(stderr.value) else "",
      if artifacts.Some? then Some(id + "-artifacts.zip") else None,
      out + err + art)
  }

  /** The three upload keys of one attempt never collide. */
  lemma FinishedKeysDistinct(t: Task, stdout: string, stderr: string, artifacts: string)
    ensures var f := MarkTaskFinished(t, Some(stdout), Some(stderr), Some(artifacts));
      f.artifactArchiveKey != f.stdoutKey && f.artifactArchiveKey != f.stderrKey
      && (|stdout| > 0 && |stderr| > 0 ==> f.stdoutKey != f.stderrKey)
  {
    var id := AttemptId(t);
    var a := id + "-artifacts.zip";
    var o := id + ".stdout";
    var e := id + ".stderr";
    assert a[|id|] == '-' && o[|id|] == '.' && e[|id|] == '.';
    assert |o| == |e| && o[|o| - 2] != e[|e| - 2];
  }
}
