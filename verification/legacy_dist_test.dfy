/** The first version of the shared library (`dist_test.py`): a three-field
    task, configuration read from the file with environment fallback, and a
    MySQL reconnect loop that drops its connection without opening a new
    one. */
module LegacyDistTest {
  import opened Wrappers
  import opened Config
  import J = Json
  import DistTest

  /** The first task record: no description, timeout, attempt or retries. */
  datatype Task = Task(jobId: string, taskId: string, isolateHash: string)

  function ToJson(t: Task): (m: map<string, J.Value>)
    ensures m.Keys == {"job_id", "task_id", "isolate_hash"}
  {
    map["job_id" := J.Str(t.jobId), "task_id" := J.Str(t.taskId), "isolate_hash" := J.Str(t.isolateHash)]
  }

  /** `Task(d)`: all three fields are required, and the first one missing
      is the `KeyError`; a present field that is not a string is
      refused. */
  function FromJson(m: map<string, J.Value>): (r: Result<Task, DistTest.DecodeError>)
    ensures "job_id" !in m ==> r == Failure(DistTest.MissingKey("job_id"))
    ensures "job_id" in m && "task_id" !in m ==> r == Failure(DistTest.MissingKey("task_id"))
    ensures "job_id" in m && "task_id" in m && "isolate_hash" !in m ==> r == Failure(DistTest.MissingKey("isolate_hash"))
    ensures r.Failure? && r.error.MissingKey? ==> !("job_id" in m && "task_id" in m && "isolate_hash" in m)
    ensures r.Success? <==> (forall k :: k in {"job_id", "task_id", "isolate_hash"} ==> k in m && m[k].Str?)
    ensures r.Success? ==> ToJson(r.value) == map k | k in m.Keys * {"job_id", "task_id", "isolate_hash"} :: m[k]
  {
    if "job_id" !in m then Failure(DistTest.MissingKey("job_id"))
    else if "task_id" !in m then Failure(DistTest.MissingKey("task_id"))
    else if "isolate_hash" !in m then Failure(DistTest.MissingKey("isolate_hash"))
    else
      var jobId :- DistTest.RequiredString(m, "job_id");
      var taskId :- DistTest.RequiredString(m, "task_id");
      var isolateHash :- DistTest.RequiredString(m, "isolate_hash");
      Success(Task(jobId, taskId, isolateHash))
  }

  lemma FromJsonToJson(t: Task)
    ensures FromJson(ToJson(t)) == Success(t)
  {
  }

  /** `_get_with_env_default`: the file's value wins; the environment is
      consulted only when the file lacks the option. */
  function GetWithEnvDefault(env: map<string, string>, f: IniFile, s: Setting): (r: Option<string>)
    ensures HasOption(f, s.section, s.option) ==> r == Some(Get(f, s.section, s.option).value)
    ensures !HasOption(f, s.section, s.option) ==> (r.Some? <==> s.envKey in env)
    ensures !HasOption(f, s.section, s.option) && s.envKey in env ==> r == Some(env[s.envKey])
  {
    if HasOption(f, s.section, s.option) then Some(Get(f, s.section, s.option).value)
    else if s.envKey in env then Some(env[s.envKey])
    else None
  }

  /** The two lookups differ only in precedence: they agree whenever the
      file and the environment do not both supply a value. */
  lemma EnvDefaultVersusOverride(env: map<string, string>, f: IniFile, s: Setting)
    ensures !(HasOption(f, s.section, s.option) && s.envKey in env) ==>
              GetWithEnvDefault(env, f, s) == GetWithEnvOverride(env, f, s)
    ensures HasOption(f, s.section, s.option) && s.envKey in env ==>
              GetWithEnvDefault(env, f, s) == Some(Get(f, s.section, s.option).value)
              && GetWithEnvOverride(env, f, s) == Some(env[s.envKey])
  {
  }

  /** How a legacy query ended; `NoConnection` is the `AttributeError`
      raised when the dropped connection is used. */
  datatype QueryError = Operational(code: int) | NoConnection

  datatype QueryResult = QueryResult(attempts: nat, error: Option<QueryError>, connected: bool)

  function ExecuteFromAsWritten(connected: bool, execute: nat -> DistTest.DbOutcome, attemptNum: nat): (r: QueryResult)
    requires attemptNum < DistTest.MaxQueryAttempts
    ensures r.attempts <= attemptNum + 1
    decreases DistTest.MaxQueryAttempts - attemptNum
  {
    if !connected then QueryResult(attemptNum, Some(NoConnection), false)
    else
      match execute(attemptNum)
      case Executed => QueryResult(attemptNum + 1, None, true)
      case OperationalError(code) =>
        if code == DistTest.ServerGoneAway && attemptNum + 1 < DistTest.MaxQueryAttempts then
          ExecuteFromAsWritten(false, execute, attemptNum + 1)
        else QueryResult(attemptNum + 1, Some(Operational(code)), true)
  }

  /** `ResultsStore._execute_query` as written: "server has gone away" sets
      the connection to `None` and loops, and the next attempt calls
      `cursor()` on `None`. The connection state persists across queries. */
  function ExecuteQueryAsWritten(connected: bool, execute: nat -> DistTest.DbOutcome): (r: QueryResult)
  {
    ExecuteFromAsWritten(connected, execute, 0)
  }

  /** As written the loop never reaches a second attempt: a lost server
      always ends in `NoConnection` and leaves the store disconnected, and a
      disconnected store fails every later query without executing it. */
  lemma {:induction false} AsWrittenNeverRetries(connected: bool, execute: nat -> DistTest.DbOutcome)
    ensures ExecuteQueryAsWritten(connected, execute).attempts <= 1
    ensures connected && execute(0) == DistTest.OperationalError(DistTest.ServerGoneAway) ==>
              ExecuteQueryAsWritten(connected, execute) == QueryResult(1, Some(NoConnection), false)
    ensures !connected ==> ExecuteQueryAsWritten(connected, execute) == QueryResult(0, Some(NoConnection), false)
  {
    if connected && execute(0) == DistTest.OperationalError(DistTest.ServerGoneAway) {
      assert ExecuteFromAsWritten(false, execute, 1) == QueryResult(1, Some(NoConnection), false);
    }
  }

  function GoneAwayOnce(i: nat): DistTest.DbOutcome {
    if i == 0 then DistTest.OperationalError(DistTest.ServerGoneAway) else DistTest.Executed
  }

  /** The server goes away once and is back for the next attempt: the legacy
      loop fails, the reconnecting loop succeeds on its second attempt. */
  lemma GoneAwayOnceCounterexample()
    ensures ExecuteQueryAsWritten(true, GoneAwayOnce).error == Some(NoConnection)
    ensures DistTest.ExecuteQuery(GoneAwayOnce) == DistTest.QueryResult(2, None)
  {
    AsWrittenNeverRetries(true, GoneAwayOnce);
    DistTest.ExecuteQuerySucceeds(GoneAwayOnce, 1);
  }

  /** The abbreviated logs the legacy `mark_task_finished` stores; slicing a
      missing log raises `TypeError`. */
  function MarkTaskFinished(stdout: Option<string>, stderr: Option<string>): (r: Option<(string, string)>)
    ensures r.Some? <==> stdout.Some? && stderr.Some?
    ensures r.Some? ==> r.value.0 == DistTest.Abbrev(stdout.value) && r.value.1 == DistTest.Abbrev(stderr.value)
  {
    if stdout.Some? && stderr.Some? then Some((DistTest.Abbrev(stdout.value), DistTest.Abbrev(stderr.value))) else None
  }
}
