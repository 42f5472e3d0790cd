/** The older task server (`server.py`): retries always at priority 1000,
    its own group rules in `_summarize_tasks`, and the row classes of
    `_render_tasks`. */
module LegacyServer {
  import opened Wrappers
  import opened Seqs
  import opened DistTest
  import TaskServer

  /** The retry priority of the older server. */
  const LegacyRetryPriority: int := 1000

  /** `retry_task`: the next attempt, queued at priority 1000, when retries
      are left; otherwise nothing. */
  function RetryTask(t: Task): (r: Option<(Task, int)>)
    ensures r.Some? <==> t.attempt < t.maxRetries
    ensures r.Some? ==> r.value.0.attempt == t.attempt + 1 && r.value.0.(attempt := t.attempt) == t
    ensures r.Some? ==> r.value.1 == LegacyRetryPriority
  {
    if t.attempt < t.maxRetries then Some((t.(attempt := t.attempt + 1), LegacyRetryPriority)) else None
  }

  /** The newer server retries exactly when the older one does; only the
      priority differs, and the newer one is never below the older one's. */
  lemma RetryAgreesWithNewerServer(t: Task)
    ensures RetryTask(t).Some? <==> TaskServer.RetryTask(t).Some?
    ensures RetryTask(t).Some? ==> RetryTask(t).value.0 == TaskServer.RetryTask(t).value.0
    ensures RetryTask(t).Some? ==> TaskServer.RetryTask(t).value.1 >= RetryTask(t).value.1
  {
  }

  /** The group flags of the older `_summarize_tasks`. */
  datatype LegacyGroup = LegacyGroup(failed: bool, succeeded: bool, timedout: bool, flaky: bool)

  predicate IsTimedOut(t: TaskRow) { t.status == Some(-9) }

  /** A group failed when every attempt failed, succeeded when any attempt
      succeeded, timed out when every attempt timed out, and is flaky when
      it succeeded after some failure. */
  function ClassifyGroup(g: seq<TaskRow>): (r: LegacyGroup)
    ensures r.failed <==> forall i :: 0 <= i < |g| ==> IsFailed(g[i])
    ensures r.succeeded <==> exists i :: 0 <= i < |g| && IsSucceeded(g[i])
    ensures r.timedout <==> forall i :: 0 <= i < |g| ==> IsTimedOut(g[i])
    ensures r.flaky <==> r.succeeded && exists i :: 0 <= i < |g| && IsFailed(g[i])
  {
    var succeeded := Any(g, IsSucceeded);
    LegacyGroup(All(g, IsFailed), succeeded, All(g, IsTimedOut), succeeded && Any(g, IsFailed))
  }

  /** In a group with at least one attempt, failed and succeeded exclude
      each other, and a timed-out group is a failed one. */
  lemma ClassifyGroupExclusive(g: seq<TaskRow>)
    requires |g| > 0
    ensures !(ClassifyGroup(g).failed && ClassifyGroup(g).succeeded)
    ensures ClassifyGroup(g).timedout ==> ClassifyGroup(g).failed
  {
    assert IsFailed(g[0]) ==> !IsSucceeded(g[0]);
  }

  /** The empty group, which grouping never produces, counts as failed and
      timed out, because `all([])` is true. */
  lemma EmptyGroupFailed()
    ensures ClassifyGroup([]) == LegacyGroup(true, false, true, false)
  {
  }

  datatype Flag = Failed | Succeeded | TimedOut | Flaky

  predicate HasFlag(g: LegacyGroup, f: Flag) {
    match f
    case Failed => g.failed
    case Succeeded => g.succeeded
    case TimedOut => g.timedout
    case Flaky => g.flaky
  }

  function CountGroups(tasks: seq<TaskRow>, ids: seq<string>, f: Flag): (n: nat)
    ensures n <= |ids|
  {
    if |ids| == 0 then 0
    else (if HasFlag(ClassifyGroup(TaskServer.GroupOf(tasks, ids[0])), f) then 1 else 0)
         + CountGroups(tasks, ids[1..], f)
  }

  datatype Summary = Summary(
    totalTasks: nat,
    finishedTasks: nat,
    runningTasks: nat,
    retriedTasks: nat,
    timedoutTasks: nat,
    totalGroups: nat,
    failedGroups: nat,
    succeededGroups: nat,
    flakyGroups: nat,
    finishedGroups: nat,
    status: string)

  /** The older `_summarize_tasks`: `timedout_tasks` counts the timed-out
      rows and then once more for every group that only timed out; the job
      is finished when every row has a status. No rows: `min` raises. */
  function Summarize(tasks: seq<TaskRow>): (r: Result<Summary, string>)
    ensures r.Failure? <==> |tasks| == 0
    ensures r.Success? ==> r.value.status in {"running", "finished"}
  {
    if |tasks| == 0 then Failure("min() arg is an empty sequence")
    else
      var ids := TaskServer.GroupIds(tasks);
      var finished := Count(tasks, TaskServer.IsFinishedRow);
      var failedGroups := CountGroups(tasks, ids, Failed);
      var succeededGroups := CountGroups(tasks, ids, Succeeded);
      Success(Summary(
        |tasks|,
        finished,
        Count(tasks, TaskServer.IsRunningRow),
        Count(tasks, TaskServer.IsRetriedRow),
        Count(tasks, IsTimedOut) + CountGroups(tasks, ids, TimedOut),
        |ids|,
        failedGroups,
        succeededGroups,
        CountGroups(tasks, ids, Flaky),
        failedGroups + succeededGroups,
        if |tasks| == finished then "finished" else "running"))
  }

  lemma {:induction false} CountGroupsBounded(tasks: seq<TaskRow>, ids: seq<string>)
    requires forall k :: 0 <= k < |ids| ==> |TaskServer.GroupOf(tasks, ids[k])| > 0
    ensures CountGroups(tasks, ids, Failed) + CountGroups(tasks, ids, Succeeded) <= |ids|
  {
    if |ids| > 0 {
      ClassifyGroupExclusive(TaskServer.GroupOf(tasks, ids[0]));
      CountGroupsBounded(tasks, ids[1..]);
    }
  }

  /** Every group of a non-empty job has a row, so no group is both failed
      and succeeded and finished groups never outnumber groups; the job is
      finished exactly when no row is running. */
  lemma SummaryConsistent(tasks: seq<TaskRow>)
    requires |tasks| > 0
    ensures var s := Summarize(tasks).value;
      s.finishedGroups <= s.totalGroups
      && s.totalTasks == s.finishedTasks + s.runningTasks
      && (s.status == "finished" <==> forall i :: 0 <= i < |tasks| ==> tasks[i].status.Some?)
  {
    var ids := TaskServer.GroupIds(tasks);
    forall k | 0 <= k < |ids|
      ensures |TaskServer.GroupOf(tasks, ids[k])| > 0
    {
      assert ids[k] in ids;
      var i :| 0 <= i < |tasks| && tasks[i].taskId == ids[k];
      assert tasks[i] in TaskServer.GroupOf(tasks, ids[k]);
    }
    CountGroupsBounded(tasks, ids);
    CountDisjointUnion(tasks, TaskServer.IsFinishedRow, TaskServer.IsRunningRow, (t: TaskRow) => true);
    assert Count(tasks, (t: TaskRow) => true) == |tasks|;
  }

  /** A job of one timed-out row reports two timed-out tasks: the row, and
      its group. */
  lemma TimedOutCountedTwice()
    ensures var row := TaskRow("h.0", 0, 0, "", Some(-9), None, None, None);
      Summarize([row]).value.timedoutTasks == 2 && Summarize([row]).value.totalTasks == 1
  {
    var row := TaskRow("h.0", 0, 0, "", Some(-9), None, None, None);
    assert TaskServer.GroupIds([row]) == ["h.0"];
    assert TaskServer.GroupOf([row], "h.0") == [row];
    assert Count([row], IsTimedOut) == 1;
  }

  // ---------------------------------------------------------------------
  // Row classes of `_render_tasks`

  /** What `_render_tasks` knows of a group: whether any attempt succeeded,
      and whether an attempt at the last retry failed. */
  datatype RenderStatus = RenderStatus(succeeded: bool, failed: bool)

  predicate FailedFinalAttempt(t: TaskRow) {
    t.attempt == t.maxRetries && IsFailed(t)
  }

  function RenderGroup(g: seq<TaskRow>): (r: RenderStatus)
    ensures r.succeeded <==> exists i :: 0 <= i < |g| && IsSucceeded(g[i])
    ensures r.failed <==> exists i :: 0 <= i < |g| && FailedFinalAttempt(g[i])
  {
    RenderStatus(Any(g, IsSucceeded), Any(g, FailedFinalAttempt))
  }

  /** The class of one row: running, successful, or, for a failed row,
      `task-failed` only if its group never succeeded and failed on its
      last retry, `task-flaky` otherwise. Timeouts are failures here. */
  function StatusClass(t: TaskRow, g: RenderStatus): (c: string)
    ensures c == "task-running" <==> t.status.None?
    ensures c == "task-successful" <==> IsSucceeded(t)
    ensures c == "task-failed" <==> IsFailed(t) && !g.succeeded && g.failed
    ensures c == "task-flaky" <==> IsFailed(t) && (g.succeeded || !g.failed)
  {
    match t.status
    case None => "task-running"
    case Some(code) =>
      if code == 0 then "task-successful"
      else if g.succeeded || !g.failed then "task-flaky"
      else "task-failed"
  }

  /** A failed row whose group still has retries to run, so no attempt is at
      the last retry, is shown flaky; the same row is shown failed once its
      last retry failed and nothing succeeded. */
  lemma RenderRetriesLeft(t: TaskRow, g: seq<TaskRow>)
    requires IsFailed(t)
    requires forall i :: 0 <= i < |g| ==> g[i].attempt < g[i].maxRetries
    ensures StatusClass(t, RenderGroup(g)) == "task-flaky"
  {
  }
}
