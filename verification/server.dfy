/** The task server (`infra/server.py`): job submission with
    longest-task-first ordering, retry scheduling, the `tasks` endpoint's
    status filter, the job summary behind `job_status` and the status
    classes of the task table. */
module TaskServer {
  import opened Wrappers
  import opened Strings
  import opened Seqs
  import opened Sorting
  import opened DistTest
  import J = Json
  import Paths

  // ---------------------------------------------------------------------
  // Job submission

  /** The id `submit_job` gives the `i`-th task of a job:
      `<isolate hash>.<i>`. */
  function TaskIdFor(isolateHash: string, i: nat): string {
    isolateHash + "." + NatToString(i)
  }

  lemma NatToStringHasNoDot(i: nat)
    ensures '.' !in NatToString(i)
  {
    var s := NatToString(i);
    forall k | 0 <= k < |s|
      ensures s[k] != '.'
    {
    }
  }

  /** Different positions in a job never share a task id, whatever the
      isolate hashes are. */
  lemma TaskIdForInjective(h1: string, i: nat, h2: string, j: nat)
    requires TaskIdFor(h1, i) == TaskIdFor(h2, j)
    ensures i == j && h1 == h2
  {
    var s := TaskIdFor(h1, i);
    NatToStringHasNoDot(i);
    NatToStringHasNoDot(j);
    forall p | |h1| < p < |s|
      ensures s[p] != '.'
    {
      assert s[p] == NatToString(i)[p - |h1| - 1];
    }
    forall p | |h2| < p < |s|
      ensures s[p] != '.'
    {
      assert s[p] == NatToString(j)[p - |h2| - 1];
    }
    var k := Paths.RFind(s, '.');
    assert s[|h1|] == '.' && s[|h2|] == '.';
    assert k == |h1| == |h2|;
    assert NatToString(i) == s[k + 1..] == NatToString(j);
    assert h1 == s[..k] == h2;
    NatToStringValue(i);
    NatToStringValue(j);
  }

  /** The duration table built from `fetch_recent_task_durations`' rows:
      a later row for the same description replaces an earlier one. */
  function DurationTable(rows: seq<(string, int)>): (m: map<string, int>)
    ensures m.Keys == set i | 0 <= i < |rows| :: rows[i].0
  {
    if |rows| == 0 then map[]
    else
      var last := rows[|rows| - 1];
      DurationTable(rows[..|rows| - 1])[last.0 := last.1]
  }

  /** A description's duration is the one on its last row. */
  lemma {:induction false} DurationTableLatest(rows: seq<(string, int)>, i: int)
    requires 0 <= i < |rows|
    requires forall j :: i < j < |rows| ==> rows[j].0 != rows[i].0
    ensures DurationTable(rows)[rows[i].0] == rows[i].1
  {
    var front := rows[..|rows| - 1];
    if i < |rows| - 1 {
      assert front[i] == rows[i];
      forall j | i < j < |front|
        ensures front[j].0 != front[i].0
      {
        assert front[j] == rows[j];
      }
      DurationTableLatest(front, i);
    }
  }

  /** `defaultdict(int)` lookup: descriptions without a recent run take 0. */
  function Duration(table: map<string, int>, t: Task): int {
    if t.description in table then table[t.description] else 0
  }

  function WithDurations(tasks: seq<Task>, table: map<string, int>): (ps: seq<(Task, int)>)
    ensures |ps| == |tasks|
    ensures forall i :: 0 <= i < |tasks| ==> ps[i] == (tasks[i], Duration(table, tasks[i]))
  {
    if |tasks| == 0 then [] else [(tasks[0], Duration(table, tasks[0]))] + WithDurations(tasks[1..], table)
  }

  /** `_sort_tasks_by_duration`: tasks paired with their last duration,
      sorted longest first by Python's stable sort, durations dropped. */
  function SortTasksByDuration(tasks: seq<Task>, rows: seq<(string, int)>): (r: seq<Task>)
    ensures |r| == |tasks|
  {
    Items(SortDesc(WithDurations(tasks, DurationTable(rows))))
  }

  /** The tasks of a given duration, in order. */
  function TasksWithDuration(tasks: seq<Task>, table: map<string, int>, k: int): seq<Task> {
    if |tasks| == 0 then []
    else (if Duration(table, tasks[0]) == k then [tasks[0]] else []) + TasksWithDuration(tasks[1..], table, k)
  }

  lemma {:induction false} WithKeyOfWithDurations(tasks: seq<Task>, table: map<string, int>, k: int)
    ensures Items(WithKey(WithDurations(tasks, table), k)) == TasksWithDuration(tasks, table, k)
  {
    if |tasks| > 0 {
      var ps := WithDurations(tasks, table);
      var rest := WithDurations(tasks[1..], table);
      assert ps == [ps[0]] + rest;
      ItemsWithKeyCons(ps[0], rest, k);
      WithKeyOfWithDurations(tasks[1..], table, k);
    }
  }

  /** Filtering a pair sequence by key and dropping the keys, one pair at a time. */
  lemma ItemsWithKeyCons<T>(x: (T, int), rest: seq<(T, int)>, k: int)
    ensures Items(WithKey([x] + rest, k)) == (if x.1 == k then [x.0] else []) + Items(WithKey(rest, k))
  {
    assert ([x] + rest)[1..] == rest;
    var head := if x.1 == k then [x] else [];
    assert Items(head + WithKey(rest, k)) == Items(head) + Items(WithKey(rest, k));
  }

  /** A sequence of pairs each carrying its task's duration is determined by
      its tasks. */
  lemma WithDurationsOfItems(ps: seq<(Task, int)>, table: map<string, int>)
    requires forall i :: 0 <= i < |ps| ==> ps[i].1 == Duration(table, ps[i].0)
    ensures WithDurations(Items(ps), table) == ps
  {
  }

  /** The sorted pairs still pair every task with its own duration. */
  lemma SortedPairsKeepDurations(tasks: seq<Task>, table: map<string, int>)
    ensures var sorted := SortDesc(WithDurations(tasks, table));
      WithDurations(Items(sorted), table) == sorted
  {
    var ps := WithDurations(tasks, table);
    var sorted := SortDesc(ps);
    SortDescCorrect(ps);
    forall i | 0 <= i < |sorted|
      ensures sorted[i].1 == Duration(table, sorted[i].0)
    {
      assert sorted[i] in multiset(ps);
    }
    WithDurationsOfItems(sorted, table);
  }

  lemma SortTasksPermutation(tasks: seq<Task>, rows: seq<(string, int)>)
    ensures multiset(SortTasksByDuration(tasks, rows)) == multiset(tasks)
  {
    var ps := WithDurations(tasks, DurationTable(rows));
    ItemsSortDesc(ps);
    assert Items(ps) == tasks;
  }

  lemma SortTasksOrdered(tasks: seq<Task>, rows: seq<(string, int)>)
    ensures var r := SortTasksByDuration(tasks, rows);
      forall i, j :: 0 <= i < j < |r| ==> Duration(DurationTable(rows), r[i]) >= Duration(DurationTable(rows), r[j])
  {
    var table := DurationTable(rows);
    var sorted := SortDesc(WithDurations(tasks, table));
    SortDescCorrect(WithDurations(tasks, table));
    SortedPairsKeepDurations(tasks, table);
    var r := Items(sorted);
    forall i, j | 0 <= i < j < |r|
      ensures Duration(table, r[i]) >= Duration(table, r[j])
    {
      assert sorted[i].1 >= sorted[j].1;
      assert WithDurations(r, table)[i] == sorted[i] && WithDurations(r, table)[j] == sorted[j];
    }
  }

  lemma SortTasksStable(tasks: seq<Task>, rows: seq<(string, int)>, k: int)
    ensures TasksWithDuration(SortTasksByDuration(tasks, rows), DurationTable(rows), k)
         == TasksWithDuration(tasks, DurationTable(rows), k)
  {
    var table := DurationTable(rows);
    var sorted := SortDesc(WithDurations(tasks, table));
    SortDescCorrect(WithDurations(tasks, table));
    SortedPairsKeepDurations(tasks, table);
    WithKeyOfWithDurations(Items(sorted), table, k);
    WithKeyOfWithDurations(tasks, table, k);
  }

  /** Submission order is longest first: a permutation of the tasks, ordered
      by non-increasing last duration, with tasks of equal duration (in
      particular all never-run ones) kept in job order. */
  lemma SortTasksByDurationCorrect(tasks: seq<Task>, rows: seq<(string, int)>)
    ensures var r := SortTasksByDuration(tasks, rows);
      var table := DurationTable(rows);
      multiset(r) == multiset(tasks)
      && (forall i, j :: 0 <= i < j < |r| ==> Duration(table, r[i]) >= Duration(table, r[j]))
      && forall k :: TasksWithDuration(r, table, k) == TasksWithDuration(tasks, table, k)
  {
    SortTasksPermutation(tasks, rows);
    SortTasksOrdered(tasks, rows);
    forall k
      ensures TasksWithDuration(SortTasksByDuration(tasks, rows), DurationTable(rows), k)
           == TasksWithDuration(tasks, DurationTable(rows), k)
    {
      SortTasksStable(tasks, rows, k);
    }
  }

  /** Fills in a task description the way `submit_job` does: the job id, and
      the task id from the isolate hash and the position. */
  function PrepareTask(jobId: string, d: map<string, J.Value>, i: nat): (r: Result<Task, DecodeError>)
    ensures r.Success? ==> r.value.jobId == jobId && "isolate_hash" in d && d["isolate_hash"].Str?
                           && r.value.taskId == TaskIdFor(d["isolate_hash"].s, i)
    ensures "isolate_hash" !in d ==> r == Failure(MissingKey("isolate_hash"))
    ensures "isolate_hash" in d && d["isolate_hash"].Str? && "description" !in d ==> r == Failure(MissingKey("description"))
    ensures r.Failure? && r.error.MissingKey? ==> "isolate_hash" !in d || "description" !in d
  {
    if "isolate_hash" !in d then Failure(MissingKey("isolate_hash"))
    else if !d["isolate_hash"].Str? then Failure(WrongType("isolate_hash"))
    else
      var full := d["job_id" := J.Str(jobId)]["task_id" := J.Str(TaskIdFor(d["isolate_hash"].s, i))];
      FromJson(full)
  }

  function PrepareTasks(jobId: string, descs: seq<map<string, J.Value>>, from: nat): (r: Result<seq<Task>, DecodeError>)
    ensures r.Success? ==> |r.value| == |descs|
    ensures r.Success? ==> forall i :: 0 <= i < |descs| ==> PrepareTask(jobId, descs[i], from + i) == Success(r.value[i])
    ensures r.Failure? ==> exists i :: 0 <= i < |descs| && PrepareTask(jobId, descs[i], from + i).Failure?
    decreases |descs|
  {
    if |descs| == 0 then Success([])
    else
      var t :- PrepareTask(jobId, descs[0], from);
      var rest := PrepareTasks(jobId, descs[1..], from + 1);
      if rest.Failure? then
        PreparedTailFails(jobId, descs, from);
        Failure(rest.error)
      else
        PreparedCons(jobId, descs, from, t, rest.value);
        Success([t] + rest.value)
  }

  /** A failing description after the first is a failing description. */
  lemma PreparedTailFails(jobId: string, descs: seq<map<string, J.Value>>, from: nat)
    requires |descs| > 0
    requires exists k :: 0 <= k < |descs| - 1 && PrepareTask(jobId, descs[1..][k], from + 1 + k).Failure?
    ensures exists i :: 0 <= i < |descs| && PrepareTask(jobId, descs[i], from + i).Failure?
  {
    var k :| 0 <= k < |descs| - 1 && PrepareTask(jobId, descs[1..][k], from + 1 + k).Failure?;
    assert descs[1..][k] == descs[k + 1];
  }

  /** The first prepared task followed by the rest prepares every description. */
  lemma PreparedCons(jobId: string, descs: seq<map<string, J.Value>>, from: nat, t: Task, rest: seq<Task>)
    requires |descs| > 0 && PrepareTask(jobId, descs[0], from) == Success(t)
    requires |rest| == |descs| - 1
    requires forall i :: 0 <= i < |descs| - 1 ==> PrepareTask(jobId, descs[1..][i], from + 1 + i) == Success(rest[i])
    ensures forall i :: 0 <= i < |descs| ==> PrepareTask(jobId, descs[i], from + i) == Success(([t] + rest)[i])
  {
    forall i | 0 < i < |descs|
      ensures PrepareTask(jobId, descs[i], from + i) == Success(([t] + rest)[i])
    {
      assert descs[1..][i - 1] == descs[i];
    }
  }

  /** `submit_job`: every task description is completed and decoded, then
      the tasks are ordered longest first for submission. */
  function SubmitJob(jobId: string, descs: seq<map<string, J.Value>>, rows: seq<(string, int)>): (r: Result<seq<Task>, DecodeError>)
    ensures r.Success? <==> forall i :: 0 <= i < |descs| ==> PrepareTask(jobId, descs[i], i).Success?
  {
    var tasks :- PrepareTasks(jobId, descs, 0);
    Success(SortTasksByDuration(tasks, rows))
  }

  /** The prepared tasks belong to the job and carry distinct ids. */
  lemma PreparedTasks(jobId: string, descs: seq<map<string, J.Value>>)
    requires PrepareTasks(jobId, descs, 0).Success?
    ensures var tasks := PrepareTasks(jobId, descs, 0).value;
      (forall i :: 0 <= i < |tasks| ==> tasks[i].jobId == jobId)
      && forall i, j :: 0 <= i < j < |tasks| ==> tasks[i].taskId != tasks[j].taskId
  {
    var tasks := PrepareTasks(jobId, descs, 0).value;
    forall i | 0 <= i < |tasks|
      ensures tasks[i].jobId == jobId
    {
      assert PrepareTask(jobId, descs[i], i) == Success(tasks[i]);
    }
    forall i, j | 0 <= i < j < |tasks|
      ensures tasks[i].taskId != tasks[j].taskId
    {
      assert PrepareTask(jobId, descs[i], i) == Success(tasks[i]);
      assert PrepareTask(jobId, descs[j], j) == Success(tasks[j]);
      assert tasks[i].taskId == tasks[j].taskId ==> i == j by {
        if tasks[i].taskId == tasks[j].taskId {
          TaskIdForInjective(descs[i]["isolate_hash"].s, i, descs[j]["isolate_hash"].s, j);
        }
      }
    }
  }

  /** Every submitted task belongs to the job and no two share a task id. */
  lemma SubmitJobTasks(jobId: string, descs: seq<map<string, J.Value>>, rows: seq<(string, int)>)
    requires SubmitJob(jobId, descs, rows).Success?
    ensures var ts := SubmitJob(jobId, descs, rows).value;
      |ts| == |descs|
      && (forall i :: 0 <= i < |ts| ==> ts[i].jobId == jobId)
      && forall i, j :: 0 <= i < j < |ts| ==> ts[i].taskId != ts[j].taskId
  {
    var tasks := PrepareTasks(jobId, descs, 0).value;
    var ts := SortTasksByDuration(tasks, rows);
    PreparedTasks(jobId, descs);
    SortTasksPermutation(tasks, rows);
    assert |ts| == |multiset(ts)| == |multiset(tasks)| == |tasks|;
    forall i | 0 <= i < |ts|
      ensures ts[i].jobId == jobId
    {
      assert ts[i] in multiset(tasks);
    }
    forall i, j | 0 <= i < j < |ts|
      ensures ts[i].taskId != ts[j].taskId
    {
      DistinctIdsPermutation(tasks, ts, i, j);
    }
  }

  /** A permutation of tasks with pairwise distinct ids has distinct ids. */
  lemma DistinctIdsPermutation(tasks: seq<Task>, ts: seq<Task>, i: int, j: int)
    requires multiset(ts) == multiset(tasks)
    requires forall a, b :: 0 <= a < b < |tasks| ==> tasks[a].taskId != tasks[b].taskId
    requires 0 <= i < j < |ts|
    ensures ts[i].taskId != ts[j].taskId
  {
    assert Seqs.Distinct(tasks);
    Seqs.PermutationDistinct(tasks, ts, i, j);
    assert ts[i] in multiset(tasks) && ts[j] in multiset(tasks);
    var a :| 0 <= a < |tasks| && tasks[a] == ts[i];
    var b :| 0 <= b < |tasks| && tasks[b] == ts[j];
    assert a != b;
  }

  // ---------------------------------------------------------------------
  // Retries

  /** A retry's beanstalk priority: 2^31 less 1000 per attempt, never below
      1000. */
  function RetryPriority(attempt: int): (p: int)
    ensures p >= 1000
  {
    var p := 0x8000_0000 - 1000 * attempt;
    if p > 1000 then p else 1000
  }

  /** Retries jump ahead of first attempts, and later retries further. */
  lemma RetryPriorityOrder(a: int, b: int)
    requires 1 <= a <= b
    ensures RetryPriority(a) < DefaultPriority
    ensures RetryPriority(b) <= RetryPriority(a)
  {
  }

  /** `retry_task`: a task with retries left is registered again as its next
      attempt and queued with the retry priority; otherwise nothing. */
  function RetryTask(t: Task): (r: Option<(Task, int)>)
    ensures r.Some? <==> t.attempt < t.maxRetries
    ensures r.Some? ==> r.value.0 == t.(attempt := t.attempt + 1)
    ensures r.Some? ==> r.value.1 == RetryPriority(t.attempt + 1)
  {
    if t.attempt < t.maxRetries then Some((t.(attempt := t.attempt + 1), RetryPriority(t.attempt + 1)))
    else None
  }

  /** The attempts a failing task goes through when every retry is
      requested. */
  function RetryChain(t: Task): (chain: seq<Task>)
    ensures |chain| == if t.attempt < t.maxRetries then t.maxRetries - t.attempt else 0
    ensures forall i :: 0 <= i < |chain| ==> chain[i].attempt > t.attempt && RetryId(chain[i]) == RetryId(t)
    decreases t.maxRetries - t.attempt
  {
    match RetryTask(t)
    case None => []
    case Some((next, _)) => [next] + RetryChain(next)
  }

  /** Retries stop: a task gets exactly `max_retries - attempt` of them,
      numbered consecutively, and the last one has no retry left. */
  lemma {:induction false} RetryChainLength(t: Task)
    ensures |RetryChain(t)| == if t.attempt < t.maxRetries then t.maxRetries - t.attempt else 0
    ensures forall i :: 0 <= i < |RetryChain(t)| ==> RetryChain(t)[i] == t.(attempt := t.attempt + i + 1)
    ensures |RetryChain(t)| > 0 ==> RetryTask(RetryChain(t)[|RetryChain(t)| - 1]).None?
    decreases t.maxRetries - t.attempt
  {
    if t.attempt < t.maxRetries {
      var next := t.(attempt := t.attempt + 1);
      RetryChainLength(next);
      assert RetryChain(t) == [next] + RetryChain(next);
    }
  }

  // ---------------------------------------------------------------------
  // The `tasks` endpoint

  datatype StatusFilter = AllTasks | FailedTasks | SucceededTasks | FinishedTasks

  function ParseStatusFilter(status: Option<string>): (r: Result<StatusFilter, string>)
    ensures r.Success? <==> status.None? || status.value in {"failed", "succeeded", "finished"}
  {
    match status
    case None => Success(AllTasks)
    case Some(s) =>
      if s == "failed" then Success(FailedTasks)
      else if s == "succeeded" then Success(SucceededTasks)
      else if s == "finished" then Success(FinishedTasks)
      else Failure("Unknown status type")
  }

  predicate Selected(f: StatusFilter, t: TaskRow) {
    match f
    case AllTasks => true
    case FailedTasks => IsFailed(t)
    case SucceededTasks => IsSucceeded(t)
    case FinishedTasks => t.status.Some?
  }

  /** One entry of the `tasks` endpoint's answer. */
  datatype TaskRecord = TaskRecord(
    taskId: string,
    attempt: int,
    description: string,
    stdoutLink: Option<string>,
    stderrLink: Option<string>,
    artifactArchiveLink: Option<string>)

  /** A link for a stored key, present when the key is non-empty. */
  function LinkFor(key: Option<string>, link: string -> string): (r: Option<string>)
    ensures r.Some? <==> Truthy(key)
  {
    if Truthy(key) then Some(link(key.value)) else None
  }

  /** The record of one row: its identity, and a link for each log or
      archive key that is set and non-empty. */
  function Record(t: TaskRow, link: string -> string): (r: TaskRecord)
    ensures r.taskId == t.taskId && r.attempt == t.attempt && r.description == t.description
    ensures r.stdoutLink.Some? <==> Truthy(t.stdoutKey)
    ensures r.stderrLink.Some? <==> Truthy(t.stderrKey)
    ensures r.artifactArchiveLink.Some? <==> Truthy(t.artifactArchiveKey)
  {
    TaskRecord(t.taskId, t.attempt, t.description,
               LinkFor(t.stdoutKey, link), LinkFor(t.stderrKey, link), LinkFor(t.artifactArchiveKey, link))
  }

  function Records(rows: seq<TaskRow>, f: StatusFilter, link: string -> string): (rs: seq<TaskRecord>)
    ensures |rs| <= |rows|
  {
    if |rows| == 0 then []
    else (if Selected(f, rows[0]) then [Record(rows[0], link)] else []) + Records(rows[1..], f, link)
  }

  /** `tasks(job_id, status)`: refuses an unknown status; otherwise one
      record per selected row, in row order. `link` stands for
      `generate_output_link`, which signs a storage URL. */
  function Tasks(rows: seq<TaskRow>, status: Option<string>, link: string -> string): (r: Result<seq<TaskRecord>, string>)
    ensures r.Failure? <==> ParseStatusFilter(status).Failure?
    ensures r.Failure? ==> r.error == "Unknown status type"
    ensures r.Success? ==> var f := ParseStatusFilter(status).value;
      r.value == Map(Filter(rows, (t: TaskRow) => Selected(f, t)), (t: TaskRow) => Record(t, link))
  {
    var f :- ParseStatusFilter(status);
    RecordsFilterMap(rows, f, link);
    Success(Records(rows, f, link))
  }

  /** The records are the selected rows, filtered first and then each
      turned into its record, as the endpoint's two passes do. */
  lemma {:induction false} RecordsFilterMap(rows: seq<TaskRow>, f: StatusFilter, link: string -> string)
    ensures Records(rows, f, link) == Map(Filter(rows, (t: TaskRow) => Selected(f, t)), (t: TaskRow) => Record(t, link))
  {
    if |rows| > 0 {
      var p := (t: TaskRow) => Selected(f, t);
      var g := (t: TaskRow) => Record(t, link);
      RecordsFilterMap(rows[1..], f, link);
      var head := if p(rows[0]) then [rows[0]] else [];
      assert Filter(rows, p) == head + Filter(rows[1..], p);
      MapAppend(head, Filter(rows[1..], p), g);
    }
  }

  /** Records keep their rows' identity and carry a link exactly for the
      keys a row has; the filters select failed, succeeded and finished
      rows, and the finished ones are the failed plus the succeeded. */
  lemma {:induction false} RecordsSelect(rows: seq<TaskRow>, f: StatusFilter, link: string -> string)
    ensures |Records(rows, f, link)| == Count(rows, (t: TaskRow) => Selected(f, t))
    ensures forall r :: r in Records(rows, f, link) ==>
              exists i :: 0 <= i < |rows| && Selected(f, rows[i]) && r == Record(rows[i], link)
    ensures f == AllTasks ==> |Records(rows, f, link)| == |rows|
  {
    if |rows| > 0 {
      RecordsSelect(rows[1..], f, link);
      forall r | r in Records(rows, f, link)
        ensures exists i :: 0 <= i < |rows| && Selected(f, rows[i]) && r == Record(rows[i], link)
      {
        if r !in Records(rows[1..], f, link) {
          assert r == Record(rows[0], link) && Selected(f, rows[0]);
        } else {
          var i :| 0 <= i < |rows[1..]| && Selected(f, rows[1..][i]) && r == Record(rows[1..][i], link);
          assert rows[1..][i] == rows[i + 1];
        }
      }
    }
  }

  lemma FinishedIsFailedOrSucceeded(rows: seq<TaskRow>, link: string -> string)
    ensures |Records(rows, FinishedTasks, link)|
         == |Records(rows, FailedTasks, link)| + |Records(rows, SucceededTasks, link)|
  {
    RecordsSelect(rows, FinishedTasks, link);
    RecordsSelect(rows, FailedTasks, link);
    RecordsSelect(rows, SucceededTasks, link);
    CountDisjointUnion(rows, (t: TaskRow) => Selected(FailedTasks, t), (t: TaskRow) => Selected(SucceededTasks, t),
                       (t: TaskRow) => Selected(FinishedTasks, t));
  }

  // ---------------------------------------------------------------------
  // The job summary

  predicate IsFinishedRow(t: TaskRow) { t.status.Some? }
  predicate IsRunningRow(t: TaskRow) { t.status.None? }
  predicate IsRetriedRow(t: TaskRow) { t.attempt > 0 }
  predicate IsTimedOutRow(t: TaskRow) { t.status == Some(-9) }
  /** `status != 0`, which a running row (`None`) also satisfies. */
  predicate IsNotSuccessRow(t: TaskRow) { t.status != Some(0) }

  /** The distinct task ids of the rows, in order of first appearance. */
  function GroupIds(tasks: seq<TaskRow>): (ids: seq<string>)
    ensures forall i, j :: 0 <= i < j < |ids| ==> ids[i] != ids[j]
    ensures forall i :: 0 <= i < |tasks| ==> tasks[i].taskId in ids
    ensures forall id :: id in ids ==> exists i :: 0 <= i < |tasks| && tasks[i].taskId == id
  {
    if |tasks| == 0 then []
    else
      var init := GroupIds(tasks[..|tasks| - 1]);
      var id := tasks[|tasks| - 1].taskId;
      assert forall i :: 0 <= i < |tasks| - 1 ==> tasks[..|tasks| - 1][i] == tasks[i];
      if id in init then init else init + [id]
  }

  /** The attempts of one task, in row order. */
  function GroupOf(tasks: seq<TaskRow>, id: string): (g: seq<TaskRow>)
    ensures |g| <= |tasks|
    ensures forall t :: t in g <==> t in tasks && t.taskId == id
  {
    if |tasks| == 0 then []
    else (if tasks[0].taskId == id then [tasks[0]] else []) + GroupOf(tasks[1..], id)
  }

  datatype GroupFlag = FailedGroup | FlakyGroup | SucceededGroup | FinishedGroup

  predicate HasFlag(g: GroupStatus, f: GroupFlag) {
    match f
    case FailedGroup => g.isFailed
    case FlakyGroup => g.isFlaky
    case SucceededGroup => g.isSucceeded
    case FinishedGroup => g.isFinished
  }

  /** The group of the task `id` carries the flag. */
  predicate GroupHas(tasks: seq<TaskRow>, id: string, f: GroupFlag) {
    HasFlag(Classify(GroupOf(tasks, id)), f)
  }

  /** How many of the groups named by `ids` carry the flag. */
  function CountGroups(tasks: seq<TaskRow>, ids: seq<string>, f: GroupFlag): (n: nat)
    ensures n <= |ids|
    ensures n == |ids| <==> forall k :: 0 <= k < |ids| ==> GroupHas(tasks, ids[k], f)
    ensures n == 0 <==> forall k :: 0 <= k < |ids| ==> !GroupHas(tasks, ids[k], f)
  {
    if |ids| == 0 then 0
    else
      var b := GroupHas(tasks, ids[0], f);
      var m := CountGroups(tasks, ids[1..], f);
      CountStep(ids, k => GroupHas(tasks, k, f), m);
      (if b then 1 else 0) + m
  }

  /** Counting one more id, whose group carries the flag or not. */
  lemma CountStep(ids: seq<string>, has: string -> bool, m: nat)
    requires |ids| > 0 && m <= |ids| - 1
    requires m == |ids| - 1 <==> forall k :: 0 <= k < |ids| - 1 ==> has(ids[1..][k])
    requires m == 0 <==> forall k :: 0 <= k < |ids| - 1 ==> !has(ids[1..][k])
    ensures var n := (if has(ids[0]) then 1 else 0) + m;
      n <= |ids|
      && (n == |ids| <==> forall k :: 0 <= k < |ids| ==> has(ids[k]))
      && (n == 0 <==> forall k :: 0 <= k < |ids| ==> !has(ids[k]))
  {
    assert forall k :: 1 <= k < |ids| ==> ids[k] == ids[1..][k - 1];
  }

  /** Some group carries the flag exactly when some task's group does,
      for a list naming exactly the tasks' ids. */
  lemma SomeGroupFlagged(tasks: seq<TaskRow>, ids: seq<string>, f: GroupFlag)
    requires forall i :: 0 <= i < |tasks| ==> tasks[i].taskId in ids
    requires forall id :: id in ids ==> exists i :: 0 <= i < |tasks| && tasks[i].taskId == id
    ensures CountGroups(tasks, ids, f) > 0 <==>
            exists i :: 0 <= i < |tasks| && GroupHas(tasks, tasks[i].taskId, f)
  {
    if exists i :: 0 <= i < |tasks| && GroupHas(tasks, tasks[i].taskId, f) {
      var i :| 0 <= i < |tasks| && GroupHas(tasks, tasks[i].taskId, f);
      var k :| 0 <= k < |ids| && ids[k] == tasks[i].taskId;
    }
    if CountGroups(tasks, ids, f) > 0 {
      var k :| 0 <= k < |ids| && GroupHas(tasks, ids[k], f);
      assert ids[k] in ids;
      var i :| 0 <= i < |tasks| && tasks[i].taskId == ids[k];
    }
  }

  /** The job has failed groups exactly when some task's group failed. */
  lemma SummaryFailedGroups(tasks: seq<TaskRow>)
    requires |tasks| > 0
    ensures Summarize(tasks).value.failedGroups > 0 <==>
            exists i :: 0 <= i < |tasks| && Classify(GroupOf(tasks, tasks[i].taskId)).isFailed
  {
    var ids := GroupIds(tasks);
    assert Summarize(tasks).value.failedGroups == CountGroups(tasks, ids, FailedGroup);
    SomeGroupFlagged(tasks, ids, FailedGroup);
  }

  /** The rows of the flaky groups that did not succeed. */
  function FlakyTaskCount(tasks: seq<TaskRow>, ids: seq<string>): nat {
    if |ids| == 0 then 0
    else
      var g := GroupOf(tasks, ids[0]);
      (if Classify(g).isFlaky then Count(g, IsNotSuccessRow) else 0) + FlakyTaskCount(tasks, ids[1..])
  }

  /** The statistics `_summarize_tasks` computes, without the timestamps. */
  datatype Summary = Summary(
    totalTasks: nat,
    finishedTasks: nat,
    runningTasks: nat,
    retriedTasks: nat,
    timedoutTasks: nat,
    failedTasks: nat,
    succeededTasks: nat,
    totalGroups: nat,
    flakyGroups: nat,
    failedGroups: nat,
    succeededGroups: nat,
    finishedGroups: nat,
    status: string,
    flakyTasks: nat)

  /** `_summarize_tasks`: task counts, group counts and the job status.
      A job without rows fails, as `min` of no submit times raises. */
  function Summarize(tasks: seq<TaskRow>): (r: Result<Summary, string>)
    ensures r.Failure? <==> |tasks| == 0
    ensures r.Success? ==> r.value.status in {"running", "finished"}
  {
    if |tasks| == 0 then Failure("min() arg is an empty sequence")
    else
      var ids := GroupIds(tasks);
      var finishedGroups := CountGroups(tasks, ids, FinishedGroup);
      Success(Summary(
        |tasks|,
        Count(tasks, IsFinishedRow),
        Count(tasks, IsRunningRow),
        Count(tasks, IsRetriedRow),
        Count(tasks, IsTimedOutRow),
        Count(tasks, IsFailed),
        Count(tasks, IsSucceeded),
        |ids|,
        CountGroups(tasks, ids, FlakyGroup),
        CountGroups(tasks, ids, FailedGroup),
        CountGroups(tasks, ids, SucceededGroup),
        finishedGroups,
        if |ids| == finishedGroups then "finished" else "running",
        FlakyTaskCount(tasks, ids)))
  }

  /** Task counts are consistent: every row is finished or running, every
      finished row failed or succeeded, and timeouts are failures. */
  lemma SummaryTaskCounts(tasks: seq<TaskRow>)
    requires |tasks| > 0
    ensures var s := Summarize(tasks).value;
      s.totalTasks == s.finishedTasks + s.runningTasks
      && s.finishedTasks == s.failedTasks + s.succeededTasks
      && s.timedoutTasks <= s.failedTasks
      && s.retriedTasks <= s.totalTasks
  {
    CountDisjointUnion(tasks, IsFinishedRow, IsRunningRow, (t: TaskRow) => true);
    assert Count(tasks, (t: TaskRow) => true) == |tasks|;
    CountDisjointUnion(tasks, IsFailed, IsSucceeded, IsFinishedRow);
    CountMonotone(tasks, IsTimedOutRow, IsFailed);
  }

  lemma {:induction false} CountGroupsFinished(tasks: seq<TaskRow>, ids: seq<string>)
    ensures CountGroups(tasks, ids, FinishedGroup)
         == CountGroups(tasks, ids, FailedGroup) + CountGroups(tasks, ids, SucceededGroup)
  {
    if |ids| > 0 {
      CountGroupsFinished(tasks, ids[1..]);
    }
  }

  lemma SummaryGroupIds(tasks: seq<TaskRow>)
    requires |tasks| > 0
    ensures Summarize(tasks).value.totalGroups == |set i | 0 <= i < |tasks| :: tasks[i].taskId|
  {
    var ids := GroupIds(tasks);
    DistinctCard(ids);
    var a := set k | 0 <= k < |ids| :: ids[k];
    var b := set i | 0 <= i < |tasks| :: tasks[i].taskId;
    forall x | x in a
      ensures x in b
    {
      var k :| 0 <= k < |ids| && ids[k] == x;
      assert ids[k] in ids;
    }
    forall x | x in b
      ensures x in a
    {
      var i :| 0 <= i < |tasks| && tasks[i].taskId == x;
      assert x in ids;
      var k :| 0 <= k < |ids| && ids[k] == x;
    }
    assert a == b;
  }

  predicate GroupFinished(tasks: seq<TaskRow>, id: string) {
    Classify(GroupOf(tasks, id)).isFinished
  }

  lemma AllGroupsFinished(tasks: seq<TaskRow>)
    ensures var ids := GroupIds(tasks);
      CountGroups(tasks, ids, FinishedGroup) == |ids| <==>
      forall i :: 0 <= i < |tasks| ==> GroupFinished(tasks, tasks[i].taskId)
  {
    var ids := GroupIds(tasks);
    assert CountGroups(tasks, ids, FinishedGroup) == |ids| <==>
      forall k :: 0 <= k < |ids| ==> GroupFinished(tasks, ids[k]);
    GroupsToRows(tasks, ids);
    RowsToGroups(tasks, ids);
  }

  /** When every listed group is finished, so is the group of every row. */
  lemma GroupsToRows(tasks: seq<TaskRow>, ids: seq<string>)
    requires ids == GroupIds(tasks)
    ensures (forall k :: 0 <= k < |ids| ==> GroupFinished(tasks, ids[k])) ==>
            forall i :: 0 <= i < |tasks| ==> GroupFinished(tasks, tasks[i].taskId)
  {
    if forall k :: 0 <= k < |ids| ==> GroupFinished(tasks, ids[k]) {
      forall i | 0 <= i < |tasks|
        ensures GroupFinished(tasks, tasks[i].taskId)
      {
        assert tasks[i].taskId in ids;
        var k :| 0 <= k < |ids| && ids[k] == tasks[i].taskId;
      }
    }
  }

  /** When the group of every row is finished, so is every listed group. */
  lemma RowsToGroups(tasks: seq<TaskRow>, ids: seq<string>)
    requires ids == GroupIds(tasks)
    ensures (forall i :: 0 <= i < |tasks| ==> GroupFinished(tasks, tasks[i].taskId)) ==>
            forall k :: 0 <= k < |ids| ==> GroupFinished(tasks, ids[k])
  {
    if forall i :: 0 <= i < |tasks| ==> GroupFinished(tasks, tasks[i].taskId) {
      forall k | 0 <= k < |ids|
        ensures GroupFinished(tasks, ids[k])
      {
        assert ids[k] in ids;
        var i :| 0 <= i < |tasks| && tasks[i].taskId == ids[k];
      }
    }
  }

  lemma SummaryStatus(tasks: seq<TaskRow>)
    requires |tasks| > 0
    ensures Summarize(tasks).value.status == "finished" <==>
            forall i :: 0 <= i < |tasks| ==> GroupFinished(tasks, tasks[i].taskId)
  {
    AllGroupsFinished(tasks);
  }

  /** Group counts are consistent: the finished groups are the failed plus
      the succeeded ones, there is a group per distinct task id, and the job
      is finished exactly when every group is. */
  lemma SummaryGroupCounts(tasks: seq<TaskRow>)
    requires |tasks| > 0
    ensures var s := Summarize(tasks).value;
      s.finishedGroups == s.failedGroups + s.succeededGroups
      && s.totalGroups == |set i | 0 <= i < |tasks| :: tasks[i].taskId|
      && (s.status == "finished" <==> forall i :: 0 <= i < |tasks| ==> GroupFinished(tasks, tasks[i].taskId))
  {
    CountGroupsFinished(tasks, GroupIds(tasks));
    SummaryGroupIds(tasks);
    SummaryStatus(tasks);
  }

  lemma {:induction false} DistinctCard(ids: seq<string>)
    requires forall i, j :: 0 <= i < j < |ids| ==> ids[i] != ids[j]
    ensures |set k | 0 <= k < |ids| :: ids[k]| == |ids|
  {
    if |ids| > 0 {
      var init := ids[..|ids| - 1];
      DistinctCard(init);
      var s := set k | 0 <= k < |ids| :: ids[k];
      var s0 := set k | 0 <= k < |init| :: init[k];
      assert s == s0 + {ids[|ids| - 1]};
      assert ids[|ids| - 1] !in s0;
    }
  }

  /** Grouping loses no row: the group sizes add up to the number of
      rows. */
  function SumSizes(tasks: seq<TaskRow>, ids: seq<string>): nat {
    if |ids| == 0 then 0 else |GroupOf(tasks, ids[0])| + SumSizes(tasks, ids[1..])
  }

  lemma {:induction false} GroupOfSnoc(tasks: seq<TaskRow>, t: TaskRow, id: string)
    ensures GroupOf(tasks + [t], id) == GroupOf(tasks, id) + (if t.taskId == id then [t] else [])
  {
    if |tasks| == 0 {
      assert tasks + [t] == [t];
    } else {
      var rest := tasks[1..];
      var head := if tasks[0].taskId == id then [tasks[0]] else [];
      assert (tasks + [t])[0] == tasks[0] && (tasks + [t])[1..] == rest + [t];
      assert GroupOf(tasks + [t], id) == head + GroupOf(rest + [t], id);
      assert GroupOf(tasks, id) == head + GroupOf(rest, id);
      GroupOfSnoc(rest, t, id);
      Seqs.AppendAssoc(head, GroupOf(rest, id), if t.taskId == id then [t] else []);
    }
  }

  lemma {:induction false} SumSizesSnoc(tasks: seq<TaskRow>, t: TaskRow, ids: seq<string>)
    requires forall i, j :: 0 <= i < j < |ids| ==> ids[i] != ids[j]
    ensures SumSizes(tasks + [t], ids) == SumSizes(tasks, ids) + (if t.taskId in ids then 1 else 0)
  {
    if |ids| > 0 {
      GroupOfSnoc(tasks, t, ids[0]);
      SumSizesSnoc(tasks, t, ids[1..]);
      assert t.taskId in ids <==> t.taskId == ids[0] || t.taskId in ids[1..] by {
        assert ids == [ids[0]] + ids[1..];
      }
      assert ids[0] !in ids[1..];
    }
  }

  lemma {:induction false} SumSizesAppendId(tasks: seq<TaskRow>, ids: seq<string>, id: string)
    ensures SumSizes(tasks, ids + [id]) == SumSizes(tasks, ids) + |GroupOf(tasks, id)|
  {
    if |ids| == 0 {
      assert ids + [id] == [id];
    } else {
      assert (ids + [id])[1..] == ids[1..] + [id];
      SumSizesAppendId(tasks, ids[1..], id);
    }
  }

  lemma {:induction false} GroupOfAbsent(tasks: seq<TaskRow>, id: string)
    requires forall i :: 0 <= i < |tasks| ==> tasks[i].taskId != id
    ensures GroupOf(tasks, id) == []
  {
    if |tasks| > 0 {
      GroupOfAbsent(tasks[1..], id);
    }
  }

  lemma {:induction false} GroupsPartition(tasks: seq<TaskRow>)
    ensures SumSizes(tasks, GroupIds(tasks)) == |tasks|
  {
    if |tasks| > 0 {
      var init := tasks[..|tasks| - 1];
      var t := tasks[|tasks| - 1];
      var ids := GroupIds(init);
      GroupsPartition(init);
      assert tasks == init + [t];
      GroupIdsSnoc(init, t);
      if t.taskId !in ids {
        NewGroupSize(init, t);
      } else {
        SumSizesSnoc(init, t, ids);
      }
    }
  }

  /** A further row adds its task id to the group ids when it is new. */
  lemma GroupIdsSnoc(init: seq<TaskRow>, t: TaskRow)
    ensures GroupIds(init + [t]) == if t.taskId in GroupIds(init) then GroupIds(init) else GroupIds(init) + [t.taskId]
  {
    assert (init + [t])[..|init + [t]| - 1] == init;
  }

  /** A row of a task not seen before opens a group of its own. */
  lemma NewGroupSize(init: seq<TaskRow>, t: TaskRow)
    requires t.taskId !in GroupIds(init)
    ensures SumSizes(init + [t], GroupIds(init) + [t.taskId]) == SumSizes(init, GroupIds(init)) + 1
  {
    var ids := GroupIds(init);
    SumSizesSnoc(init, t, ids);
    SumSizesAppendId(init + [t], ids, t.taskId);
    GroupOfSnoc(init, t, t.taskId);
    GroupOfAbsent(init, t.taskId);
  }

  lemma {:induction false} FlakyTasksBounded(tasks: seq<TaskRow>, ids: seq<string>)
    ensures FlakyTaskCount(tasks, ids) <= SumSizes(tasks, ids)
  {
    if |ids| > 0 {
      FlakyTasksBounded(tasks, ids[1..]);
    }
  }

  /** The flaky-task count covers only rows of flaky groups: it is at most
      the number of rows and zero when no group is flaky. */
  lemma SummaryFlakyTasks(tasks: seq<TaskRow>)
    requires |tasks| > 0
    ensures var s := Summarize(tasks).value;
      s.flakyTasks <= s.totalTasks && (s.flakyGroups == 0 ==> s.flakyTasks == 0)
  {
    var ids := GroupIds(tasks);
    GroupsPartition(tasks);
    FlakyTasksBounded(tasks, ids);
    NoFlakyGroups(tasks, ids);
  }

  lemma {:induction false} NoFlakyGroups(tasks: seq<TaskRow>, ids: seq<string>)
    ensures CountGroups(tasks, ids, FlakyGroup) == 0 ==> FlakyTaskCount(tasks, ids) == 0
  {
    if |ids| > 0 {
      NoFlakyGroups(tasks, ids[1..]);
    }
  }

  // ---------------------------------------------------------------------
  // Status classes of the task table

  /** The CSS classes of one row of the job page: one for its status, plus
      `task-flaky` for a failure (not a timeout) in a flaky group. */
  function StatusClasses(t: TaskRow, groupIsFlaky: bool): (cs: seq<string>)
    ensures 1 <= |cs| <= 2
    ensures cs[0] == "task-running" <==> t.status.None?
    ensures cs[0] == "task-successful" <==> IsSucceeded(t)
    ensures cs[0] == "task-timedout" <==> t.status == Some(-9)
    ensures cs[0] == "task-failed" <==> IsFailed(t) && t.status != Some(-9)
    ensures |cs| == 2 <==> IsFailed(t) && t.status != Some(-9) && groupIsFlaky
    ensures |cs| == 2 ==> cs[1] == "task-flaky"
  {
    match t.status
    case None => ["task-running"]
    case Some(code) =>
      if code == 0 then ["task-successful"]
      else if code == -9 then ["task-timedout"]
      else ["task-failed"] + (if groupIsFlaky then ["task-flaky"] else [])
  }

  /** The `status_class` attribute: the classes joined by spaces. */
  function StatusClass(t: TaskRow, groupIsFlaky: bool): (r: string)
    ensures r == "task-failed task-flaky" <==> IsFailed(t) && t.status != Some(-9) && groupIsFlaky
    ensures t.status.None? <==> r == "task-running"
    ensures IsSucceeded(t) <==> r == "task-successful"
  {
    var cs := StatusClasses(t, groupIsFlaky);
    if |cs| == 2 then JoinCons(cs[0], [cs[1]], " "); assert cs == [cs[0]] + [cs[1]]; Join(cs, " ")
    else Join(cs, " ")
  }
}
