/** The command-line client (`infra/client.py`): the exit code derived from
    a job's status, the progress line and when it is suppressed, server
    URLs, bounded retries of requests and downloads, the job id taken from
    the command line, and the names under which fetched logs and artifacts
    are stored. */
module Client {
  import opened Wrappers
  import opened Strings
  import opened DistTest
  import TaskServer
  import Paths
  import Seqs

  // ---------------------------------------------------------------------
  // Exit codes

  /** The exit code of a job with failed groups. */
  const FailedExitCode: int := 88

  /** `get_return_code`: none while the job runs; once finished, 88 when a
      group failed and 0 otherwise. */
  function ReturnCode(s: TaskServer.Summary): (r: Option<int>)
    ensures r.None? <==> s.status != "finished"
    ensures r == Some(FailedExitCode) <==> s.status == "finished" && s.failedGroups > 0
    ensures r == Some(0) <==> s.status == "finished" && s.failedGroups == 0
  {
    if s.status == "finished" then
      if s.failedGroups > 0 then Some(FailedExitCode) else Some(0)
    else None
  }

  /** On a job's rows: the client exits once every group has finished, and
      exits with 88 exactly when some group failed. */
  lemma ReturnCodeOfJob(tasks: seq<TaskRow>)
    requires |tasks| > 0
    ensures var r := ReturnCode(TaskServer.Summarize(tasks).value);
      (r.Some? <==> forall i :: 0 <= i < |tasks| ==> TaskServer.GroupFinished(tasks, tasks[i].taskId))
      && (r == Some(FailedExitCode) <==>
            (r.Some? && exists i :: 0 <= i < |tasks| && Classify(TaskServer.GroupOf(tasks, tasks[i].taskId)).isFailed))
  {
    TaskServer.SummaryStatus(tasks);
    TaskServer.SummaryFailedGroups(tasks);
  }

  // ---------------------------------------------------------------------
  // The progress line

  const Red := "\U{1b}[31m"
  const Yellow := "\U{1b}[33m"
  const Green := "\U{1b}[32m"
  const Reset := "\U{1b}[m"
  const ClearLine := "\U{1b}[F\U{1b}[2K"

  /** `ontty(msg)`: the message on a terminal, nothing elsewhere. */
  function OnTty(isTty: bool, msg: string): (r: string)
    ensures isTty ==> r == msg
    ensures !isTty ==> r == ""
  {
    if isTty then msg else ""
  }

  predicate NoEscape(s: string) {
    '\U{1b}' !in s
  }

  lemma DigitsNoEscape(n: nat)
    ensures NoEscape(NatToString(n))
  {
    var d := NatToString(n);
    assert forall i :: 0 <= i < |d| ==> d[i] != '\U{1b}' by {
      forall i | 0 <= i < |d|
        ensures d[i] != '\U{1b}'
      {
        assert IsDigit(d[i]);
      }
    }
  }

  /** The line `print_status` writes; `runTime` is the elapsed time as
      `%.1f` renders it. */
  function StatusLine(isTty: bool, first: bool, runTime: string, s: TaskServer.Summary, retcode: Option<int>): (line: string)
    ensures EndsWith(line, "\n")
    ensures !isTty ==> StartsWith(line, " " + runTime + "s\t")
  {
    var colour := (if first then "" else OnTty(isTty, ClearLine))
      + (if retcode.Some? then OnTty(isTty, if retcode.value == 0 then Green else Red) else "");
    var progress := " " + runTime + "s\t";
    var counts := " " + NatToString(s.finishedGroups) + "/" + NatToString(s.totalGroups) + " tests complete"
      + (if retcode.Some? then OnTty(isTty, Reset) else "")
      + (if s.failedGroups != 0 then OnTty(isTty, Red) + " (" + NatToString(s.failedGroups) + " failed)" + OnTty(isTty, Reset) else "")
      + (if s.retriedTasks != 0 then OnTty(isTty, Yellow) + " (" + NatToString(s.retriedTasks) + " retries)" + OnTty(isTty, Reset) else "");
    Framed(colour, progress, counts)
  }

  /** `lead + text + rest`, closed by a newline. */
  function Framed(lead: string, text: string, rest: string): (line: string)
    ensures EndsWith(line, "\n")
    ensures lead == "" ==> StartsWith(line, text)
  {
    var line := lead + text + rest + "\n";
    assert line[|line| - 1..] == "\n";
    assert lead == "" ==> line[..|text|] == text;
    line
  }

  /** `print_status`: off a terminal, nothing is written unless the number
      of finished tasks changed since the previous poll. */
  function PrintStatus(isTty: bool, previous: Option<TaskServer.Summary>, s: TaskServer.Summary,
                       first: bool, runTime: string, retcode: Option<int>): (r: Option<string>)
    ensures r.None? <==> !isTty && previous.Some? && previous.value.finishedTasks == s.finishedTasks
    ensures r.Some? ==> r.value == StatusLine(isTty, first, runTime, s, retcode)
  {
    if !isTty && previous.Some? && previous.value.finishedTasks == s.finishedTasks then None
    else Some(StatusLine(isTty, first, runTime, s, retcode))
  }

  /** Off a terminal the progress line carries no escape sequence. */
  lemma StatusLinePlain(first: bool, runTime: string, s: TaskServer.Summary, retcode: Option<int>)
    requires NoEscape(runTime)
    ensures NoEscape(StatusLine(false, first, runTime, s, retcode))
  {
    DigitsNoEscape(s.finishedGroups);
    DigitsNoEscape(s.totalGroups);
    DigitsNoEscape(s.failedGroups);
    DigitsNoEscape(s.retriedTasks);
  }

  // ---------------------------------------------------------------------
  // Server URLs and requests

  /** `make_url`: the master URL without trailing slashes, then the path,
      which must start with '/'. */
  function MakeUrl(master: string, path: string): (r: Result<string, string>)
    ensures r.Success? <==> |path| > 0 && path[0] == '/'
    ensures r.Success? ==> r.value == RStrip(master, '/') + path
  {
    if |path| > 0 && path[0] == '/' then Success(RStrip(master, '/') + path)
    else Failure("AssertionError")
  }

  /** Trailing slashes on the master URL never double the path's slash. */
  lemma MakeUrlIgnoresTrailingSlash(master: string, path: string)
    ensures MakeUrl(master + "/", path) == MakeUrl(master, path)
    ensures MakeUrl(master, path).Success? ==>
              var u := MakeUrl(master, path).value; var k := |RStrip(master, '/')|;
              u[k] == '/' && (k == 0 || u[k - 1] != '/')
  {
    var m := master + "/";
    assert m[..|m| - 1] == master;
  }

  /** `urlopen_with_retry` gives up after this many retries. */
  const MaxRetries: nat := 10

  /** The calls a retried request makes and whether one succeeded. */
  datatype Attempts = Attempts(calls: nat, ok: bool)

  /** The calls from retry number `attempt` on; `succeeds(k)` says whether
      call `k` (from 0) returns. */
  function RetryFrom(succeeds: nat -> bool, attempt: nat): (r: Attempts)
    requires attempt <= MaxRetries
    ensures attempt < r.calls <= MaxRetries + 1
    ensures r.ok <==> exists k :: attempt <= k < r.calls && succeeds(k)
    ensures r.ok ==> succeeds(r.calls - 1) && forall k :: attempt <= k < r.calls - 1 ==> !succeeds(k)
    ensures !r.ok ==> r.calls == MaxRetries + 1 && forall k :: attempt <= k <= MaxRetries ==> !succeeds(k)
    decreases MaxRetries - attempt
  {
    if succeeds(attempt) then Attempts(attempt + 1, true)
    else if attempt == MaxRetries then Attempts(attempt + 1, false)
    else RetryFrom(succeeds, attempt + 1)
  }

  /** `urlopen_with_retry`: at most 11 calls; the error of the last is
      raised when none succeeds. */
  function UrlopenWithRetry(succeeds: nat -> bool): (r: Attempts)
    ensures 0 < r.calls <= MaxRetries + 1
    ensures r.ok <==> exists k :: 0 <= k <= MaxRetries && succeeds(k)
    ensures r.ok ==> succeeds(r.calls - 1) && forall k :: 0 <= k < r.calls - 1 ==> !succeeds(k)
  {
    RetryFrom(succeeds, 0)
  }

  /** `_download`'s attempts from number `x` on: a path already present is
      skipped, and a failed fetch removes the partial file and retries, the
      last failure being raised. The result says whether the fetch
      happened. */
  function DownloadFrom(x: nat, present: bool, fetched: nat -> bool): (r: Result<bool, string>)
    requires x <= MaxDownloadAttempts
    ensures r == Success(true) <==> !present && exists k :: x <= k < MaxDownloadAttempts && fetched(k)
    ensures r.Failure? <==> !present && x < MaxDownloadAttempts && forall k :: x <= k < MaxDownloadAttempts ==> !fetched(k)
    decreases MaxDownloadAttempts - x
  {
    if x == MaxDownloadAttempts then Success(false)
    else if present then DownloadFrom(x + 1, present, fetched)
    else if fetched(x) then Success(true)
    else if x == MaxDownloadAttempts - 1 then Failure("download failed")
    else DownloadFrom(x + 1, false, fetched)
  }

  const MaxDownloadAttempts: nat := 10

  /** `_download(link, path)`: fetches unless the path exists, trying up to
      10 times and raising the last error. */
  function Download(present: bool, fetched: nat -> bool): (r: Result<bool, string>)
    ensures r == Success(true) <==> !present && exists k :: 0 <= k < MaxDownloadAttempts && fetched(k)
    ensures r == Success(false) <==> present
    ensures r.Failure? <==> !present && forall k :: 0 <= k < MaxDownloadAttempts ==> !fetched(k)
  {
    DownloadFrom(0, present, fetched)
  }

  // ---------------------------------------------------------------------
  // Command line

  /** `get_job_id_from_args`: `args` is the command and its arguments; with
      none, the saved job id is used when there is one, and otherwise
      exactly one job id is required. */
  function JobIdFromArgs(args: seq<string>, lastJob: Option<string>): (r: Result<string, string>)
    ensures r.Success? <==> (|args| == 1 && lastJob.Some?) || |args| == 2
    ensures |args| == 1 && lastJob.Some? ==> r == Success(lastJob.value)
    ensures |args| == 2 ==> r == Success(args[1])
  {
    if |args| == 1 && lastJob.Some? then Success(lastJob.value)
    else if |args| != 2 then Failure("usage: <command> <job-id>")
    else Success(args[1])
  }

  // ---------------------------------------------------------------------
  // `fetch`

  /** `safe_name`: every character that is not an ASCII letter or digit
      becomes '_'. */
  function SafeName(s: string): (r: string)
    ensures |r| == |s|
    ensures forall i :: 0 <= i < |s| ==> r[i] == (if IsAlnum(s[i]) then s[i] else '_')
  {
    if |s| == 0 then "" else [if IsAlnum(s[0]) then s[0] else '_'] + SafeName(s[1..])
  }

  /** The interpreter's `str(s)` on a decoded JSON string encodes it as
      ASCII, so a character past 0x7F raises `UnicodeEncodeError` (`None`)
      before any character is replaced. */
  function SafeNameChecked(s: string): (r: Option<string>)
    ensures r.None? <==> exists i :: 0 <= i < |s| && s[i] as int >= 0x80
    ensures r.Some? ==> |r.value| == |s|
    ensures r.Some? ==> forall i :: 0 <= i < |s| ==> r.value[i] == (if IsAlnum(s[i]) then s[i] else '_')
  {
    if forall i :: 0 <= i < |s| ==> s[i] as int < 0x80 then Some(SafeName(s)) else None
  }

  /** The failure depends on the text alone: a name `str` can encode is
      the safe name, and a safe name can always be encoded. */
  lemma SafeNameCheckedOfSafe(s: string)
    ensures SafeNameChecked(SafeName(s)).Some?
    ensures SafeNameChecked(s).Some? ==> SafeNameChecked(SafeNameChecked(s).value) == SafeNameChecked(s)
  {
    var r := SafeName(s);
    forall i | 0 <= i < |r| ensures r[i] as int < 0x80 {}
    SafeNameSafe(s);
  }

  /** Safe names are fixed points and contain neither '.' nor '/'. */
  lemma SafeNameSafe(s: string)
    ensures SafeName(SafeName(s)) == SafeName(s)
    ensures '.' !in SafeName(s) && '/' !in SafeName(s)
  {
    var r := SafeName(s);
    forall i | 0 <= i < |r|
      ensures r[i] != '.' && r[i] != '/'
    {
    }
  }

  /** A non-negative attempt number keeps its name. */
  lemma SafeNameOfNat(n: nat)
    ensures SafeName(NatToString(n)) == NatToString(n)
  {
    var d := NatToString(n);
    forall i | 0 <= i < |d|
      ensures IsAlnum(d[i])
    {
      assert IsDigit(d[i]);
    }
  }

  /** The status of the tasks `_fetch` asks for. */
  function FetchStatus(failedOnly: bool): (r: string)
    ensures failedOnly <==> r == "failed"
    ensures r in {"failed", "finished"}
  {
    if failedOnly then "failed" else "finished"
  }

  /** The status the fetch asks for is one the server's `tasks` page
      accepts, and selects the failed tasks exactly when only failed ones
      are wanted, the finished ones otherwise. */
  lemma FetchStatusAccepted(failedOnly: bool)
    ensures TaskServer.ParseStatusFilter(Some(FetchStatus(failedOnly)))
              == Success(if failedOnly then TaskServer.FailedTasks else TaskServer.FinishedTasks)
  {
  }

  /** The file name prefix of one task attempt. */
  function FilePrefix(t: TaskServer.TaskRecord): (r: string) {
    SafeName(t.taskId) + "." + SafeName(IntToString(t.attempt)) + "." + SafeName(t.description)
  }

  /** The prefix splits back into its three safe names. */
  lemma FilePrefixParts(t: TaskServer.TaskRecord)
    ensures Split(FilePrefix(t), '.') == [SafeName(t.taskId), SafeName(IntToString(t.attempt)), SafeName(t.description)]
  {
    var parts := [SafeName(t.taskId), SafeName(IntToString(t.attempt)), SafeName(t.description)];
    SafeNameSafe(t.taskId);
    SafeNameSafe(IntToString(t.attempt));
    SafeNameSafe(t.description);
    JoinThree(parts[0], parts[1], parts[2], ".");
    assert Join(parts, ".") == FilePrefix(t);
    SplitJoin(parts, '.');
  }

  /** Two attempts share a file prefix only when their task ids, attempt
      numbers and descriptions have the same safe names. */
  lemma FilePrefixInjective(t: TaskServer.TaskRecord, u: TaskServer.TaskRecord)
    requires FilePrefix(t) == FilePrefix(u)
    ensures SafeName(t.taskId) == SafeName(u.taskId)
    ensures SafeName(IntToString(t.attempt)) == SafeName(IntToString(u.attempt))
    ensures SafeName(t.description) == SafeName(u.description)
    ensures t.attempt >= 0 && u.attempt >= 0 ==> t.attempt == u.attempt
  {
    FilePrefixParts(t);
    FilePrefixParts(u);
    if t.attempt >= 0 && u.attempt >= 0 {
      SafeNameOfNat(t.attempt);
      SafeNameOfNat(u.attempt);
      ParseIntOfIntToString(t.attempt);
      ParseIntOfIntToString(u.attempt);
    }
  }

  /** What `_fetch` downloads: links paired with the paths they are stored
      at. */
  datatype FetchPlan = FetchPlan(logs: seq<(string, string)>, artifacts: seq<(string, string)>)

  /** `d` is the stdout or the stderr download of task `t`. */
  predicate LogOf(t: TaskServer.TaskRecord, outDir: string, d: (string, string)) {
    (t.stdoutLink == Some(d.0) && d.1 == Paths.PathJoin(outDir, FilePrefix(t)) + ".stdout")
    || (t.stderrLink == Some(d.0) && d.1 == Paths.PathJoin(outDir, FilePrefix(t)) + ".stderr")
  }

  /** The downloads for one task: its stdout log, then its stderr log, when
      logs are wanted and the record links them, and its archive when
      artifacts are wanted and the record links one; each is stored under
      the task's prefix with the matching extension. */
  function TaskDownloads(t: TaskServer.TaskRecord, outDir: string, logs: bool, artifacts: bool): (p: FetchPlan)
    ensures |p.logs| == (if logs then (if t.stdoutLink.Some? then 1 else 0) + (if t.stderrLink.Some? then 1 else 0) else 0)
    ensures |p.artifacts| == (if artifacts && t.artifactArchiveLink.Some? then 1 else 0)
    ensures forall i :: 0 <= i < |p.logs| ==> LogOf(t, outDir, p.logs[i])
    ensures logs && t.stdoutLink.Some? ==>
              p.logs[0] == (t.stdoutLink.value, Paths.PathJoin(outDir, FilePrefix(t)) + ".stdout")
    ensures logs && t.stderrLink.Some? ==>
              p.logs[|p.logs| - 1] == (t.stderrLink.value, Paths.PathJoin(outDir, FilePrefix(t)) + ".stderr")
    ensures forall i :: 0 <= i < |p.artifacts| ==>
              t.artifactArchiveLink == Some(p.artifacts[i].0)
              && p.artifacts[i].1 == Paths.PathJoin(outDir, FilePrefix(t)) + ".zip"
  {
    var prefix := Paths.PathJoin(outDir, FilePrefix(t));
    var out := if logs && t.stdoutLink.Some? then [(t.stdoutLink.value, prefix + ".stdout")] else [];
    var err := if logs && t.stderrLink.Some? then [(t.stderrLink.value, prefix + ".stderr")] else [];
    var art := if artifacts && t.artifactArchiveLink.Some? then [(t.artifactArchiveLink.value, prefix + ".zip")] else [];
    FetchPlan(out + err, art)
  }

  /** `_fetch`'s collection loop over the fetched tasks. */
  function PlanFetch(tasks: seq<TaskServer.TaskRecord>, outDir: string, logs: bool, artifacts: bool): (p: FetchPlan)
    ensures !logs ==> p.logs == []
    ensures !artifacts ==> p.artifacts == []
  {
    if |tasks| == 0 then FetchPlan([], [])
    else
      var first := TaskDownloads(tasks[0], outDir, logs, artifacts);
      var rest := PlanFetch(tasks[1..], outDir, logs, artifacts);
      FetchPlan(first.logs + rest.logs, first.artifacts + rest.artifacts)
  }

  /** The plan follows the task order: the downloads of earlier tasks come
      before those of later ones. */
  lemma {:induction false} PlanFetchAppend(a: seq<TaskServer.TaskRecord>, b: seq<TaskServer.TaskRecord>, outDir: string,
                                           logs: bool, artifacts: bool)
    ensures PlanFetch(a + b, outDir, logs, artifacts).logs
         == PlanFetch(a, outDir, logs, artifacts).logs + PlanFetch(b, outDir, logs, artifacts).logs
    ensures PlanFetch(a + b, outDir, logs, artifacts).artifacts
         == PlanFetch(a, outDir, logs, artifacts).artifacts + PlanFetch(b, outDir, logs, artifacts).artifacts
  {
    if |a| == 0 {
      assert a + b == b;
    } else {
      assert (a + b)[0] == a[0] && (a + b)[1..] == a[1..] + b;
      PlanFetchAppend(a[1..], b, outDir, logs, artifacts);
      var first := TaskDownloads(a[0], outDir, logs, artifacts);
      Seqs.AppendAssoc(first.logs, PlanFetch(a[1..], outDir, logs, artifacts).logs, PlanFetch(b, outDir, logs, artifacts).logs);
      Seqs.AppendAssoc(first.artifacts, PlanFetch(a[1..], outDir, logs, artifacts).artifacts,
                       PlanFetch(b, outDir, logs, artifacts).artifacts);
    }
  }

  predicate HasStdout(t: TaskServer.TaskRecord) {
    t.stdoutLink.Some?
  }

  predicate HasStderr(t: TaskServer.TaskRecord) {
    t.stderrLink.Some?
  }

  /** With logs wanted, one `.stdout` download per task linking a stdout log
      and one `.stderr` download per task linking a stderr log, each the
      task's own link stored under its own prefix. */
  lemma {:induction false} PlanFetchLogs(tasks: seq<TaskServer.TaskRecord>, outDir: string, artifacts: bool)
    ensures var p := PlanFetch(tasks, outDir, true, artifacts);
      |p.logs| == Seqs.Count(tasks, HasStdout) + Seqs.Count(tasks, HasStderr)
      && forall j :: 0 <= j < |p.logs| ==>
           exists i :: 0 <= i < |tasks| && LogOf(tasks[i], outDir, p.logs[j])
  {
    if |tasks| > 0 {
      PlanFetchLogs(tasks[1..], outDir, artifacts);
      var first := TaskDownloads(tasks[0], outDir, true, artifacts);
      var rest := PlanFetch(tasks[1..], outDir, true, artifacts);
      var p := PlanFetch(tasks, outDir, true, artifacts);
      assert p.logs == first.logs + rest.logs;
      forall j | 0 <= j < |p.logs|
        ensures exists i :: 0 <= i < |tasks| && LogOf(tasks[i], outDir, p.logs[j])
      {
        if j < |first.logs| {
          assert p.logs[j] == first.logs[j];
          assert LogOf(tasks[0], outDir, p.logs[j]);
        } else {
          var i :| 0 <= i < |tasks| - 1 && LogOf(tasks[1..][i], outDir, rest.logs[j - |first.logs|]);
          assert tasks[1..][i] == tasks[i + 1];
          assert LogOf(tasks[i + 1], outDir, p.logs[j]);
        }
      }
    }
  }

  predicate HasArchive(t: TaskServer.TaskRecord) {
    t.artifactArchiveLink.Some?
  }

  /** Every artifact download is stored under the prefix of the task that
      links it, and one is planned for every task with an archive. */
  lemma {:induction false} PlanFetchArtifacts(tasks: seq<TaskServer.TaskRecord>, outDir: string)
    ensures var p := PlanFetch(tasks, outDir, false, true);
      |p.artifacts| == Seqs.Count(tasks, HasArchive)
      && forall j :: 0 <= j < |p.artifacts| ==>
           (exists i :: 0 <= i < |tasks| && HasArchive(tasks[i]) &&
              p.artifacts[j] == (tasks[i].artifactArchiveLink.value, Paths.PathJoin(outDir, FilePrefix(tasks[i])) + ".zip"))
  {
    if |tasks| > 0 {
      PlanFetchArtifacts(tasks[1..], outDir);
      var first := TaskDownloads(tasks[0], outDir, false, true);
      var rest := PlanFetch(tasks[1..], outDir, false, true);
      var p := PlanFetch(tasks, outDir, false, true);
      assert p.artifacts == first.artifacts + rest.artifacts;
      forall j | 0 <= j < |p.artifacts|
        ensures exists i :: (0 <= i < |tasks| && HasArchive(tasks[i]) &&
          p.artifacts[j] == (tasks[i].artifactArchiveLink.value, Paths.PathJoin(outDir, FilePrefix(tasks[i])) + ".zip"))
      {
        if j < |first.artifacts| {
          assert p.artifacts[j] == first.artifacts[j];
        } else {
          var i :| 0 <= i < |tasks| - 1 && HasArchive(tasks[1..][i]) && rest.artifacts[j - |first.artifacts|] ==
            (tasks[1..][i].artifactArchiveLink.value, Paths.PathJoin(outDir, FilePrefix(tasks[1..][i])) + ".zip");
          assert tasks[1..][i] == tasks[i + 1];
        }
      }
    }
  }
}
