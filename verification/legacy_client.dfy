/** The older command-line client (`client.py`): it talks to the older
    server, decides completion from task counts, chooses interactive output
    from the environment, and downloads with three silent attempts. Job ids
    from the command line and safe file names are as in `Client`. */
module LegacyClient {
  import opened Wrappers
  import opened Strings
  import opened DistTest
  import LegacyServer
  import TaskServer
  import Client

  /** `get_return_code`: none until every task has finished; then 88 when a
      group failed and 0 otherwise. */
  function ReturnCode(s: LegacyServer.Summary): (r: Option<int>)
    ensures r.None? <==> s.finishedTasks != s.totalTasks
    ensures r == Some(Client.FailedExitCode) <==> s.finishedTasks == s.totalTasks && s.failedGroups > 0
    ensures r == Some(0) <==> s.finishedTasks == s.totalTasks && s.failedGroups == 0
  {
    if s.finishedTasks == s.totalTasks then
      if s.failedGroups > 0 then Some(Client.FailedExitCode) else Some(0)
    else None
  }

  /** On a job's rows: the client exits exactly when no row is still
      running, which is when the older server reports the job finished. */
  lemma ReturnCodeOfJob(tasks: seq<TaskRow>)
    requires |tasks| > 0
    ensures var s := LegacyServer.Summarize(tasks).value;
      (ReturnCode(s).Some? <==> forall i :: 0 <= i < |tasks| ==> tasks[i].status.Some?)
      && (ReturnCode(s).Some? <==> s.status == "finished")
  {
    LegacyServer.SummaryConsistent(tasks);
  }

  /** Interactive output is chosen when `BUILD_ID` is not set. */
  function Interactive(environment: set<string>): (r: bool)
    ensures r <==> "BUILD_ID" !in environment
  {
    "BUILD_ID" !in environment
  }

  /** The line `print_status` writes; escapes are written only in
      interactive mode. */
  function StatusLine(interactive: bool, first: bool, runTime: string, s: LegacyServer.Summary, retcode: Option<int>): (line: string)
    ensures EndsWith(line, "\n")
    ensures !interactive ==> StartsWith(line, " " + runTime + "s\t")
  {
    Client.Framed(
      (if interactive && !first then Client.ClearLine else "")
        + (if interactive && retcode.Some? then (if retcode.value == 0 then Client.Green else Client.Red) else ""),
      " " + runTime + "s\t",
      " " + NatToString(s.finishedGroups) + "/" + NatToString(s.totalGroups) + " tests complete"
        + (if interactive && retcode.Some? then Client.Reset else "")
        + (if s.failedGroups != 0 then
             var p := " (" + NatToString(s.failedGroups) + " failed)";
             if interactive then Client.Red + p + Client.Reset else p
           else "")
        + (if s.retriedTasks != 0 then
             var p := " (" + NatToString(s.retriedTasks) + " retries)";
             if interactive then Client.Yellow + p + Client.Reset else p
           else ""))
  }

  /** `print_status`: in non-interactive mode nothing is written unless the
      number of finished tasks changed. */
  function PrintStatus(interactive: bool, previous: Option<LegacyServer.Summary>, s: LegacyServer.Summary,
                       first: bool, runTime: string, retcode: Option<int>): (r: Option<string>)
    ensures r.None? <==> !interactive && previous.Some? && previous.value.finishedTasks == s.finishedTasks
    ensures r.Some? ==> r.value == StatusLine(interactive, first, runTime, s, retcode)
  {
    if !interactive && previous.Some? && previous.value.finishedTasks == s.finishedTasks then None
    else Some(StatusLine(interactive, first, runTime, s, retcode))
  }

  /** A legacy summary and a newer one that report the same progress. */
  predicate SameProgress(s: LegacyServer.Summary, t: TaskServer.Summary) {
    s.finishedTasks == t.finishedTasks && s.finishedGroups == t.finishedGroups && s.totalGroups == t.totalGroups
      && s.failedGroups == t.failedGroups && s.retriedTasks == t.retriedTasks
  }

  /** The legacy line is the newer client's line for the same progress,
      with a terminal taken as interactive. */
  lemma StatusLineAgrees(interactive: bool, first: bool, runTime: string, s: LegacyServer.Summary, t: TaskServer.Summary, retcode: Option<int>)
    requires SameProgress(s, t)
    ensures StatusLine(interactive, first, runTime, s, retcode) == Client.StatusLine(interactive, first, runTime, t, retcode)
  {
    var failed := " (" + NatToString(s.failedGroups) + " failed)";
    var retries := " (" + NatToString(s.retriedTasks) + " retries)";
    if interactive {
      assert Client.Red + " (" + NatToString(t.failedGroups) + " failed)" + Client.Reset == Client.Red + failed + Client.Reset;
      assert Client.Yellow + " (" + NatToString(t.retriedTasks) + " retries)" + Client.Reset == Client.Yellow + retries + Client.Reset;
    } else {
      assert "" + " (" + NatToString(t.failedGroups) + " failed)" + "" == failed;
      assert "" + " (" + NatToString(t.retriedTasks) + " retries)" + "" == retries;
    }
  }

  /** `print_status` writes what the newer client writes for the same
      progress: the two definitions agree. */
  lemma PrintStatusAgrees(interactive: bool, previous: Option<LegacyServer.Summary>, s: LegacyServer.Summary,
                          newer: Option<TaskServer.Summary>, t: TaskServer.Summary,
                          first: bool, runTime: string, retcode: Option<int>)
    requires SameProgress(s, t)
    requires previous.Some? <==> newer.Some?
    requires previous.Some? ==> previous.value.finishedTasks == newer.value.finishedTasks
    ensures PrintStatus(interactive, previous, s, first, runTime, retcode) == Client.PrintStatus(interactive, newer, t, first, runTime, retcode)
  {
    StatusLineAgrees(interactive, first, runTime, s, t, retcode);
  }

  /** Non-interactive output never carries an escape sequence, and the
      line is the one the newer client writes off a terminal. */
  lemma StatusLinePlain(first: bool, runTime: string, s: LegacyServer.Summary, retcode: Option<int>)
    requires Client.NoEscape(runTime)
    ensures Client.NoEscape(StatusLine(false, first, runTime, s, retcode))
  {
    Client.DigitsNoEscape(s.finishedGroups);
    Client.DigitsNoEscape(s.totalGroups);
    Client.DigitsNoEscape(s.failedGroups);
    Client.DigitsNoEscape(s.retriedTasks);
  }
  /** Under Jenkins, where `BUILD_ID` is set, the client writes a line only
      when the finished count changed, and never an escape sequence. */
  lemma BuildIdOutputPlain(environment: set<string>, previous: Option<LegacyServer.Summary>, s: LegacyServer.Summary,
                           first: bool, runTime: string, retcode: Option<int>)
    requires "BUILD_ID" in environment && Client.NoEscape(runTime)
    ensures var r := PrintStatus(Interactive(environment), previous, s, first, runTime, retcode);
      (r.None? <==> previous.Some? && previous.value.finishedTasks == s.finishedTasks)
      && (r.Some? ==> Client.NoEscape(r.value))
  {
    StatusLinePlain(first, runTime, s, retcode);
  }


  const MaxDownloadAttempts: nat := 3

  /** `_download`'s attempts from number `x` on: a present path is skipped,
      a failed fetch is logged and retried, and nothing is raised. */
  function DownloadFrom(x: nat, present: bool, fetched: nat -> bool): (r: bool)
    requires x <= MaxDownloadAttempts
    ensures r <==> !present && exists k :: x <= k < MaxDownloadAttempts && fetched(k)
    decreases MaxDownloadAttempts - x
  {
    if x == MaxDownloadAttempts then false
    else if !present && fetched(x) then true
    else DownloadFrom(x + 1, present, fetched)
  }

  /** `_download(link, path)`: whether the file was fetched. */
  function Download(present: bool, fetched: nat -> bool): (r: bool)
    ensures r <==> !present && exists k :: 0 <= k < MaxDownloadAttempts && fetched(k)
  {
    DownloadFrom(0, present, fetched)
  }

  /** The older download gives up sooner and silently: whatever it fetches
      the newer one fetches too, and where the newer one raises the older
      one returns without a file. */
  lemma DownloadComparedWithClient(present: bool, fetched: nat -> bool)
    ensures Download(present, fetched) ==> Client.Download(present, fetched) == Success(true)
    ensures Client.Download(present, fetched).Failure? ==> !Download(present, fetched)
  {
  }

  /** `safe_name`, written as the comprehension it is. */
  function SafeName(s: string): (r: string)
    ensures |r| == |s|
    ensures forall i :: 0 <= i < |s| ==> (IsAlnum(s[i]) ==> r[i] == s[i]) && (!IsAlnum(s[i]) ==> r[i] == '_')
  {
    seq(|s|, i requires 0 <= i < |s| => if IsAlnum(s[i]) then s[i] else '_')
  }

  /** Both clients name files alike. */
  lemma SafeNameAgrees(s: string)
    ensures SafeName(s) == Client.SafeName(s)
  {
    var a := SafeName(s);
    var b := Client.SafeName(s);
    assert forall i :: 0 <= i < |a| ==> a[i] == b[i];
  }

  /** `get_job_id_from_args`, by the number of arguments. */
  function JobIdFromArgs(args: seq<string>, lastJob: Option<string>): (r: Result<string, string>)
    ensures r.Success? ==> (|args| == 2 && r.value == args[1]) || (|args| == 1 && Some(r.value) == lastJob)
    ensures r.Failure? ==> |args| != 2
  {
    match |args|
    case 1 => if lastJob.Some? then Success(lastJob.value) else Failure("usage: <command> <job-id>")
    case 2 => Success(args[1])
    case _ => Failure("usage: <command> <job-id>")
  }

  /** Both clients take the job id from the same place. */
  lemma JobIdFromArgsAgrees(args: seq<string>, lastJob: Option<string>)
    ensures JobIdFromArgs(args, lastJob) == Client.JobIdFromArgs(args, lastJob)
  {
  }
}
