/** The bookkeeping of the test-result server: how a parsed JUnit report
    becomes result rows, when a local report is archived and uploaded, how
    archive entries are named, and the per-test aggregates of the flaky
    report and the date breaks of the recent-failures page. The database,
    the S3 bucket, HTTP and HTML rendering are left out: query results and
    downloaded reports are parameters, inserted rows and uploads are
    results. */
module ResultServer {
  import opened Wrappers
  import opened Strings
  import opened Xml
  import Seqs
  import Sorting
  import Paths
  import FailureSummary

  /** The exceptions the handlers raise; `ParseError` stands for the report
      file that cannot be opened or parsed. */
  datatype Error = TypeError | ValueError | KeyError | ParseError

  /** A row of `dist_test_results` (the timestamp is the database's). */
  datatype Row = Row(jobId: string, resultId: string, revision: string, hostname: string,
                     testName: string, status: int, logKey: string)

  /** The fields every row of one report shares. */
  datatype Context = Context(jobId: string, resultId: string, revision: string, hostname: string, logKey: string)

  /** The handler's reply and the rows inserted before it returned, or the
      exception it raised and the rows inserted before that. */
  datatype Outcome = Reply(message: string, rows: seq<Row>) | Raised(error: Error, rows: seq<Row>)

  // ---------------------------------------------------------------------
  // populate_database

  /** A test case's result code: bit 1 for an `<error>` child, bit 2 for a
      `<failure>` child, or-ed in that order. */
  function Status(c: Node): (s: int)
    requires c.Element?
    ensures 0 <= s <= 3
    ensures s % 2 == 1 <==> FindChild(c, "error").Some?
    ensures s >= 2 <==> FindChild(c, "failure").Some?
  {
    var c0: bv8 := 0;
    var c1 := if FindChild(c, "error").Some? then c0 | 1 else c0;
    var c2 := if FindChild(c, "failure").Some? then c1 | 2 else c1;
    c2 as int
  }

  /** A result is a failure of some kind exactly when the case has an error
      or a failure child. */
  lemma StatusNonZero(c: Node)
    requires c.Element?
    ensures Status(c) != 0 <==> FindChild(c, "error").Some? || FindChild(c, "failure").Some?
  {
  }

  predicate AllElements(ns: seq<Node>) {
    forall i :: 0 <= i < |ns| ==> ns[i].Element?
  }

  /** The row of one named case. */
  function RowFor(ctx: Context, suite: string, c: Node): Row
    requires c.Element? && "name" in c.attrs
  {
    Row(ctx.jobId, ctx.resultId, ctx.revision, ctx.hostname, suite + "#" + c.attrs["name"], Status(c), ctx.logKey)
  }

  /** The insert loop: one row per case, in order; `suite + '#' + name`
      raises `TypeError` at the first case where the suite or the case has
      no name, and the rows inserted before it stay. */
  function Insert(ctx: Context, suite: Option<string>, cases: seq<Node>): (r: Outcome)
    requires AllElements(cases)
    ensures r.Reply? <==> (|cases| == 0 || suite.Some?) && forall i :: 0 <= i < |cases| ==> "name" in cases[i].attrs
    ensures r.Reply? ==> r.message == "Success!\n" && |r.rows| == |cases|
    ensures r.Raised? ==> r.error == TypeError && |r.rows| < |cases|
                          && (suite.None? || "name" !in cases[|r.rows|].attrs)
    ensures forall i :: 0 <= i < |r.rows| ==>
              suite.Some? && "name" in cases[i].attrs && r.rows[i] == RowFor(ctx, suite.value, cases[i])
  {
    if |cases| == 0 then Reply("Success!\n", [])
    else if suite.None? || "name" !in cases[0].attrs then Raised(TypeError, [])
    else
      var row := RowFor(ctx, suite.value, cases[0]);
      assert forall i :: 1 <= i < |cases| ==> cases[i] == cases[1..][i - 1];
      match Insert(ctx, suite, cases[1..])
      case Reply(m, rows) => Reply(m, [row] + rows)
      case Raised(e, rows) => Raised(e, [row] + rows)
  }

  /** `populate_database`: no report gives `Failure\n` and a root other
      than `testsuite` gives `Failure!\n`, both without rows; otherwise every
      `testcase` element under the root is inserted. */
  function Populate(ctx: Context, root: Option<Node>): (r: Outcome)
    requires root.Some? ==> root.value.Element?
    ensures root.None? ==> r == Reply("Failure\n", [])
    ensures root.Some? && root.value.tag != "testsuite" ==> r == Reply("Failure!\n", [])
    ensures root.Some? && root.value.tag == "testsuite" ==>
              r == Insert(ctx, Attribute(root.value, "name"), ElementsByTag(root.value, "testcase"))
  {
    match root
    case None => Reply("Failure\n", [])
    case Some(n) =>
      if n.tag != "testsuite" then Reply("Failure!\n", [])
      else Insert(ctx, Attribute(n, "name"), ElementsByTag(n, "testcase"))
  }

  /** A successfully stored report has one row per test case, named
      `suite#case`, with the case's result code and the request's other
      fields; a row's status is non-zero exactly when its case failed or
      errored. */
  lemma PopulateRows(ctx: Context, root: Node)
    requires root.Element? && root.tag == "testsuite"
    ensures var cases := ElementsByTag(root, "testcase");
            var r := Populate(ctx, Some(root));
            r.Reply? ==> r.message == "Success!\n" && |r.rows| == |cases|
                         && forall i :: 0 <= i < |cases| ==>
                              && r.rows[i].testName == root.attrs["name"] + "#" + cases[i].attrs["name"]
                              && r.rows[i].jobId == ctx.jobId && r.rows[i].resultId == ctx.resultId
                              && r.rows[i].logKey == ctx.logKey
                              && 0 <= r.rows[i].status <= 3
                              && (r.rows[i].status != 0 <==> FindChild(cases[i], "error").Some? || FindChild(cases[i], "failure").Some?)
  {
    var cases := ElementsByTag(root, "testcase");
    var r := Populate(ctx, Some(root));
    if r.Reply? && |cases| > 0 {
      forall i | 0 <= i < |cases|
        ensures r.rows[i].testName == root.attrs["name"] + "#" + cases[i].attrs["name"]
      {
        assert Attribute(root, "name").Some?;
      }
    }
  }

  /** A row's test name is what the diagnose page hands to the failure
      summary: when neither the suite nor the case name contains `#`, it
      splits back into the two, so the summary looks up that case. */
  lemma RowNameSplits(suite: string, caseName: string, doc: Node)
    requires '#' !in suite && '#' !in caseName
    requires doc.Element?
    ensures Split(suite + "#" + caseName, '#') == [suite, caseName]
    ensures FailureSummary.Extract(Some(doc), suite + "#" + caseName)
              == Success(FailureSummary.VisitAll(FailureSummary.NoSummary, FailureSummary.SuiteCases(doc), caseName))
  {
    assert Join([suite, caseName], ['#']) == suite + "#" + caseName;
    SplitJoin([suite, caseName], '#');
  }

  // ---------------------------------------------------------------------
  // compress_file

  const MaxReportSize := 200 * 1024 * 1024

  /** The single entry of an uploaded archive. */
  datatype Archive = TooBig(entry: string, message: string) | Report(arcname: string)

  /** The name a report is archived under: its path relative to the test
      directory with every leading `/` removed. */
  function ArchiveName(report: string, testDir: string, cwd: string): (name: string)
    ensures |name| == 0 || name[0] != '/'
  {
    LStrip(Paths.Relpath(report, testDir, cwd), '/')
  }

  /** A relative path never starts with `/`, so the stripping loop leaves
      the relative path as it is. */
  lemma ArchiveNameIsRelpath(report: string, testDir: string, cwd: string)
    ensures ArchiveName(report, testDir, cwd) == Paths.Relpath(report, testDir, cwd)
    ensures |ArchiveName(report, testDir, cwd)| > 0
  {
    Paths.RelpathNotAbsolute(report, testDir, cwd);
  }

  /** The server's test directory: `DIST_TEST_TEMP_DIR` when configured,
      `/tmp` otherwise, so the server always has one. */
  function ServerTestDir(configured: Option<string>): (d: string)
    ensures configured.Some? ==> d == configured.value
    ensures configured.None? ==> d == "/tmp"
  {
    if configured.Some? then configured.value else "/tmp"
  }

  /** `compress_file`: a report over 200 MB is replaced by an archive that
      only explains so, naming its size; otherwise the report is archived
      under its path relative to the server's test directory. */
  function CompressFile(report: string, size: nat, testDir: string, cwd: string): (a: Archive)
    ensures size > MaxReportSize ==> a.TooBig? && a.entry == "_ARCHIVE_TOO_BIG_"
    ensures size <= MaxReportSize ==> a.Report? && a.arcname == Paths.Relpath(report, testDir, cwd)
                                      && |a.arcname| > 0 && a.arcname[0] != '/'
  {
    if size > MaxReportSize then
      TooBig("_ARCHIVE_TOO_BIG_",
             "Size of matched uncompressed test artifacts exceeded maximum size"
             + "(" + IntToString(size) + " bytes > " + IntToString(MaxReportSize) + " bytes)!")
    else
      ArchiveNameIsRelpath(report, testDir, cwd);
      Report(ArchiveName(report, testDir, cwd))
  }

  // ---------------------------------------------------------------------
  // add_result

  datatype Upload = Upload(key: string, archive: Archive)

  /** What `add_result` did: the upload it made, if any, and the outcome. */
  datatype AddOutcome = AddOutcome(uploaded: Option<Upload>, outcome: Outcome)

  /** `int(root.get(a))`: a missing attribute is `int(None)`. */
  function IntOf(root: Node, a: string): (r: Result<int, Error>)
    requires root.Element?
    ensures a !in root.attrs ==> r == Failure(TypeError)
    ensures a in root.attrs ==> (r.Success? <==> ParseInt(root.attrs[a]).Some?)
    ensures r.Success? ==> a in root.attrs && ParseInt(root.attrs[a]) == Some(r.value)
  {
    match Attribute(root, a)
    case None => Failure(TypeError)
    case Some(v) =>
      match ParseInt(v)
      case None => Failure(ValueError)
      case Some(n) => Success(n)
  }

  /** Whether a local report must be uploaded: its error count, then (only
      if that is zero) its failure count, is non-zero. */
  function ShowsFailures(root: Node): (r: Result<bool, Error>)
    requires root.Element?
    ensures r.Success? <==> IntOf(root, "errors").Success?
                            && (IntOf(root, "errors").value == 0 ==> IntOf(root, "failures").Success?)
    ensures r.Success? ==> (r.value <==> IntOf(root, "errors").value != 0 || IntOf(root, "failures").value != 0)
  {
    match IntOf(root, "errors")
    case Failure(e) => Failure(e)
    case Success(errors) =>
      if errors != 0 then Success(true)
      else
        match IntOf(root, "failures")
        case Failure(e) => Failure(e)
        case Success(failures) => Success(failures != 0)
  }

  /** The inputs of `add_result` that come from outside the request: the
      parsed local report (`None` when it cannot be opened or parsed) and
      its size, the report downloaded for a key (`None` when it cannot be
      fetched or parsed), the fresh upload key, and the configured
      `DIST_TEST_TEMP_DIR`, from which the server takes its test
      directory. */
  datatype Environment = Environment(localRoot: Option<Node>, reportSize: nat, fetched: Option<Node>,
                                     freshKey: string, configuredTestDir: Option<string>, cwd: string)

  predicate WellFormed(env: Environment) {
    (env.localRoot.Some? ==> env.localRoot.value.Element?) && (env.fetched.Some? ==> env.fetched.value.Element?)
  }

  /** The final `populate_database` call; reading `revision` or `hostname`
      from a request without them raises `KeyError`. */
  function Store(args: map<string, string>, resultId: string, root: Option<Node>, key: string): (r: Outcome)
    requires "job_id" in args
    requires root.Some? ==> root.value.Element?
    ensures "revision" !in args || "hostname" !in args ==> r == Raised(KeyError, [])
    ensures "revision" in args && "hostname" in args ==>
              r == Populate(Context(args["job_id"], resultId, args["revision"], args["hostname"], key), root)
  {
    if "revision" !in args || "hostname" !in args then Raised(KeyError, [])
    else Populate(Context(args["job_id"], resultId, args["revision"], args["hostname"], key), root)
  }

  /** `add_result`. */
  function AddResult(args: map<string, string>, env: Environment): (r: AddOutcome)
    requires WellFormed(env)
    ensures "job_id" !in args ==> r == AddOutcome(None, Reply("FAILURE: job_id is required!", []))
    ensures r.uploaded.Some? ==> "job_id" in args && "test_report" in args && r.uploaded.value.key == env.freshKey
    ensures "job_id" in args && "test_report" in args && env.localRoot.None? ==> r == AddOutcome(None, Raised(ParseError, []))
  {
    if "job_id" !in args then AddOutcome(None, Reply("FAILURE: job_id is required!", []))
    else
      var resultId := if "result_id" in args then args["result_id"] else "";
      if "test_report" in args then
        if env.localRoot.None? then AddOutcome(None, Raised(ParseError, []))
        else
          var root := env.localRoot.value;
          if root.tag != "testsuite" then AddOutcome(None, Reply("Failure!\n", []))
          else
            match ShowsFailures(root)
            case Failure(e) => AddOutcome(None, Raised(e, []))
            case Success(failing) =>
              if failing then
                var archive := CompressFile(args["test_report"], env.reportSize, ServerTestDir(env.configuredTestDir), env.cwd);
                AddOutcome(Some(Upload(env.freshKey, archive)), Store(args, resultId, Some(root), env.freshKey))
              else AddOutcome(None, Store(args, resultId, Some(root), "success"))
      else if "key" !in args then AddOutcome(None, Raised(KeyError, []))
      else AddOutcome(None, Store(args, resultId, env.fetched, args["key"]))
  }

  /** A local report is uploaded exactly when it counts errors or failures,
      under the fresh key, which its rows then carry; a clean report is
      stored under the key `success` with nothing uploaded. A missing
      `result_id` is stored as the empty string. */
  lemma AddResultUploads(args: map<string, string>, env: Environment, root: Node)
    requires WellFormed(env) && env.localRoot == Some(root)
    requires "job_id" in args && "test_report" in args && root.tag == "testsuite"
    requires ShowsFailures(root).Success?
    ensures var r := AddResult(args, env);
            var resultId := if "result_id" in args then args["result_id"] else "";
            && (r.uploaded.Some? <==> ShowsFailures(root).value)
            && (!ShowsFailures(root).value ==> r.outcome == Store(args, resultId, Some(root), "success"))
            && (r.uploaded.Some? ==> r.outcome == Store(args, resultId, Some(root), env.freshKey))
  {
  }

  /** Since the server always has a test directory, a failing local report
      within the size limit is archived under its path relative to that
      directory and uploaded under the fresh key before its rows are
      stored. */
  lemma FailingLocalReportUploaded(args: map<string, string>, env: Environment, root: Node)
    requires WellFormed(env) && env.localRoot == Some(root) && env.reportSize <= MaxReportSize
    requires "job_id" in args && "test_report" in args && root.tag == "testsuite"
    requires ShowsFailures(root) == Success(true)
    ensures var r := AddResult(args, env);
            var resultId := if "result_id" in args then args["result_id"] else "";
            r.uploaded == Some(Upload(env.freshKey, Report(Paths.Relpath(args["test_report"], ServerTestDir(env.configuredTestDir), env.cwd))))
            && r.outcome == Store(args, resultId, Some(root), env.freshKey)
  {
  }

  /** Without `DIST_TEST_TEMP_DIR`, a failing local report is archived
      under its path relative to `/tmp`; with it, relative to the
      configured directory. */
  lemma UploadNamedUnderTestDir(args: map<string, string>, env: Environment, root: Node)
    requires WellFormed(env) && env.localRoot == Some(root) && env.reportSize <= MaxReportSize
    requires "job_id" in args && "test_report" in args && root.tag == "testsuite"
    requires ShowsFailures(root) == Success(true)
    ensures env.configuredTestDir.None? ==>
              AddResult(args, env).uploaded == Some(Upload(env.freshKey, Report(Paths.Relpath(args["test_report"], "/tmp", env.cwd))))
    ensures env.configuredTestDir.Some? ==>
              AddResult(args, env).uploaded
                == Some(Upload(env.freshKey, Report(Paths.Relpath(args["test_report"], env.configuredTestDir.value, env.cwd))))
  {
    FailingLocalReportUploaded(args, env, root);
  }

  /** A report fetched by key is stored under that key; one that cannot be
      fetched gives `Failure\n`. */
  lemma AddResultByKey(args: map<string, string>, env: Environment)
    requires WellFormed(env)
    requires "job_id" in args && "test_report" !in args && "key" in args
    requires "revision" in args && "hostname" in args
    ensures env.fetched.None? ==> AddResult(args, env) == AddOutcome(None, Reply("Failure\n", []))
    ensures var r := AddResult(args, env);
            r.uploaded.None? && forall i :: 0 <= i < |r.outcome.rows| ==> r.outcome.rows[i].logKey == args["key"]
  {
    var resultId := if "result_id" in args then args["result_id"] else "";
    var r := Store(args, resultId, env.fetched, args["key"]);
    if env.fetched.Some? && env.fetched.value.tag == "testsuite" {
      var n := env.fetched.value;
      var ins := Insert(Context(args["job_id"], resultId, args["revision"], args["hostname"], args["key"]),
                        Attribute(n, "name"), ElementsByTag(n, "testcase"));
      assert r == ins;
    }
  }

  // ---------------------------------------------------------------------
  // flaky_report_html

  /** A row of the per-day aggregate query. */
  datatype DayRow = DayRow(testName: string, daysAgo: int, numFailures: nat, numRuns: nat)

  /** One line of the flaky report. */
  datatype TestSummary = TestSummary(testName: string, runs7: nat, failures7: nat, runs2: nat, failures2: nat)

  /** Runs (or failures) summed over the rows, or over those of the last two
      days only. */
  function SumRuns(rows: seq<DayRow>, recentOnly: bool): nat {
    if |rows| == 0 then 0
    else (if !recentOnly || rows[0].daysAgo < 2 then rows[0].numRuns else 0) + SumRuns(rows[1..], recentOnly)
  }

  function SumFailures(rows: seq<DayRow>, recentOnly: bool): nat {
    if |rows| == 0 then 0
    else (if !recentOnly || rows[0].daysAgo < 2 then rows[0].numFailures else 0) + SumFailures(rows[1..], recentOnly)
  }

  /** The last two days are part of the week, and a test never fails more
      often than it runs when no row does. */
  lemma {:induction false} SumsBounded(rows: seq<DayRow>)
    ensures SumRuns(rows, true) <= SumRuns(rows, false)
    ensures SumFailures(rows, true) <= SumFailures(rows, false)
    ensures (forall i :: 0 <= i < |rows| ==> rows[i].numFailures <= rows[i].numRuns) ==>
              SumFailures(rows, false) <= SumRuns(rows, false) && SumFailures(rows, true) <= SumRuns(rows, true)
  {
    if |rows| > 0 {
      SumsBounded(rows[1..]);
      assert (forall i :: 0 <= i < |rows| ==> rows[i].numFailures <= rows[i].numRuns) ==>
               (forall i :: 0 <= i < |rows[1..]| ==> rows[1..][i].numFailures <= rows[1..][i].numRuns);
    }
  }

  /** Rows of the last two days, and the older rows of the week. */
  const Recent: DayRow -> bool := (r: DayRow) => r.daysAgo < 2
  const Older: DayRow -> bool := (r: DayRow) => !(r.daysAgo < 2)

  /** Sums distribute over concatenation. */
  lemma {:induction false} SumsAppend(a: seq<DayRow>, b: seq<DayRow>, recentOnly: bool)
    ensures SumRuns(a + b, recentOnly) == SumRuns(a, recentOnly) + SumRuns(b, recentOnly)
    ensures SumFailures(a + b, recentOnly) == SumFailures(a, recentOnly) + SumFailures(b, recentOnly)
  {
    if |a| > 0 {
      assert (a + b)[0] == a[0];
      assert (a + b)[1..] == a[1..] + b;
      SumsAppend(a[1..], b, recentOnly);
    } else {
      assert a + b == b;
    }
  }

  /** Summing over the last two days is summing the rows of the last two
      days. */
  lemma {:induction false} SumsRecent(rows: seq<DayRow>)
    ensures SumRuns(rows, true) == SumRuns(Seqs.Filter(rows, Recent), false)
    ensures SumFailures(rows, true) == SumFailures(Seqs.Filter(rows, Recent), false)
  {
    if |rows| > 0 {
      SumsRecent(rows[1..]);
      Seqs.FilterCons(rows, Recent);
      SumsCons(rows[0], Recent(rows[0]), Seqs.Filter(rows[1..], Recent));
    }
  }

  /** The weekly sum is the sum over the rows of the last two days plus
      the sum over the older rows. */
  lemma {:induction false} SumsByAge(rows: seq<DayRow>)
    ensures SumRuns(rows, false) == SumRuns(Seqs.Filter(rows, Recent), false) + SumRuns(Seqs.Filter(rows, Older), false)
    ensures SumFailures(rows, false) == SumFailures(Seqs.Filter(rows, Recent), false) + SumFailures(Seqs.Filter(rows, Older), false)
  {
    if |rows| > 0 {
      SumsByAge(rows[1..]);
      Seqs.FilterCons(rows, Recent);
      Seqs.FilterCons(rows, Older);
      SumsCons(rows[0], Recent(rows[0]), Seqs.Filter(rows[1..], Recent));
      SumsCons(rows[0], Older(rows[0]), Seqs.Filter(rows[1..], Older));
    }
  }

  /** A row the filter keeps in front adds its own counts to the weekly
      sums; a row it drops adds nothing. */
  lemma SumsCons(x: DayRow, keep: bool, rows: seq<DayRow>)
    ensures SumRuns((if keep then [x] else []) + rows, false) == (if keep then x.numRuns else 0) + SumRuns(rows, false)
    ensures SumFailures((if keep then [x] else []) + rows, false) == (if keep then x.numFailures else 0) + SumFailures(rows, false)
  {
    if keep {
      assert ([x] + rows)[1..] == rows;
    } else {
      assert [] + rows == rows;
    }
  }

  /** A summary carries its test's name; its two-day counts are the sums
      over the rows of the last two days, and its weekly counts add the
      older rows to them. */
  function Summarize(name: string, rows: seq<DayRow>): (s: TestSummary)
    ensures s.testName == name
    ensures s.runs2 == SumRuns(Seqs.Filter(rows, Recent), false) && s.failures2 == SumFailures(Seqs.Filter(rows, Recent), false)
    ensures s.runs7 == s.runs2 + SumRuns(Seqs.Filter(rows, Older), false)
    ensures s.failures7 == s.failures2 + SumFailures(Seqs.Filter(rows, Older), false)
    ensures s.runs2 <= s.runs7 && s.failures2 <= s.failures7
  {
    SumsBounded(rows);
    SumsRecent(rows);
    SumsByAge(rows);
    TestSummary(name, SumRuns(rows, false), SumFailures(rows, false), SumRuns(rows, true), SumFailures(rows, true))
  }

  /** The test names of some rows. */
  function Names(rows: seq<DayRow>): set<string> {
    set k | 0 <= k < |rows| :: rows[k].testName
  }

  /** The names of some groups. */
  function GroupNames(gs: seq<(string, seq<DayRow>)>): set<string> {
    set i | 0 <= i < |gs| :: gs[i].0
  }

  /** Non-empty groups, each of rows with the group's name, no two
      neighbours with the same name. */
  predicate Grouped(gs: seq<(string, seq<DayRow>)>) {
    && (forall i :: 0 <= i < |gs| ==> |gs[i].1| > 0)
    && (forall i, j :: 0 <= i < |gs| && 0 <= j < |gs[i].1| ==> gs[i].1[j].testName == gs[i].0)
    && (forall i :: 0 < i < |gs| ==> gs[i - 1].0 != gs[i].0)
  }

  /** Puts a row in front of the groups: into the first group when it has
      the row's name, into a new group otherwise. */
  function Extend(row: DayRow, gs: seq<(string, seq<DayRow>)>): (r: seq<(string, seq<DayRow>)>)
    requires Grouped(gs)
    ensures Grouped(r)
    ensures Concat(r) == [row] + Concat(gs)
    ensures |r| > 0 && r[0].0 == row.testName
    ensures GroupNames(r) == {row.testName} + GroupNames(gs)
    ensures |gs| > 0 && gs[0].0 == row.testName ==> |r| == |gs| && forall i :: 0 <= i < |r| ==> r[i].0 == gs[i].0
    ensures !(|gs| > 0 && gs[0].0 == row.testName) ==> |r| == |gs| + 1 && forall i :: 1 <= i < |r| ==> r[i].0 == gs[i - 1].0
  {
    if |gs| > 0 && gs[0].0 == row.testName then JoinFirst(row, gs) else NewGroup(row, gs)
  }

  /** The row joins the first group, which has its name. */
  function JoinFirst(row: DayRow, gs: seq<(string, seq<DayRow>)>): (r: seq<(string, seq<DayRow>)>)
    requires Grouped(gs) && |gs| > 0 && gs[0].0 == row.testName
    ensures Grouped(r)
    ensures Concat(r) == [row] + Concat(gs)
    ensures |r| == |gs| && forall i :: 0 <= i < |r| ==> r[i].0 == gs[i].0
    ensures GroupNames(r) == GroupNames(gs)
  {
    var r := [(row.testName, [row] + gs[0].1)] + gs[1..];
    ConcatCons(gs);
    ConcatCons(r);
    assert forall i :: 1 <= i < |r| ==> r[i] == gs[i];
    r
  }

  /** The row opens a group of its own in front of the others. */
  function NewGroup(row: DayRow, gs: seq<(string, seq<DayRow>)>): (r: seq<(string, seq<DayRow>)>)
    requires Grouped(gs) && !(|gs| > 0 && gs[0].0 == row.testName)
    ensures Grouped(r)
    ensures Concat(r) == [row] + Concat(gs)
    ensures |r| == |gs| + 1 && r[0].0 == row.testName && forall i :: 1 <= i < |r| ==> r[i].0 == gs[i - 1].0
    ensures GroupNames(r) == {row.testName} + GroupNames(gs)
  {
    var r := [(row.testName, [row])] + gs;
    ConcatCons(r);
    assert r[1..] == gs;
    assert forall i :: 1 <= i < |r| ==> r[i] == gs[i - 1];
    r
  }

  /** `itertools.groupby(rows, test_name)`: maximal runs of consecutive rows
      with the same test name, in order, holding every row. */
  function GroupBy(rows: seq<DayRow>): (gs: seq<(string, seq<DayRow>)>)
    ensures Grouped(gs)
    ensures Concat(gs) == rows
    ensures GroupNames(gs) == Names(rows)
    ensures |rows| > 0 ==> |gs| > 0 && gs[0].0 == rows[0].testName
  {
    if |rows| == 0 then []
    else
      assert Names(rows) == {rows[0].testName} + Names(rows[1..]) by {
        assert forall k :: 1 <= k < |rows| ==> rows[k] == rows[1..][k - 1];
      }
      assert rows == [rows[0]] + rows[1..];
      Extend(rows[0], GroupBy(rows[1..]))
  }

  function Concat(gs: seq<(string, seq<DayRow>)>): seq<DayRow> {
    if |gs| == 0 then [] else gs[0].1 + Concat(gs[1..])
  }

  lemma ConcatCons(gs: seq<(string, seq<DayRow>)>)
    requires |gs| > 0
    ensures Concat(gs) == gs[0].1 + Concat(gs[1..])
  {
  }

  /** Rows in test-name order, as the aggregate query returns them. The
      order is taken as code-point order; MySQL's `ORDER BY` follows the
      column's collation, which may order case or accents differently. */
  predicate ByName(rows: seq<DayRow>) {
    forall i, j :: 0 <= i < j < |rows| ==> LexLe(rows[i].testName, rows[j].testName)
  }

  /** No two groups share a name. */
  predicate DistinctNames(gs: seq<(string, seq<DayRow>)>) {
    forall i, j :: 0 <= i < j < |gs| ==> gs[i].0 != gs[j].0
  }

  /** The groups follow test-name order. */
  predicate OrderedNames(gs: seq<(string, seq<DayRow>)>) {
    forall i, j :: 0 <= i < j < |gs| ==> LexLe(gs[i].0, gs[j].0)
  }

  /** On rows in test-name order the groups have distinct names: one
      summary per test. */
  lemma {:induction false} GroupByDistinct(rows: seq<DayRow>)
    requires ByName(rows)
    ensures DistinctNames(GroupBy(rows))
  {
    if |rows| > 0 {
      ByNameTail(rows);
      GroupByDistinct(rows[1..]);
      GroupByDistinctStep(rows);
    }
  }

  lemma GroupByDistinctStep(rows: seq<DayRow>)
    requires ByName(rows) && |rows| > 0 && DistinctNames(GroupBy(rows[1..]))
    ensures DistinctNames(GroupBy(rows))
  {
    var rest := GroupBy(rows[1..]);
    if !(|rest| > 0 && rest[0].0 == rows[0].testName) {
      NewNameAbsent(rows);
      NewGroupDistinct(rows[0], rest);
      assert GroupBy(rows) == NewGroup(rows[0], rest);
    } else {
      JoinFirstDistinct(rows[0], rest);
      assert GroupBy(rows) == JoinFirst(rows[0], rest);
    }
  }

  /** Joining the first group keeps every group's name. */
  lemma JoinFirstDistinct(row: DayRow, rest: seq<(string, seq<DayRow>)>)
    requires Grouped(rest) && |rest| > 0 && rest[0].0 == row.testName && DistinctNames(rest)
    ensures DistinctNames(JoinFirst(row, rest))
  {
  }

  /** On rows in test-name order the groups are in test-name order too. */
  lemma {:induction false} GroupByOrdered(rows: seq<DayRow>)
    requires ByName(rows)
    ensures OrderedNames(GroupBy(rows))
  {
    if |rows| > 0 {
      ByNameTail(rows);
      GroupByOrdered(rows[1..]);
      GroupByOrderedStep(rows);
    }
  }

  lemma GroupByOrderedStep(rows: seq<DayRow>)
    requires ByName(rows) && |rows| > 0 && OrderedNames(GroupBy(rows[1..]))
    ensures OrderedNames(GroupBy(rows))
  {
    var rest := GroupBy(rows[1..]);
    var gs := GroupBy(rows);
    assert gs == Extend(rows[0], rest);
    forall i, j | 0 <= i < j < |gs|
      ensures LexLe(gs[i].0, gs[j].0)
    {
      if i == 0 {
        FirstNameFirst(rows, gs[j].0);
      } else if |rest| > 0 && rest[0].0 == rows[0].testName {
        assert gs[i].0 == rest[i].0 && gs[j].0 == rest[j].0;
      } else {
        assert gs[i].0 == rest[i - 1].0 && gs[j].0 == rest[j - 1].0;
      }
    }
  }

  /** In name order the first row's name is at or before every name. */
  lemma FirstNameFirst(rows: seq<DayRow>, x: string)
    requires ByName(rows) && |rows| > 0 && x in Names(rows)
    ensures LexLe(rows[0].testName, x)
  {
    var k :| 0 <= k < |rows| && rows[k].testName == x;
    if k == 0 {
      LexLeTotal(x, x);
    }
  }

  /** A new group whose name no later group has keeps the names distinct. */
  lemma NewGroupDistinct(row: DayRow, rest: seq<(string, seq<DayRow>)>)
    requires Grouped(rest) && !(|rest| > 0 && rest[0].0 == row.testName)
    requires DistinctNames(rest)
    requires row.testName !in GroupNames(rest)
    ensures DistinctNames(NewGroup(row, rest))
  {
    var gs := NewGroup(row, rest);
    forall i, j | 0 <= i < j < |gs|
      ensures gs[i].0 != gs[j].0
    {
      assert rest[j - 1].0 in GroupNames(rest);
    }
  }

  lemma ByNameTail(rows: seq<DayRow>)
    requires ByName(rows) && |rows| > 0
    ensures ByName(rows[1..])
  {
    assert forall k :: 0 <= k < |rows| - 1 ==> rows[1..][k] == rows[k + 1];
  }

  /** When the first row does not join the next group, its name is in no
      later group. */
  lemma NewNameAbsent(rows: seq<DayRow>)
    requires ByName(rows) && |rows| > 0
    requires var rest := GroupBy(rows[1..]); !(|rest| > 0 && rest[0].0 == rows[0].testName)
    ensures rows[0].testName !in GroupNames(GroupBy(rows[1..]))
  {
    var rest := GroupBy(rows[1..]);
    var name := rows[0].testName;
    if |rows| > 1 {
      var first := rows[1].testName;
      assert rows[1..][0] == rows[1];
      ByNameTail(rows);
      NamesAfterFirst(rows[1..]);
      assert LexLe(name, first);
      LexLeAntisymmetric(name, first);
    }
  }

  /** In name order, every name is at or after the first. */
  lemma NamesAfterFirst(rows: seq<DayRow>)
    requires ByName(rows) && |rows| > 0
    ensures forall x :: x in Names(rows) ==> LexLe(rows[0].testName, x)
  {
    LexLeTotal(rows[0].testName, rows[0].testName);
  }

  lemma LexLeAntisymmetric(a: string, b: string)
    ensures LexLe(a, b) && LexLe(b, a) ==> a == b
  {
    if LexLe(a, b) && LexLe(b, a) {
      LexLeAntisym(a, b);
    }
  }

  /** Each test's summary paired with the key the report sorts by. */
  function Summaries(gs: seq<(string, seq<DayRow>)>): (ps: seq<(TestSummary, int)>)
    ensures |ps| == |gs|
    ensures forall i :: 0 <= i < |gs| ==> ps[i].0 == Summarize(gs[i].0, gs[i].1) && ps[i].1 == ps[i].0.failures7
  {
    if |gs| == 0 then []
    else
      var s := Summarize(gs[0].0, gs[0].1);
      [(s, s.failures7 as int)] + Summaries(gs[1..])
  }

  /** The report loop as written: every test's summary is appended and the
      whole list re-sorted by weekly failures, largest first. */
  function Accumulate(results: seq<(TestSummary, int)>, ps: seq<(TestSummary, int)>): seq<(TestSummary, int)>
    decreases |ps|
  {
    if |ps| == 0 then results
    else Accumulate(Sorting.SortDesc(results + [ps[0]]), ps[1..])
  }

  /** Sorting after every append is sorting once at the end. */
  lemma {:induction false} AccumulateSorts(a: seq<(TestSummary, int)>, ps: seq<(TestSummary, int)>)
    ensures Accumulate(Sorting.SortDesc(a), ps) == Sorting.SortDesc(a + ps)
    decreases |ps|
  {
    if |ps| == 0 {
      assert a + ps == a;
    } else {
      var p := ps[0];
      calc {
        Accumulate(Sorting.SortDesc(a), ps);
        Accumulate(Sorting.SortDesc(Sorting.SortDesc(a) + [p]), ps[1..]);
        { Sorting.SortDescAgain(a, [p]); }
        Accumulate(Sorting.SortDesc(a + [p]), ps[1..]);
        { AccumulateSorts(a + [p], ps[1..]); }
        Sorting.SortDesc(a + [p] + ps[1..]);
        { assert a + [p] + ps[1..] == a + ps; }
        Sorting.SortDesc(a + ps);
      }
    }
  }

  /** `flaky_report_html`'s results: one summary per group of rows. */
  function FlakyReport(rows: seq<DayRow>): seq<TestSummary>
  {
    Sorting.Items(Accumulate([], Summaries(GroupBy(rows))))
  }

  /** The report loop gives the summaries sorted once. */
  lemma FlakyReportSortsOnce(rows: seq<DayRow>)
    ensures FlakyReport(rows) == Sorting.Items(Sorting.SortDesc(Summaries(GroupBy(rows))))
  {
    var ps := Summaries(GroupBy(rows));
    AccumulateSorts([], ps);
    assert [] + ps == ps;
  }

  /** Summaries keyed by their weekly failures, each with two-day counts
      within the weekly ones. */
  predicate Keyed(ps: seq<(TestSummary, int)>) {
    forall i :: 0 <= i < |ps| ==>
      ps[i].1 == ps[i].0.failures7 && ps[i].0.runs2 <= ps[i].0.runs7 && ps[i].0.failures2 <= ps[i].0.failures7
  }

  lemma SummariesKeyed(gs: seq<(string, seq<DayRow>)>)
    ensures Keyed(Summaries(gs))
  {
  }

  /** Keyed summaries, sorted: ordered by weekly failures, largest first,
      the same summaries, equal counts in their original order. */
  lemma SortedSummaries(r: seq<TestSummary>, ps: seq<(TestSummary, int)>)
    requires Keyed(ps) && r == Sorting.Items(Sorting.SortDesc(ps))
    ensures multiset(r) == multiset(Sorting.Items(ps))
    ensures forall i, j :: 0 <= i < j < |r| ==> r[i].failures7 >= r[j].failures7
    ensures forall k :: Sorting.WithKey(Sorting.SortDesc(ps), k) == Sorting.WithKey(ps, k)
    ensures forall i :: 0 <= i < |r| ==> r[i].runs2 <= r[i].runs7 && r[i].failures2 <= r[i].failures7
  {
    var sorted := Sorting.SortDesc(ps);
    Sorting.SortDescCorrect(ps);
    Sorting.ItemsSortDesc(ps);
    forall i | 0 <= i < |sorted|
      ensures sorted[i].1 == sorted[i].0.failures7
      ensures sorted[i].0.runs2 <= sorted[i].0.runs7 && sorted[i].0.failures2 <= sorted[i].0.failures7
    {
      assert sorted[i] in multiset(ps);
    }
  }

  /** The report lists each test's summary once, ordered by weekly
      failures, largest first, tests with equal counts in name order; in
      every summary the two-day counts are within the weekly ones. */
  lemma FlakyReportOrdered(rows: seq<DayRow>)
    requires ByName(rows)
    ensures var r := FlakyReport(rows);
            && multiset(r) == multiset(Sorting.Items(Summaries(GroupBy(rows))))
            && (forall i, j :: 0 <= i < j < |r| ==> r[i].failures7 >= r[j].failures7)
            && (forall i, j :: 0 <= i < j < |r| ==> r[i].testName != r[j].testName)
            && (forall i, j :: 0 <= i < j < |r| && r[i].failures7 == r[j].failures7 ==> LexLe(r[i].testName, r[j].testName))
            && (forall i :: 0 <= i < |r| ==> r[i].runs2 <= r[i].runs7 && r[i].failures2 <= r[i].failures7)
  {
    var gs := GroupBy(rows);
    var ps := Summaries(gs);
    var r := FlakyReport(rows);
    FlakyReportSortsOnce(rows);
    SummariesKeyed(gs);
    SortedSummaries(r, ps);
    GroupByDistinct(rows);
    GroupByOrdered(rows);
    SummaryNames(gs, ps);
    DistinctTestNames(Sorting.Items(ps), r);
    TiesByName(ps, r);
  }

  /** The summaries carry the groups' names, so they share their order and
      distinctness. */
  lemma SummaryNames(gs: seq<(string, seq<DayRow>)>, ps: seq<(TestSummary, int)>)
    requires ps == Summaries(gs) && DistinctNames(gs) && OrderedNames(gs)
    ensures forall i, j :: 0 <= i < j < |ps| ==> ps[i].0.testName != ps[j].0.testName
    ensures forall i, j :: 0 <= i < j < |ps| ==> LexLe(ps[i].0.testName, ps[j].0.testName)
  {
  }

  /** A rearrangement of summaries with distinct names has distinct names. */
  lemma DistinctTestNames(s: seq<TestSummary>, t: seq<TestSummary>)
    requires multiset(t) == multiset(s)
    requires forall i, j :: 0 <= i < j < |s| ==> s[i].testName != s[j].testName
    ensures forall i, j :: 0 <= i < j < |t| ==> t[i].testName != t[j].testName
  {
    assert Seqs.Distinct(s);
    forall i, j | 0 <= i < j < |t|
      ensures t[i].testName != t[j].testName
    {
      Seqs.PermutationDistinct(s, t, i, j);
      assert t[i] in multiset(s) && t[j] in multiset(s);
      var a :| 0 <= a < |s| && s[a] == t[i];
      var b :| 0 <= b < |s| && s[b] == t[j];
    }
  }

  /** The stable sort keeps summaries of equal weekly failures in the
      name order of the groups. */
  lemma TiesByName(ps: seq<(TestSummary, int)>, r: seq<TestSummary>)
    requires Keyed(ps) && r == Sorting.Items(Sorting.SortDesc(ps))
    requires forall i, j :: 0 <= i < j < |ps| ==> LexLe(ps[i].0.testName, ps[j].0.testName)
    ensures forall i, j :: 0 <= i < j < |r| && r[i].failures7 == r[j].failures7 ==> LexLe(r[i].testName, r[j].testName)
  {
    var sorted := Sorting.SortDesc(ps);
    Sorting.SortDescCorrect(ps);
    Sorting.StableTies(ps, sorted, (a: TestSummary, b: TestSummary) => LexLe(a.testName, b.testName));
    forall i | 0 <= i < |sorted|
      ensures sorted[i].1 == sorted[i].0.failures7
    {
      assert sorted[i] in multiset(ps);
    }
  }

  // ---------------------------------------------------------------------
  // recently_failed_html

  /** The `is_new_date` flag of each failure, given the day of each row and
      the previous row's day (`None` before the first). */
  function NewDateFlags(days: seq<int>, prev: Option<int>): (flags: seq<bool>)
    ensures |flags| == |days|
    ensures |days| > 0 ==> flags[0] == (prev != Some(days[0]))
    ensures forall i :: 0 < i < |days| ==> flags[i] == (days[i] != days[i - 1])
  {
    if |days| == 0 then []
    else
      var rest := NewDateFlags(days[1..], Some(days[0]));
      assert forall i :: 0 < i < |days| - 1 ==> days[1..][i] == days[i + 1] && days[1..][i - 1] == days[i];
      [prev != Some(days[0])] + rest
  }

  /** `recently_failed_html`'s flags for rows in query order. */
  function NewDates(days: seq<int>): (flags: seq<bool>)
    ensures |flags| == |days| && (|days| > 0 ==> flags[0])
  {
    NewDateFlags(days, None)
  }

  function DaySet(days: seq<int>): set<int> {
    set i | 0 <= i < |days| :: days[i]
  }

  function Breaks(flags: seq<bool>): nat {
    if |flags| == 0 then 0 else (if flags[0] then 1 else 0) + Breaks(flags[1..])
  }

  /** On rows newest first, as the query returns them, the page draws one
      date heading per distinct day (not counting the previous row's). */
  lemma {:induction false} NewDateFlagsCount(days: seq<int>, prev: Option<int>)
    requires forall i, j :: 0 <= i < j < |days| ==> days[i] >= days[j]
    requires prev.Some? ==> forall i :: 0 <= i < |days| ==> days[i] <= prev.value
    ensures Breaks(NewDateFlags(days, prev)) == |DaySet(days) - (if prev.Some? then {prev.value} else {})|
  {
    if |days| > 0 {
      var d0 := days[0];
      var rest := days[1..];
      var tail := NewDateFlags(rest, Some(d0));
      assert Breaks(tail) == |DaySet(rest) - {d0}| by {
        assert forall i, j :: 0 <= i < j < |rest| ==> rest[i] == days[i + 1] && rest[j] == days[j + 1];
        NewDateFlagsCount(rest, Some(d0));
      }
      assert Breaks(NewDateFlags(days, prev)) == (if prev != Some(d0) then 1 else 0) + Breaks(tail) by {
        var flags := NewDateFlags(days, prev);
        assert flags == [prev != Some(d0)] + tail;
        assert flags[1..] == tail;
      }
      var prevSet: set<int> := if prev.Some? then {prev.value} else {};
      assert |DaySet(days) - prevSet| == (if prev != Some(d0) then 1 else 0) + |DaySet(rest) - {d0}| by {
        DaySetCons(days);
        DaySetMinus(d0, DaySet(rest), prev);
      }
    }
  }

  lemma DaySetCons(days: seq<int>)
    requires |days| > 0
    requires forall i, j :: 0 <= i < j < |days| ==> days[i] >= days[j]
    ensures DaySet(days) == {days[0]} + DaySet(days[1..])
    ensures forall d :: d in DaySet(days[1..]) ==> d <= days[0]
  {
    assert forall k :: 1 <= k < |days| ==> days[k] == days[1..][k - 1];
    assert forall k :: 0 <= k < |days| - 1 ==> days[1..][k] == days[k + 1];
  }

  /** Counting the newest day once more, unless it is the previous row's
      day. */
  lemma DaySetMinus(d0: int, rest: set<int>, prev: Option<int>)
    requires forall d :: d in rest ==> d <= d0
    requires prev.Some? ==> d0 <= prev.value
    ensures var prevSet: set<int> := if prev.Some? then {prev.value} else {};
            |({d0} + rest) - prevSet| == (if prev != Some(d0) then 1 else 0) + |rest - {d0}|
  {
    var prevSet: set<int> := if prev.Some? then {prev.value} else {};
    if prev == Some(d0) {
      assert ({d0} + rest) - prevSet == rest - {d0};
    } else {
      assert ({d0} + rest) - prevSet == {d0} + (rest - {d0});
    }
  }

  /** With no previous row, the headings are exactly the distinct days. */
  lemma NewDatesCount(days: seq<int>)
    requires forall i, j :: 0 <= i < j < |days| ==> days[i] >= days[j]
    ensures Breaks(NewDates(days)) == |DaySet(days)|
  {
    NewDateFlagsCount(days, None);
    assert DaySet(days) - {} == DaySet(days);
  }
}
