/** The older slave (`slave.py`). Its stderr parsing, archive naming and
    end-of-run decisions are those of `Slave`; it differs in checking the
    containment of archived files on every platform, in keeping no retry
    cache, and in a one-second load sampler whose ring buffer feeds a load
    metric. */
module LegacySlave {
  import opened Wrappers
  import opened Seqs
  import DistTest
  import Paths
  import Slave

  /** `parse_test_dir`'s loop: every matching line replaces the directory
      found so far. */
  function ScanLines(lines: seq<string>, found: Option<string>): (r: Option<string>)
    ensures r.None? ==> found.None?
    decreases |lines|
  {
    if |lines| == 0 then found
    else ScanLines(lines[1..], if Slave.IsLeakLine(lines[0]) then Slave.MatchLeakLine(lines[0]) else found)
  }

  /** `parse_test_dir`: the directory found by the scan, when it exists. */
  function ParseTestDir(lines: seq<string>, pathExists: string -> bool): (r: Option<string>)
    ensures r.Some? ==> pathExists(r.value)
  {
    match ScanLines(lines, None)
    case None => None
    case Some(dir) => if pathExists(dir) then Some(dir) else None
  }

  /** The scan ends on the last matching line, if any. */
  lemma {:induction false} ScanLinesIsLastMatch(lines: seq<string>, found: Option<string>)
    ensures ScanLines(lines, found) == (if Slave.LastMatch(lines).Some? then Slave.LastMatch(lines) else found)
    decreases |lines|
  {
    if |lines| > 0 {
      var next := if Slave.IsLeakLine(lines[0]) then Slave.MatchLeakLine(lines[0]) else found;
      ScanLinesIsLastMatch(lines[1..], next);
      LastMatchCons(lines);
    }
  }

  /** The last match of a list is that of its tail, or else its head's. */
  lemma LastMatchCons(lines: seq<string>)
    requires |lines| > 0
    ensures Slave.LastMatch(lines) ==
      (if Slave.LastMatch(lines[1..]).Some? then Slave.LastMatch(lines[1..])
       else if Slave.IsLeakLine(lines[0]) then Slave.MatchLeakLine(lines[0]) else None)
  {
    LastIndexTail(lines, Slave.IsLeakLine);
  }

  /** Both slaves find the same test directory. */
  lemma ParseTestDirAgrees(lines: seq<string>, pathExists: string -> bool)
    ensures ParseTestDir(lines, pathExists) == Slave.ParseTestDir(lines, pathExists)
  {
    ScanLinesIsLastMatch(lines, None);
  }

  /** The archive member name: leading slashes are dropped one at a time. */
  function StripSlashes(name: string): (r: string)
    ensures |r| == 0 || r[0] != '/'
    decreases |name|
  {
    if |name| > 0 && name[0] == '/' then StripSlashes(name[1..]) else name
  }

  function ArchiveName(path: string, testDir: string, cwd: string): (n: string)
    ensures |n| == 0 || n[0] != '/'
  {
    StripSlashes(Paths.Relpath(path, testDir, cwd))
  }

  /** Both slaves name archive members alike. */
  lemma ArchiveNameAgrees(path: string, testDir: string, cwd: string)
    ensures ArchiveName(path, testDir, cwd) == Slave.ArchiveName(path, testDir, cwd)
  {
    Paths.RelpathNotAbsolute(path, testDir, cwd);
  }

  /** The end of `run_task`: whether the logs are kept and whether a retry
      is submitted. */
  function RunDecisions(rc: int, attempt: int, maxRetries: int): (r: (bool, bool))
    ensures r.0 <==> rc != 0
    ensures r.1 ==> r.0
  {
    var keepLogs := rc != 0;
    (keepLogs, keepLogs && attempt < maxRetries)
  }

  /** Both slaves keep logs and retry alike. */
  lemma RunDecisionsAgree(t: DistTest.Task, rc: int, stdout: string, stderr: string, archive: Option<string>)
    ensures var o := Slave.FinishTask(t, rc, stdout, stderr, archive); var r := RunDecisions(rc, t.attempt, t.maxRetries);
      o.retry == r.1
      && (r.0 ==> o.finished == DistTest.MarkTaskFinished(t, Some(stdout), Some(stderr), archive))
      && (!r.0 ==> o.finished == DistTest.MarkTaskFinished(t, None, None, archive))
  {
  }

  /** `make_archive`: a match outside the test directory is always
      skipped. */
  function ArchivePlan(testDir: Option<string>, globs: Option<seq<string>>,
                       matches: seq<(string, nat)>): (a: Slave.Archive)
    ensures a.NoArchive? <==> testDir.None? || globs.None? || |globs.value| == 0
                              || |Slave.KeptFiles(matches, testDir.value, true)| == 0
    ensures a.TooBig? <==> !a.NoArchive? && Slave.KeptSize(matches, testDir.value, true) > Slave.MaxArchiveSize
    ensures a.TooBig? ==> a.totalSize == Slave.KeptSize(matches, testDir.value, true)
    ensures a.Members? ==> forall f :: f in a.files <==>
              exists i :: 0 <= i < |matches| && matches[i].0 == f
                          && |testDir.value| <= |f| && f[..|testDir.value|] == testDir.value
  {
    Slave.ArchivePlan(testDir, globs, matches, true)
  }

  /** Matches inside the test directory are archived alike by both slaves,
      whatever the platform. */
  lemma ArchivePlanInsideTestDir(testDir: string, globs: Option<seq<string>>,
                                 matches: seq<(string, nat)>, checkContainment: bool)
    requires forall i :: 0 <= i < |matches| ==>
               |testDir| <= |matches[i].0| && matches[i].0[..|testDir|] == testDir
    ensures ArchivePlan(Some(testDir), globs, matches) == Slave.ArchivePlan(Some(testDir), globs, matches, checkContainment)
  {
    KeptAlike(matches, testDir, checkContainment);
  }

  lemma {:induction false} KeptAlike(matches: seq<(string, nat)>, testDir: string, checkContainment: bool)
    requires forall i :: 0 <= i < |matches| ==>
               |testDir| <= |matches[i].0| && matches[i].0[..|testDir|] == testDir
    ensures Slave.KeptSize(matches, testDir, true) == Slave.KeptSize(matches, testDir, checkContainment)
    ensures Slave.KeptFiles(matches, testDir, true) == Slave.KeptFiles(matches, testDir, checkContainment)
  {
    if |matches| > 0 {
      assert forall i :: 1 <= i < |matches| ==> matches[1..][i - 1] == matches[i];
      KeptAlike(matches[1..], testDir, checkContainment);
    }
  }

  // ---------------------------------------------------------------------
  // `run_metrics_thread`

  /** `NUM_SECONDS_LOAD_AVERAGE`: the window of the load average. */
  const Window: nat := 30

  /** Metrics are submitted every this many samples. */
  const SubmitEvery: nat := 10

  /** The sampler's state: the ring buffer and the number of samples taken. */
  datatype Sampler = Sampler(ring: seq<bool>, samples: nat)

  function NewSampler(): (s: Sampler)
    ensures |s.ring| == Window && s.samples == 0
    ensures forall k :: 0 <= k < Window ==> !s.ring[k]
  {
    Sampler(seq(Window, _ => false), 0)
  }

  function IsTrue(b: bool): bool {
    b
  }

  /** The number of busy slots; the load is this out of `Window`. */
  function BusySlots(s: Sampler): nat {
    Count(s.ring, IsTrue)
  }

  /** The ring update of one iteration: the busy flag goes into slot
      `samples % Window` and the counter advances. */
  function Record(s: Sampler, busy: bool): (r: Sampler)
    requires |s.ring| == Window
    ensures |r.ring| == Window && r.samples == s.samples + 1
    ensures r.ring[s.samples % 30] == busy
    ensures forall k :: 0 <= k < Window && k != s.samples % 30 ==> r.ring[k] == s.ring[k]
  {
    Sampler(s.ring[s.samples % 30 := busy], s.samples + 1)
  }

  /** One iteration of `run_metrics_thread`: the ring update and, on every
      `SubmitEvery`-th sample, the busy slot count to report. */
  function Sample(s: Sampler, busy: bool): (r: (Sampler, Option<nat>))
    requires |s.ring| == Window
    ensures r.0 == Record(s, busy)
    ensures r.1.Some? <==> (s.samples + 1) % SubmitEvery == 0
    ensures r.1.Some? ==> r.1.value == BusySlots(r.0) && r.1.value <= Window
  {
    var t := Record(s, busy);
    (t, if t.samples % SubmitEvery == 0 then Some(BusySlots(t)) else None)
  }

  /** The sampler after taking the samples `history`, oldest first. */
  function Run(history: seq<bool>): (s: Sampler)
    ensures |s.ring| == Window && s.samples == |history|
  {
    if |history| == 0 then NewSampler()
    else Record(Run(history[..|history| - 1]), history[|history| - 1])
  }

  /** The most recent sample index below `n` that maps to slot `k`. */
  function Latest(n: nat, k: nat): (j: nat)
    requires k < 30 && k < n
    ensures j < n && j % 30 == k && n - 30 <= j
  {
    k + 30 * ((n - 1 - k) / 30)
  }

  /** Slot `k` holds the latest sample written to it, or false when none
      was. */
  lemma {:induction false} RunSlot(history: seq<bool>, k: nat)
    requires k < 30
    ensures Run(history).ring[k] == (if k < |history| then history[Latest(|history|, k)] else false)
  {
    var n := |history|;
    if n > 0 {
      var init := history[..n - 1];
      RunSlot(init, k);
      RunSlotStep(history, k);
    }
  }

  /** One more sample either overwrites slot `k` or leaves it alone. */
  lemma RunSlotStep(history: seq<bool>, k: nat)
    requires k < 30 && |history| > 0
    requires var init := history[..|history| - 1];
      Run(init).ring[k] == (if k < |init| then init[Latest(|init|, k)] else false)
    ensures Run(history).ring[k] == (if k < |history| then history[Latest(|history|, k)] else false)
  {
    var n := |history|;
    var init := history[..n - 1];
    if k == (n - 1) % 30 {
      LatestUnique(n, k, n - 1);
    } else if k < n - 1 {
      LatestStep(n, k);
      assert init[Latest(n - 1, k)] == history[Latest(n, k)];
    } else {
      assert k >= n;
    }
  }

  lemma LatestStep(n: nat, k: nat)
    requires k < 30 && k < n - 1 && k != (n - 1) % 30
    ensures Latest(n, k) == Latest(n - 1, k)
  {
    var j := Latest(n - 1, k);
    assert j != n - 1;
    LatestUnique(n, k, j);
  }

  /** The latest index below `n` for a slot is the one in the last window. */
  lemma LatestUnique(n: nat, k: nat, j: nat)
    requires k < 30 && k < n
    requires j < n && j % 30 == k && n - 30 <= j
    ensures Latest(n, k) == j
  {
    var q := j / 30;
    assert j == k + 30 * q;
    assert n - 1 - k == 30 * q + (n - 1 - j);
    assert (n - 1 - k) / 30 == q;
  }

  lemma ModUnique(a: nat, q: nat, m: nat)
    requires a == 30 * q + m && m < 30
    ensures a % 30 == m && a / 30 == q
  {
  }

  /** The slot of the `i`-th sample of the last window. */
  lemma WindowSlot(n: nat, i: nat)
    requires n >= 30 && i < 30
    ensures var r := n % 30;
      (n - 30 + i) % 30 == (if i < 30 - r then r + i else i - (30 - r))
  {
    var q := n / 30;
    var r := n % 30;
    ModUnique(n, q, r);
    if i < 30 - r {
      ModUnique(n - 30 + i, q - 1, r + i);
    } else {
      ModUnique(n - 30 + i, q, i - (30 - r));
    }
  }

  /** Once a full window has been sampled, the ring is a rotation of the
      last `Window` samples, starting at the next slot to be written. */
  lemma RingHoldsLastWindow(history: seq<bool>)
    requires |history| >= Window
    ensures var ring := Run(history).ring; var r := |history| % 30;
      ring[r..] + ring[..r] == history[|history| - 30..]
  {
    var ring := Run(history).ring;
    forall j | |history| - 30 <= j < |history|
      ensures ring[j % 30] == history[j]
    {
      WindowSample(history, j);
    }
    Rotation(ring, history);
  }

  /** A ring whose slots hold the last window's samples is that window
      rotated. */
  lemma Rotation(ring: seq<bool>, history: seq<bool>)
    requires |ring| == 30 && |history| >= 30
    requires forall j :: |history| - 30 <= j < |history| ==> ring[j % 30] == history[j]
    ensures var r := |history| % 30; ring[r..] + ring[..r] == history[|history| - 30..]
  {
    var n := |history|;
    var r := n % 30;
    var rotated := ring[r..] + ring[..r];
    var last := history[n - 30..];
    forall i | 0 <= i < 30
      ensures rotated[i] == last[i]
    {
      var k := if i < 30 - r then r + i else i - (30 - r);
      assert rotated[i] == ring[k];
      WindowSlot(n, i);
      assert last[i] == history[n - 30 + i];
    }
  }

  /** A sample of the last window is still in its slot. */
  lemma WindowSample(history: seq<bool>, j: nat)
    requires |history| - 30 <= j < |history|
    ensures Run(history).ring[j % 30] == history[j]
  {
    var k := j % 30;
    LatestUnique(|history|, k, j);
    RunSlot(history, k);
  }

  /** The reported load is the share of busy samples among the last
      `Window` ones. */
  lemma LoadIsWindowShare(history: seq<bool>)
    requires |history| >= Window
    ensures BusySlots(Run(history)) == Count(history[|history| - 30..], IsTrue)
  {
    RingHoldsLastWindow(history);
    CountRotation(Run(history).ring, |history| % 30, IsTrue);
  }
}
