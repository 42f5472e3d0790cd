/** The test slave (`infra/slave.py`): finding the leaked test directory in
    run_isolated's stderr, the artifact archive plan, the retry cache that
    keeps a slave from re-running its own retries, and the run decisions. */
module Slave {
  import opened Wrappers
  import opened Strings
  import opened DistTest
  import Paths
  import Seqs

  // ---------------------------------------------------------------------
  // `parse_test_dir`: the pattern
  //   WARNING[ ]+[\d]+[ ]+run_isolated.*: Deliberately leaking (.*) for later examination
  // matched at the start of a line, with greedy `.*`.

  const Leaking: string := ": Deliberately leaking "
  const ForLater: string := " for later examination"

  /** `lit` occurs in `s` at position `i`. */
  predicate At(s: string, i: int, lit: string) {
    0 <= i && i + |lit| <= |s| && s[i..i + |lit|] == lit
  }

  /** The length of the run of characters satisfying `p` from `i` on. */
  function Run(s: string, i: nat, p: char -> bool): (n: nat)
    requires i <= |s|
    ensures i + n <= |s|
    ensures forall k :: i <= k < i + n ==> p(s[k])
    ensures i + n == |s| || !p(s[i + n])
    decreases |s| - i
  {
    if i == |s| || !p(s[i]) then 0 else 1 + Run(s, i + 1, p)
  }

  predicate IsSpaceChar(c: char) { c == ' ' }

  /** The largest `k` in `[lo, hi]` at which `lit` occurs, or -1. */
  function LastAt(s: string, lit: string, lo: int, hi: int): (k: int)
    ensures k == -1 || (lo <= k <= hi && At(s, k, lit))
    ensures forall j :: lo <= j <= hi && k < j ==> !At(s, j, lit)
    decreases hi - lo + 1
  {
    if hi < lo then -1 else if At(s, hi, lit) then hi else LastAt(s, lit, lo, hi - 1)
  }

  /** The greedy `.*` before `Leaking`: the last position at or after `lo`
      (and at most `hi`) where `Leaking` occurs with `ForLater` somewhere
      after it, or -1. */
  function LastLeak(s: string, lo: int, hi: int): (k: int)
    ensures k == -1 || (lo <= k <= hi && At(s, k, Leaking) && LastAt(s, ForLater, k + |Leaking|, |s|) >= 0)
    ensures forall j :: lo <= j <= hi && k < j ==> !(At(s, j, Leaking) && LastAt(s, ForLater, j + |Leaking|, |s|) >= 0)
    decreases hi - lo + 1
  {
    if hi < lo then -1
    else if At(s, hi, Leaking) && LastAt(s, ForLater, hi + |Leaking|, |s|) >= 0 then hi
    else LastLeak(s, lo, hi - 1)
  }

  /** Where the text after `run_isolated` starts, if the line has the
      `WARNING <spaces> <digits> <spaces> run_isolated` header. */
  function HeaderEnd(line: string): (r: Option<nat>)
    ensures r.Some? ==> r.value <= |line|
  {
    if !At(line, 0, "WARNING") then None
    else
      var n1 := Run(line, 7, IsSpaceChar);
      var n2 := Run(line, 7 + n1, IsDigit);
      var n3 := Run(line, 7 + n1 + n2, IsSpaceChar);
      var p := 7 + n1 + n2 + n3;
      if n1 == 0 || n2 == 0 || n3 == 0 || !At(line, p, "run_isolated") then None
      else Some(p + |"run_isolated"|)
  }

  /** `pattern.match(line).group(1)`, or None when the line does not
      match. */
  function MatchLeakLine(line: string): (r: Option<string>)
    ensures r.Some? ==> exists i, j :: 0 <= i && i + |Leaking| <= j && At(line, i, Leaking) && At(line, j, ForLater)
                                       && r.value == line[i + |Leaking|..j]
  {
    match HeaderEnd(line)
    case None => None
    case Some(q) =>
      var i := LastLeak(line, q, |line|);
      if i < 0 then None
      else
        var j := LastAt(line, ForLater, i + |Leaking|, |line|);
        Some(line[i + |Leaking|..j])
  }

  /** The line run_isolated prints for a leaked directory. */
  function LeakLine(spaces1: nat, pid: string, spaces2: nat, location: string, dir: string): string {
    Header(spaces1, pid, spaces2) + location + Leaking + dir + ForLater
  }

  function SpacesOf(n: nat): (s: string)
    ensures |s| == n && forall i :: 0 <= i < n ==> s[i] == ' '
  {
    if n == 0 then "" else " " + SpacesOf(n - 1)
  }

  function Header(spaces1: nat, pid: string, spaces2: nat): string {
    "WARNING" + SpacesOf(spaces1) + pid + SpacesOf(spaces2) + "run_isolated"
  }

  lemma {:induction false} RunShift(w: string, x: string, i: nat, p: char -> bool)
    requires i <= |x|
    ensures Run(w + x, |w| + i, p) == Run(x, i, p)
    decreases |x| - i
  {
    if i < |x| {
      assert (w + x)[|w| + i] == x[i];
      if p(x[i]) {
        RunShift(w, x, i + 1, p);
      }
    }
  }

  lemma {:induction false} RunPrefix(u: string, v: string, p: char -> bool)
    requires forall k :: 0 <= k < |u| ==> p(u[k])
    requires |v| == 0 || !p(v[0])
    ensures Run(u + v, 0, p) == |u|
  {
    if |u| == 0 {
      assert u + v == v;
    } else {
      var tail := u[1..];
      assert u + v == [u[0]] + (tail + v);
      RunPrefix(tail, v, p);
      RunShift([u[0]], tail + v, 0, p);
    }
  }

  lemma HeaderEndOfHeader(spaces1: nat, pid: string, spaces2: nat, rest: string)
    requires spaces1 > 0 && spaces2 > 0 && |pid| > 0 && AllDigits(pid)
    ensures HeaderEnd(Header(spaces1, pid, spaces2) + rest) == Some(|Header(spaces1, pid, spaces2)|)
  {
    HeaderFacts(spaces1, pid, spaces2, rest);
    HeaderEndFromRuns(Header(spaces1, pid, spaces2), rest, spaces1, |pid|, spaces2);
  }

  /** A line with the three runs in place ends its header after `run_isolated`. */
  lemma HeaderEndFromRuns(h: string, rest: string, n1: nat, n2: nat, n3: nat)
    requires n1 > 0 && n2 > 0 && n3 > 0 && |h| == 7 + n1 + n2 + n3 + 12
    requires At(h + rest, 0, "WARNING") && Run(h + rest, 7, IsSpaceChar) == n1
    requires Run(h + rest, 7 + n1, IsDigit) == n2 && Run(h + rest, 7 + n1 + n2, IsSpaceChar) == n3
    requires At(h + rest, 7 + n1 + n2 + n3, "run_isolated")
    ensures HeaderEnd(h + rest) == Some(|h|)
  {
  }

  lemma RunAfter(w: string, u: string, v: string, p: char -> bool)
    requires forall k :: 0 <= k < |u| ==> p(u[k])
    requires |v| == 0 || !p(v[0])
    ensures Run(w + u + v, |w|, p) == |u|
  {
    assert w + u + v == w + (u + v);
    RunShift(w, u + v, 0, p);
    RunPrefix(u, v, p);
  }

  lemma HeaderFacts(spaces1: nat, pid: string, spaces2: nat, rest: string)
    requires spaces1 > 0 && spaces2 > 0 && |pid| > 0 && AllDigits(pid)
    ensures var line := Header(spaces1, pid, spaces2) + rest;
      At(line, 0, "WARNING")
      && Run(line, 7, IsSpaceChar) == spaces1
      && Run(line, 7 + spaces1, IsDigit) == |pid|
      && Run(line, 7 + spaces1 + |pid|, IsSpaceChar) == spaces2
      && At(line, 7 + spaces1 + |pid| + spaces2, "run_isolated")
      && |Header(spaces1, pid, spaces2)| == 7 + spaces1 + |pid| + spaces2 + 12
  {
    HeaderRuns1(spaces1, pid, spaces2, rest);
    HeaderRuns2(spaces1, pid, spaces2, rest);
    HeaderRuns3(spaces1, pid, spaces2, rest);
  }

  lemma HeaderRuns1(spaces1: nat, pid: string, spaces2: nat, rest: string)
    requires |pid| > 0 && AllDigits(pid)
    ensures var line := Header(spaces1, pid, spaces2) + rest;
      Run(line, 7, IsSpaceChar) == spaces1 && At(line, 0, "WARNING")
  {
    var line := Header(spaces1, pid, spaces2) + rest;
    var tail := pid + SpacesOf(spaces2) + "run_isolated" + rest;
    assert line == "WARNING" + SpacesOf(spaces1) + tail;
    RunAfter("WARNING", SpacesOf(spaces1), tail, IsSpaceChar);
    assert line[..7] == "WARNING";
  }

  lemma HeaderRuns2(spaces1: nat, pid: string, spaces2: nat, rest: string)
    requires spaces2 > 0 && AllDigits(pid)
    ensures Run(Header(spaces1, pid, spaces2) + rest, 7 + spaces1, IsDigit) == |pid|
  {
    var line := Header(spaces1, pid, spaces2) + rest;
    var tail := SpacesOf(spaces2) + "run_isolated" + rest;
    assert line == "WARNING" + SpacesOf(spaces1) + pid + tail;
    RunAfter("WARNING" + SpacesOf(spaces1), pid, tail, IsDigit);
  }

  lemma HeaderRuns3(spaces1: nat, pid: string, spaces2: nat, rest: string)
    ensures var line := Header(spaces1, pid, spaces2) + rest;
      Run(line, 7 + spaces1 + |pid|, IsSpaceChar) == spaces2
      && At(line, 7 + spaces1 + |pid| + spaces2, "run_isolated")
  {
    var line := Header(spaces1, pid, spaces2) + rest;
    var w := "WARNING" + SpacesOf(spaces1) + pid;
    var tail := "run_isolated" + rest;
    assert line == w + SpacesOf(spaces2) + tail;
    RunAfter(w, SpacesOf(spaces2), tail, IsSpaceChar);
    assert line[|w| + spaces2..|w| + spaces2 + 12] == tail[..12];
  }

  lemma ForLaterAtEnd(p: string, dir: string)
    ensures var line := p + Leaking + dir + ForLater;
      LastAt(line, ForLater, |p| + |Leaking|, |line|) == |line| - |ForLater|
      && line[|p| + |Leaking|..|line| - |ForLater|] == dir
  {
    var line := p + Leaking + dir + ForLater;
    assert line[|line| - |ForLater|..] == ForLater;
    assert At(line, |line| - |ForLater|, ForLater);
  }

  lemma NoColonAfterLeak(p: string, dir: string)
    requires ':' !in dir
    ensures var line := p + Leaking + dir + ForLater;
      forall k :: |p| < k < |line| ==> line[k] != ':'
  {
    var line := p + Leaking + dir + ForLater;
    var j0 := |p| + |Leaking| + |dir|;
    forall k | |p| < k < |line|
      ensures line[k] != ':'
    {
      if k < |p| + |Leaking| {
        assert line[k] == Leaking[k - |p|];
      } else if k < j0 {
        assert line[k] == dir[k - |p| - |Leaking|];
      } else {
        assert line[k] == ForLater[k - j0];
      }
    }
  }

  lemma LastLeakOfLeak(p: string, dir: string, lo: int)
    requires ':' !in dir && 0 <= lo <= |p|
    ensures var line := p + Leaking + dir + ForLater;
      LastLeak(line, lo, |line|) == |p|
  {
    var line := p + Leaking + dir + ForLater;
    ForLaterAtEnd(p, dir);
    NoColonAfterLeak(p, dir);
    assert line[|p|..|p| + |Leaking|] == Leaking;
    assert At(line, |p|, Leaking);
    var k := LastLeak(line, lo, |line|);
    assert k >= |p|;
    assert At(line, k, Leaking);
    assert line[k..k + |Leaking|][0] == ':';
  }

  /** The greedy pattern recovers the leaked directory from the line
      run_isolated prints, whatever the spacing and process id, as long as
      neither the source location nor the directory holds a ':'. */
  lemma MatchLeakLineOfLeakLine(spaces1: nat, pid: string, spaces2: nat, location: string, dir: string)
    requires spaces1 > 0 && spaces2 > 0 && |pid| > 0 && AllDigits(pid)
    requires ':' !in dir
    ensures MatchLeakLine(LeakLine(spaces1, pid, spaces2, location, dir)) == Some(dir)
  {
    var h := Header(spaces1, pid, spaces2);
    var p := h + location;
    HeaderEndOfLeakLine(spaces1, pid, spaces2, location, dir);
    LastLeakOfLeak(p, dir, |h|);
    ForLaterAtEnd(p, dir);
  }

  lemma HeaderEndOfLeakLine(spaces1: nat, pid: string, spaces2: nat, location: string, dir: string)
    requires spaces1 > 0 && spaces2 > 0 && |pid| > 0 && AllDigits(pid)
    ensures HeaderEnd(LeakLine(spaces1, pid, spaces2, location, dir)) == Some(|Header(spaces1, pid, spaces2)|)
  {
    var rest := location + Leaking + dir + ForLater;
    assert LeakLine(spaces1, pid, spaces2, location, dir) == Header(spaces1, pid, spaces2) + rest;
    HeaderEndOfHeader(spaces1, pid, spaces2, rest);
  }

  predicate IsLeakLine(line: string) {
    MatchLeakLine(line).Some?
  }

  /** The captured path of the last matching line, if any line matches. */
  function LastMatch(lines: seq<string>): (r: Option<string>)
    ensures r.None? <==> forall i :: 0 <= i < |lines| ==> !IsLeakLine(lines[i])
    ensures r.Some? ==> exists i :: 0 <= i < |lines| && MatchLeakLine(lines[i]) == r
                          && forall j :: i < j < |lines| ==> !IsLeakLine(lines[j])
  {
    var k := Seqs.LastIndex(lines, IsLeakLine);
    if k < 0 then None else MatchLeakLine(lines[k])
  }

  /** `parse_test_dir`: the directory named by the last matching line of
      stderr (given as its lines), provided it exists; `exists` stands for
      `os.path.exists`. */
  function ParseTestDir(lines: seq<string>, pathExists: string -> bool): (r: Option<string>)
    ensures r.Some? <==> LastMatch(lines).Some? && pathExists(LastMatch(lines).value)
    ensures r.Some? ==> r == LastMatch(lines)
  {
    match LastMatch(lines)
    case None => None
    case Some(dir) => if pathExists(dir) then Some(dir) else None
  }

  /** A leak line after every other matching line decides the directory,
      whatever came before it. */
  lemma ParseTestDirTakesLastLeak(before: seq<string>, spaces1: nat, pid: string, spaces2: nat,
                                  location: string, dir: string, after: seq<string>, pathExists: string -> bool)
    requires spaces1 > 0 && spaces2 > 0 && |pid| > 0 && AllDigits(pid) && ':' !in dir
    requires forall j :: 0 <= j < |after| ==> !IsLeakLine(after[j])
    requires pathExists(dir)
    ensures ParseTestDir(before + [LeakLine(spaces1, pid, spaces2, location, dir)] + after, pathExists) == Some(dir)
  {
    var line := LeakLine(spaces1, pid, spaces2, location, dir);
    var lines := before + [line] + after;
    MatchLeakLineOfLeakLine(spaces1, pid, spaces2, location, dir);
    Seqs.LastIndexOf(before, line, after, IsLeakLine);
    assert lines[|before|] == line;
    assert LastMatch(lines) == Some(dir);
  }

  // ---------------------------------------------------------------------
  // `make_archive`

  /** 200 MiB, the largest uncompressed artifact total archived. */
  const MaxArchiveSize: nat := 200 * 1024 * 1024

  /** What `make_archive` produces: nothing, a stub archive holding only the
      too-big message, or an archive of the matched files. */
  datatype Archive = NoArchive | TooBig(totalSize: nat) | Members(files: set<string>)

  /** A match is kept unless containment is checked and it lies outside the
      test directory. */
  predicate Kept(m: (string, nat), testDir: string, checkContainment: bool) {
    !checkContainment || (|testDir| <= |m.0| && m.0[..|testDir|] == testDir)
  }

  /** The total size of the kept matches, a file matched by two globs
      counting twice. */
  function KeptSize(matches: seq<(string, nat)>, testDir: string, checkContainment: bool): nat {
    if |matches| == 0 then 0
    else (if Kept(matches[0], testDir, checkContainment) then matches[0].1 else 0)
         + KeptSize(matches[1..], testDir, checkContainment)
  }

  function KeptFiles(matches: seq<(string, nat)>, testDir: string, checkContainment: bool): (fs: set<string>)
    ensures forall f :: f in fs <==> exists i :: 0 <= i < |matches| && matches[i].0 == f
                                                && Kept(matches[i], testDir, checkContainment)
  {
    if |matches| == 0 then {}
    else
      var rest := KeptFiles(matches[1..], testDir, checkContainment);
      assert forall i :: 1 <= i < |matches| ==> matches[1..][i - 1] == matches[i];
      (if Kept(matches[0], testDir, checkContainment) then {matches[0].0} else {}) + rest
  }

  /** The matches are the globs' matches one glob after another, and the
      running total adds each glob's kept sizes. */
  lemma {:induction false} KeptSizeAppend(m1: seq<(string, nat)>, m2: seq<(string, nat)>, testDir: string, checkContainment: bool)
    ensures KeptSize(m1 + m2, testDir, checkContainment)
         == KeptSize(m1, testDir, checkContainment) + KeptSize(m2, testDir, checkContainment)
    decreases |m1|
  {
    if |m1| > 0 {
      assert (m1 + m2)[0] == m1[0] && (m1 + m2)[1..] == m1[1..] + m2;
      KeptSizeAppend(m1[1..], m2, testDir, checkContainment);
    } else {
      assert m1 + m2 == m2;
    }
  }

  /** Without the containment check every match is kept: the archive
      holds every matched path and the total counts every match. */
  lemma {:induction false} KeptAllWithoutCheck(matches: seq<(string, nat)>, testDir: string)
    ensures KeptFiles(matches, testDir, false) == set i | 0 <= i < |matches| :: matches[i].0
    ensures KeptSize(matches, testDir, false) == TotalSize(matches)
  {
    if |matches| > 0 {
      KeptAllWithoutCheck(matches[1..], testDir);
    }
  }

  function TotalSize(matches: seq<(string, nat)>): nat {
    if |matches| == 0 then 0 else matches[0].1 + TotalSize(matches[1..])
  }

  /** `make_archive`: nothing without a test directory, globs or kept
      match; the too-big stub when the kept sizes exceed 200 MiB; otherwise
      the kept files. `matches` are the canonical paths and sizes the globs
      yield, in order; `checkContainment` is false only on macOS. */
  function ArchivePlan(testDir: Option<string>, globs: Option<seq<string>>,
                       matches: seq<(string, nat)>, checkContainment: bool): (a: Archive)
    ensures a.NoArchive? <==> testDir.None? || globs.None? || |globs.value| == 0
                              || |KeptFiles(matches, testDir.value, checkContainment)| == 0
    ensures a.TooBig? <==> !a.NoArchive? && KeptSize(matches, testDir.value, checkContainment) > MaxArchiveSize
    ensures a.TooBig? ==> a.totalSize == KeptSize(matches, testDir.value, checkContainment) > MaxArchiveSize
    ensures a.Members? ==> KeptSize(matches, testDir.value, checkContainment) <= MaxArchiveSize
    ensures a.Members? ==> forall f :: f in a.files <==>
              exists i :: 0 <= i < |matches| && matches[i].0 == f && Kept(matches[i], testDir.value, checkContainment)
    ensures a.Members? && checkContainment ==>
              forall f :: f in a.files ==> |testDir.value| <= |f| && f[..|testDir.value|] == testDir.value
  {
    if testDir.None? || globs.None? || |globs.value| == 0 then NoArchive
    else
      var files := KeptFiles(matches, testDir.value, checkContainment);
      var total := KeptSize(matches, testDir.value, checkContainment);
      if |files| == 0 then NoArchive
      else if total > MaxArchiveSize then TooBig(total)
      else Members(files)
  }

  /** The archive member name: the path relative to the test directory
      with every leading '/' removed. */
  function ArchiveName(path: string, testDir: string, cwd: string): (n: string)
    ensures |n| == 0 || n[0] != '/'
  {
    LStrip(Paths.Relpath(path, testDir, cwd), '/')
  }

  /** `relpath` never starts with '/', so the stripping never changes it. */
  lemma ArchiveNameIsRelpath(path: string, testDir: string, cwd: string)
    ensures ArchiveName(path, testDir, cwd) == Paths.Relpath(path, testDir, cwd)
  {
    Paths.RelpathNotAbsolute(path, testDir, cwd);
  }

  /** A file under the test directory is archived under its path below the
      test directory. */
  lemma ArchiveNameOfDescendant(path: string, testDir: string, cwd: string)
    requires Paths.Components(Paths.PathJoin(cwd, testDir)) < Paths.Components(Paths.PathJoin(cwd, path))
    ensures Paths.Components(Paths.PathJoin(cwd, testDir)) + Paths.Components(ArchiveName(path, testDir, cwd))
         == Paths.Components(Paths.PathJoin(cwd, path))
  {
    ArchiveNameIsRelpath(path, testDir, cwd);
    Paths.RelpathOfDescendant(path, testDir, cwd);
  }

  // ---------------------------------------------------------------------
  // `RetryCache`: anti-affinity for retries this slave submitted

  /** One cache entry: a retry id and the number of times it was seen. */
  datatype Entry = Entry(item: string, count: nat)

  /** An `OrderedDict` from retry id to count, in insertion order. */
  datatype RetryCache = RetryCache(entries: seq<Entry>, maxSize: nat, maxCount: nat)

  const DefaultMaxSize: nat := 100
  const DefaultMaxCount: nat := 10

  function NewRetryCache(): (c: RetryCache)
    ensures Valid(c) && c.maxSize == DefaultMaxSize && c.maxCount == DefaultMaxCount
    ensures c.entries == [] && forall x :: Lookup(c, x).None?
  {
    RetryCache([], DefaultMaxSize, DefaultMaxCount)
  }

  /** Dictionary keys are distinct. */
  predicate Valid(c: RetryCache) {
    forall i, j :: 0 <= i < j < |c.entries| ==> c.entries[i].item != c.entries[j].item
  }

  /** The position of `x`'s entry, or -1. */
  function Position(es: seq<Entry>, x: string): (k: int)
    ensures -1 <= k < |es|
    ensures k >= 0 ==> es[k].item == x
    ensures k < 0 <==> forall i :: 0 <= i < |es| ==> es[i].item != x
  {
    if |es| == 0 then -1
    else if es[|es| - 1].item == x then |es| - 1
    else Position(es[..|es| - 1], x)
  }

  /** `self.cache.get(x)`: the count stored for `x`. */
  function Lookup(c: RetryCache, x: string): (r: Option<nat>)
    ensures r.None? <==> forall i :: 0 <= i < |c.entries| ==> c.entries[i].item != x
    ensures Valid(c) ==> forall i :: 0 <= i < |c.entries| && c.entries[i].item == x ==> r == Some(c.entries[i].count)
  {
    var k := Position(c.entries, x);
    if k < 0 then None else Some(c.entries[k].count)
  }

  function Remove(es: seq<Entry>, k: nat): (r: seq<Entry>)
    requires k < |es|
    ensures |r| == |es| - 1
    ensures forall i :: 0 <= i < k ==> r[i] == es[i]
    ensures forall i :: k <= i < |r| ==> r[i] == es[i + 1]
  {
    es[..k] + es[k + 1..]
  }

  /** Replacing one entry by another for the same key changes only that
      key's count. */
  lemma LookupUpdate(c: RetryCache, k: nat, e: Entry)
    requires Valid(c) && k < |c.entries| && e.item == c.entries[k].item
    ensures var d := c.(entries := c.entries[k := e]);
      Valid(d) && Lookup(d, e.item) == Some(e.count)
      && forall y :: y != e.item ==> Lookup(d, y) == Lookup(c, y)
  {
    var d := c.(entries := c.entries[k := e]);
    assert d.entries[k] == e;
    forall y | y != e.item
      ensures Lookup(d, y) == Lookup(c, y)
    {
      if Lookup(c, y).Some? {
        var i := Position(c.entries, y);
        assert d.entries[i] == c.entries[i];
      } else {
        assert forall i :: 0 <= i < |d.entries| ==> d.entries[i].item != y by {
          forall i | 0 <= i < |d.entries|
            ensures d.entries[i].item != y
          {
            assert i != k ==> d.entries[i] == c.entries[i];
          }
        }
      }
    }
  }

  /** Removing one entry removes only that key. */
  lemma LookupRemove(c: RetryCache, k: nat)
    requires Valid(c) && k < |c.entries|
    ensures var d := c.(entries := Remove(c.entries, k));
      Valid(d) && Lookup(d, c.entries[k].item).None?
      && forall y :: y != c.entries[k].item ==> Lookup(d, y) == Lookup(c, y)
  {
    var x := c.entries[k].item;
    var d := c.(entries := Remove(c.entries, k));
    assert Valid(d) by {
      forall i, j | 0 <= i < j < |d.entries|
        ensures d.entries[i].item != d.entries[j].item
      {
        var i' := if i < k then i else i + 1;
        var j' := if j < k then j else j + 1;
        assert d.entries[i] == c.entries[i'] && d.entries[j] == c.entries[j'];
      }
    }
    forall i | 0 <= i < |d.entries|
      ensures d.entries[i].item != x
    {
      var i' := if i < k then i else i + 1;
      assert d.entries[i] == c.entries[i'];
    }
    forall y | y != x
      ensures Lookup(d, y) == Lookup(c, y)
    {
      if Lookup(c, y).Some? {
        var i := Position(c.entries, y);
        var i' := if i < k then i else i - 1;
        assert d.entries[i'] == c.entries[i];
      } else {
        forall i | 0 <= i < |d.entries|
          ensures d.entries[i].item != y
        {
          var i' := if i < k then i else i + 1;
          assert d.entries[i] == c.entries[i'];
        }
      }
    }
  }

  /** Appending an entry for a new key adds only that key. */
  lemma LookupAppend(c: RetryCache, e: Entry)
    requires Valid(c) && Lookup(c, e.item).None?
    ensures var d := c.(entries := c.entries + [e]);
      Valid(d) && Lookup(d, e.item) == Some(e.count)
      && forall y :: y != e.item ==> Lookup(d, y) == Lookup(c, y)
  {
    var d := c.(entries := c.entries + [e]);
    assert d.entries[|c.entries|] == e;
    forall y | y != e.item
      ensures Lookup(d, y) == Lookup(c, y)
    {
      if Lookup(c, y).Some? {
        var i := Position(c.entries, y);
        assert d.entries[i] == c.entries[i];
      } else {
        forall i | 0 <= i < |d.entries|
          ensures d.entries[i].item != y
        {
          assert i < |c.entries| ==> d.entries[i] == c.entries[i];
        }
      }
    }
  }

  /** `RetryCache.get`: `x` when present, counting the touch, and removing
      the entry once its count has passed `maxCount`; None, with the cache
      unchanged, when absent. */
  function Get(c: RetryCache, x: string): (r: (Option<string>, RetryCache))
    ensures r.0.None? <==> Lookup(c, x).None?
    ensures r.0.None? ==> r.1 == c
    ensures r.0.Some? ==> r.0.value == x
    ensures r.1.maxSize == c.maxSize && r.1.maxCount == c.maxCount
  {
    var k := Position(c.entries, x);
    if k < 0 then (None, c)
    else if c.entries[k].count > c.maxCount then (Some(x), c.(entries := Remove(c.entries, k)))
    else (Some(x), c.(entries := c.entries[k := Entry(x, c.entries[k].count + 1)]))
  }

  /** A get of a present key counts one touch, or removes the key once its
      count has passed `maxCount`, and leaves every other key alone. */
  lemma GetCounts(c: RetryCache, x: string)
    requires Valid(c)
    ensures Valid(Get(c, x).1)
    ensures Lookup(c, x).Some? ==>
              Lookup(Get(c, x).1, x) == (if Lookup(c, x).value > c.maxCount then None else Some(Lookup(c, x).value + 1))
    ensures forall y :: y != x ==> Lookup(Get(c, x).1, y) == Lookup(c, y)
  {
    var k := Position(c.entries, x);
    if k >= 0 {
      assert Lookup(c, x) == Some(c.entries[k].count);
      if c.entries[k].count > c.maxCount {
        assert Get(c, x).1 == c.(entries := Remove(c.entries, k));
        LookupRemove(c, k);
      } else {
        var e := Entry(x, c.entries[k].count + 1);
        assert Get(c, x).1 == c.(entries := c.entries[k := e]);
        LookupUpdate(c, k, e);
      }
    } else {
      assert Get(c, x).1 == c;
    }
  }

  /** `self.cache[x] = 0`: resets `x`'s count in place, or appends it. */
  function Assign(c: RetryCache, x: string): (r: RetryCache)
    ensures r.maxSize == c.maxSize && r.maxCount == c.maxCount
    ensures |r.entries| == |c.entries| + (if Lookup(c, x).Some? then 0 else 1)
  {
    var k := Position(c.entries, x);
    if k >= 0 then c.(entries := c.entries[k := Entry(x, 0)])
    else c.(entries := c.entries + [Entry(x, 0)])
  }

  /** The assignment gives `x` a zero count and leaves every other key
      alone. */
  lemma AssignResets(c: RetryCache, x: string)
    requires Valid(c)
    ensures Valid(Assign(c, x)) && Lookup(Assign(c, x), x) == Some(0)
    ensures forall y :: y != x ==> Lookup(Assign(c, x), y) == Lookup(c, y)
  {
    var k := Position(c.entries, x);
    if k >= 0 {
      LookupUpdate(c, k, Entry(x, 0));
    } else {
      LookupAppend(c, Entry(x, 0));
    }
  }

  /** `RetryCache.put` as written: a full cache is shrunk with
      `OrderedDict.popitem()`, which removes the most recently inserted
      entry; on a cache of size zero that call raises. */
  function PutAsWritten(c: RetryCache, x: string): (r: Result<RetryCache, string>)
    ensures r.Failure? <==> |c.entries| == c.maxSize == 0
    ensures r.Success? ==> r.value.maxSize == c.maxSize && r.value.maxCount == c.maxCount
    ensures r.Success? && |c.entries| <= c.maxSize ==> |r.value.entries| <= c.maxSize
  {
    if |c.entries| == c.maxSize then
      if |c.entries| == 0 then Failure("popitem(): dictionary is empty")
      else Success(Assign(c.(entries := c.entries[..|c.entries| - 1]), x))
    else Success(Assign(c, x))
  }

  /** `RetryCache.put` evicting the oldest entry, as the class promises. */
  function Put(c: RetryCache, x: string): (r: Result<RetryCache, string>)
    ensures r.Failure? <==> |c.entries| == c.maxSize == 0
    ensures r.Success? ==> r.value.maxSize == c.maxSize && r.value.maxCount == c.maxCount
    ensures r.Success? && |c.entries| <= c.maxSize ==> |r.value.entries| <= c.maxSize
  {
    if |c.entries| == c.maxSize then
      if |c.entries| == 0 then Failure("popitem(): dictionary is empty")
      else Success(Assign(c.(entries := c.entries[1..]), x))
    else Success(Assign(c, x))
  }

  /** Dropping the oldest entry keeps the keys distinct and every other
      key's count. */
  lemma DropOldest(c: RetryCache)
    requires Valid(c) && |c.entries| > 0
    ensures var d := c.(entries := c.entries[1..]);
      Valid(d) && Lookup(d, c.entries[0].item).None?
      && forall i :: 0 < i < |c.entries| ==> Lookup(d, c.entries[i].item) == Some(c.entries[i].count)
  {
    LookupRemove(c, 0);
    assert Remove(c.entries, 0) == c.entries[1..];
  }

  /** `put(x)` gives `x` a zero count and keeps the keys distinct. */
  lemma PutResets(c: RetryCache, x: string)
    requires Valid(c) && c.maxSize > 0
    ensures Put(c, x).Success?
    ensures Valid(Put(c, x).value) && Lookup(Put(c, x).value, x) == Some(0)
  {
    if |c.entries| == c.maxSize {
      DropOldest(c);
      AssignResets(c.(entries := c.entries[1..]), x);
    } else {
      AssignResets(c, x);
    }
  }

  /** A full cache loses exactly its oldest entry to a new key, and keeps
      every other count. */
  lemma PutEvictsOldest(c: RetryCache, x: string)
    requires Valid(c) && 0 < |c.entries| == c.maxSize && Lookup(c, x).None?
    ensures Put(c, x).Success?
    ensures Lookup(Put(c, x).value, c.entries[0].item) == None
    ensures forall i :: 0 < i < |c.entries| ==>
              Lookup(Put(c, x).value, c.entries[i].item) == Some(c.entries[i].count)
  {
    var d := c.(entries := c.entries[1..]);
    DropOldest(c);
    AssignResets(d, x);
    assert c.entries[0].item != x;
    forall i | 0 < i < |c.entries|
      ensures c.entries[i].item != x
    {
    }
  }

  /** The as-written `put` on a full cache holding `a` then `b` evicts `b`,
      the newest entry, where the promised behaviour evicts `a`. */
  lemma PutAsWrittenEvictsNewest()
    ensures var c := RetryCache([Entry("a", 0), Entry("b", 0)], 2, DefaultMaxCount);
      PutAsWritten(c, "c") == Success(c.(entries := [Entry("a", 0), Entry("c", 0)]))
      && Put(c, "c") == Success(c.(entries := [Entry("b", 0), Entry("c", 0)]))
  {
    var c := RetryCache([Entry("a", 0), Entry("b", 0)], 2, DefaultMaxCount);
    assert "a" != "c" && "b" != "c" by {
      assert "a"[0] != "c"[0] && "b"[0] != "c"[0];
    }
    var older := c.(entries := c.entries[..1]);
    var newer := c.(entries := c.entries[1..]);
    assert older.entries == [Entry("a", 0)];
    assert newer.entries == [Entry("b", 0)];
    assert Position(older.entries, "c") == -1;
    assert Position(newer.entries, "c") == -1;
    assert Assign(older, "c") == c.(entries := [Entry("a", 0), Entry("c", 0)]);
    assert Assign(newer, "c") == c.(entries := [Entry("b", 0), Entry("c", 0)]);
  }

  /** Dropping the newest entry, as `popitem()` does, keeps the keys
      distinct and every other key's count. */
  lemma DropNewest(c: RetryCache)
    requires Valid(c) && |c.entries| > 0
    ensures var d := c.(entries := c.entries[..|c.entries| - 1]);
      Valid(d) && Lookup(d, c.entries[|c.entries| - 1].item).None?
      && forall i :: 0 <= i < |c.entries| - 1 ==> Lookup(d, c.entries[i].item) == Some(c.entries[i].count)
  {
    LookupRemove(c, |c.entries| - 1);
    assert Remove(c.entries, |c.entries| - 1) == c.entries[..|c.entries| - 1];
  }

  /** The as-written `put(x)` also gives `x` a zero count and keeps the
      keys distinct. */
  lemma PutAsWrittenResets(c: RetryCache, x: string)
    requires Valid(c) && c.maxSize > 0
    ensures PutAsWritten(c, x).Success?
    ensures Valid(PutAsWritten(c, x).value) && Lookup(PutAsWritten(c, x).value, x) == Some(0)
  {
    if |c.entries| == c.maxSize {
      DropNewest(c);
      AssignResets(c.(entries := c.entries[..|c.entries| - 1]), x);
    } else {
      AssignResets(c, x);
    }
  }

  /** As written, a full cache loses its newest entry to a new key and
      keeps every older count. */
  lemma PutAsWrittenEvictsNewestEntry(c: RetryCache, x: string)
    requires Valid(c) && 0 < |c.entries| == c.maxSize && Lookup(c, x).None?
    ensures PutAsWritten(c, x).Success?
    ensures Lookup(PutAsWritten(c, x).value, c.entries[|c.entries| - 1].item) == None
    ensures forall i :: 0 <= i < |c.entries| - 1 ==>
              Lookup(PutAsWritten(c, x).value, c.entries[i].item) == Some(c.entries[i].count)
  {
    var d := c.(entries := c.entries[..|c.entries| - 1]);
    DropNewest(c);
    AssignResets(d, x);
    assert c.entries[|c.entries| - 1].item != x;
    forall i | 0 <= i < |c.entries| - 1
      ensures c.entries[i].item != x
    {
    }
  }

  /** `n` successive `get(x)` calls: their results and the final cache. */
  function Gets(c: RetryCache, x: string, n: nat): (r: (seq<Option<string>>, RetryCache))
    ensures |r.0| == n
    decreases n
  {
    if n == 0 then ([], c)
    else
      var (first, c1) := Get(c, x);
      var (rest, c2) := Gets(c1, x, n - 1);
      ([first] + rest, c2)
  }

  /** From count `k`, the next `maxCount + 2 - k` gets of `x` all return `x`
      and the last of them removes it. */
  lemma {:induction false} GetsUntilExpired(c: RetryCache, x: string, k: nat)
    requires Valid(c) && Lookup(c, x) == Some(k) && k <= c.maxCount + 1
    ensures var (rs, d) := Gets(c, x, c.maxCount + 2 - k);
      (forall i :: 0 <= i < |rs| ==> rs[i] == Some(x)) && Lookup(d, x).None? && Valid(d)
      && d.maxCount == c.maxCount
    decreases c.maxCount + 1 - k
  {
    var c1 := Get(c, x).1;
    GetCounts(c, x);
    if k <= c.maxCount {
      GetsUntilExpired(c1, x, k + 1);
    }
  }

  /** After `put(x)`, exactly the next `maxCount + 2` gets of `x` return
      `x`; the one after returns None. */
  lemma PutThenGets(c: RetryCache, x: string)
    requires Valid(c) && c.maxSize > 0
    ensures var (rs, d) := Gets(Put(c, x).value, x, c.maxCount + 2);
      (forall i :: 0 <= i < |rs| ==> rs[i] == Some(x)) && Get(d, x).0 == None
  {
    PutResets(c, x);
    GetsUntilExpired(Put(c, x).value, x, 0);
  }

  // ---------------------------------------------------------------------
  // `run_task`, `submit_retry_task` and `run`

  /** What `run_task` records and decides once the isolate has exited. */
  datatype RunOutcome = RunOutcome(finished: Finished, retry: bool)

  /** The end of `run_task`: logs of a successful run are dropped before
      `mark_task_finished`, and a retry is submitted when the run failed and
      retries remain. */
  function FinishTask(t: Task, rc: int, stdout: string, stderr: string, archive: Option<string>): (o: RunOutcome)
    ensures rc == 0 ==> o.finished.stdoutKey.None? && o.finished.stderrKey.None?
    ensures rc != 0 ==> o.finished == MarkTaskFinished(t, Some(stdout), Some(stderr), archive)
    ensures o.retry <==> rc != 0 && t.attempt < t.maxRetries
  {
    var keep := rc != 0;
    RunOutcome(
      MarkTaskFinished(t, if keep then Some(stdout) else None, if keep then Some(stderr) else None, archive),
      rc != 0 && t.attempt < t.maxRetries)
  }

  /** A slave retries exactly the attempts the server shows as failed with
      retries remaining, short of the attempts past the limit the server
      also counts as such. */
  lemma RetryMeansFailedWithRetries(t: Task, rc: int, stdout: string, stderr: string, archive: Option<string>,
                                     row: TaskRow)
    requires row.attempt == t.attempt && row.maxRetries == t.maxRetries && row.status == Some(rc)
    ensures FinishTask(t, rc, stdout, stderr, archive).retry ==> IsFailed(row) && HasRetriesRemaining(row)
    ensures IsFailed(row) && HasRetriesRemaining(row) && t.attempt <= t.maxRetries ==>
              FinishTask(t, rc, stdout, stderr, archive).retry
  {
  }

  /** `submit_retry_task` followed by the cache update. An answer whose
      status is not "SUCCESS" (`status` is the answer's `status` field)
      reaches `sys.err`, which the `sys` module does not have: the call
      raises AttributeError before the `put`, and the retry is not
      recorded. Otherwise the retry id goes into the cache through the
      `put` as written. */
  function SubmitRetry(c: RetryCache, t: Task, status: Option<string>): (r: Result<RetryCache, string>)
    ensures status != Some("SUCCESS") ==> r == Failure("AttributeError")
    ensures r.Failure? <==> status != Some("SUCCESS") || |c.entries| == c.maxSize == 0
    ensures status == Some("SUCCESS") && Valid(c) && c.maxSize > 0 ==>
              r.Success? && Valid(r.value) && Lookup(r.value, RetryId(t)) == Some(0)
  {
    if status != Some("SUCCESS") then Failure("AttributeError")
    else
      var r := PutAsWritten(c, RetryId(t));
      if Valid(c) && c.maxSize > 0 then PutAsWrittenResets(c, RetryId(t)); r else r
  }

  /** The intended `submit_retry_task`: a refused retry is reported on
      standard error, and the retry id is recorded whatever the answer. */
  function SubmitRetryIntended(c: RetryCache, t: Task, status: Option<string>): (r: Result<RetryCache, string>)
    ensures r.Failure? <==> |c.entries| == c.maxSize == 0
    ensures Valid(c) && c.maxSize > 0 ==> r.Success? && Valid(r.value) && Lookup(r.value, RetryId(t)) == Some(0)
  {
    var r := PutAsWritten(c, RetryId(t));
    if Valid(c) && c.maxSize > 0 then PutAsWrittenResets(c, RetryId(t)); r else r
  }

  /** The two agree on an accepted retry; on a refused one the code as
      written fails and records nothing, while the intended version still
      records the retry, so the slave would run its own retry again. */
  lemma RefusedRetryNotRecorded(c: RetryCache, t: Task, status: Option<string>)
    requires Valid(c) && c.maxSize > 0
    ensures status == Some("SUCCESS") ==> SubmitRetry(c, t, status) == SubmitRetryIntended(c, t, status)
    ensures status != Some("SUCCESS") ==>
              SubmitRetry(c, t, status).Failure? && SubmitRetryIntended(c, t, status).Success?
              && Reserve(SubmitRetryIntended(c, t, status).value, t).0
  {
    if status != Some("SUCCESS") {
      PutAsWrittenResets(c, RetryId(t));
    }
  }

  /** A retry submitted while the cache is full pushes out the newest
      entry, not the oldest, and keeps the older counts. */
  lemma SubmitRetryEvictsNewest(c: RetryCache, t: Task, status: Option<string>)
    requires status == Some("SUCCESS")
    requires Valid(c) && 0 < |c.entries| == c.maxSize && Lookup(c, RetryId(t)).None?
    ensures SubmitRetry(c, t, status).Success?
    ensures Lookup(SubmitRetry(c, t, status).value, c.entries[|c.entries| - 1].item) == None
    ensures forall i :: 0 <= i < |c.entries| - 1 ==>
              Lookup(SubmitRetry(c, t, status).value, c.entries[i].item) == Some(c.entries[i].count)
  {
    PutAsWrittenEvictsNewestEntry(c, RetryId(t));
  }

  /** One step of `run`: a reserved task whose retry id the cache reports is
      released instead of run. */
  function Reserve(c: RetryCache, t: Task): (r: (bool, RetryCache))
    ensures r.0 <==> Lookup(c, RetryId(t)).Some?
  {
    var (hit, c1) := Get(c, RetryId(t));
    (hit.Some?, c1)
  }

  /** Anti-affinity: once the server accepts a retry of `t` this slave submitted, it releases
      every attempt of `t` it reserves, up to `maxCount + 2` times, and then
      runs the next one. */
  lemma RetryReleasedUntilExpired(c: RetryCache, t: Task, status: Option<string>, attempt: int)
    requires status == Some("SUCCESS")
    requires Valid(c) && c.maxSize > 0
    ensures var d := SubmitRetry(c, t, status).value;
      Reserve(d, t.(attempt := attempt)).0
      && !Reserve(Gets(d, RetryId(t), c.maxCount + 2).1, t.(attempt := attempt)).0
  {
    PutAsWrittenResets(c, RetryId(t));
    GetsUntilExpired(SubmitRetry(c, t, status).value, RetryId(t), 0);
  }
}
