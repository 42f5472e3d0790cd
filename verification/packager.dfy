/** The decision rules of the packager: when two project manifests count
    as the same, when the cached dependency set must be regenerated, how a
    manifest is listed, and the shell script that unpacks the packaged
    jars. File copying, Maven runs and hard links are left out. */
module Packager {
  import opened Wrappers
  import opened Strings
  import Paths
  import Seqs

  /** An attribute of an unpickled manifest: missing altogether (an older
      pickle), or present with a value that may be `None`. */
  datatype Field = Missing | Has(value: Option<string>)

  datatype Manifest = Manifest(
    grindGitHash: Field, projectRoot: Field, gitBranch: Field, gitHash: Field,
    timestamp: Field, extraDepsChecksum: Field, size: Field)

  /** What `other` is in `manifest == other`. */
  datatype Other = AManifest(m: Manifest) | NotAManifest

  /** The four attributes that identify a project. */
  predicate Identified(m: Manifest) {
    m.projectRoot.Has? && m.gitBranch.Has? && m.extraDepsChecksum.Has? && m.grindGitHash.Has?
  }

  /** `Manifest.__eq__`: another manifest, both carrying the four
      identifying attributes, with equal values; the commit hash, the
      timestamp and the size do not matter. */
  function Eq(m: Manifest, other: Other): (r: bool)
    ensures other.NotAManifest? ==> !r
    ensures other.AManifest? ==>
              (r <==> Identified(m) && Identified(other.m)
                      && m.projectRoot == other.m.projectRoot && m.gitBranch == other.m.gitBranch
                      && m.extraDepsChecksum == other.m.extraDepsChecksum && m.grindGitHash == other.m.grindGitHash)
  {
    match other
    case NotAManifest => false
    case AManifest(o) =>
      if !Identified(m) || !Identified(o) then false
      else
        && m.projectRoot.value == o.projectRoot.value && m.gitBranch.value == o.gitBranch.value
        && m.extraDepsChecksum.value == o.extraDepsChecksum.value && m.grindGitHash.value == o.grindGitHash.value
  }

  /** `Manifest.__ne__`: not a manifest, a manifest lacking one of the
      four attributes, or one that differs in them. */
  function Ne(m: Manifest, other: Other): (r: bool)
    ensures r <==> other.NotAManifest? || !Identified(m) || !Identified(other.m)
                   || m.projectRoot != other.m.projectRoot || m.gitBranch != other.m.gitBranch
                   || m.extraDepsChecksum != other.m.extraDepsChecksum || m.grindGitHash != other.m.grindGitHash
  {
    !Eq(m, other)
  }

  /** Equality is symmetric, holds of a manifest with itself exactly when
      it carries the four attributes, and ignores the commit hash and the
      timestamp; a different branch breaks it. */
  lemma EqProperties(m: Manifest, o: Manifest, hash: Field, time: Field, branch: Field)
    ensures Eq(m, AManifest(o)) == Eq(o, AManifest(m))
    ensures Eq(m, AManifest(m)) <==> Identified(m)
    ensures Eq(m, AManifest(m.(gitHash := hash, timestamp := time))) <==> Identified(m)
    ensures branch != m.gitBranch ==> !Eq(m, AManifest(m.(gitBranch := branch)))
  {
  }

  /** `Manifest.read`: the unpickled object, `None` when the file is
      absent. */
  function Read(exists_: bool, contents: Other): (r: Option<Other>)
    ensures r.Some? <==> exists_
    ensures r.Some? ==> r.value == contents
  {
    if exists_ then Some(contents) else None
  }

  // ---------------------------------------------------------------------
  // The dependency cache

  /** `cached_manifest != self.__manifest`: no cached manifest, or one
      that is not equal. */
  function Stale(cached: Option<Other>, current: Manifest): (r: bool)
    ensures cached.None? ==> r
    ensures cached.Some? ==> (r <==> !(cached.value.AManifest? && Eq(cached.value.m, AManifest(current))))
  {
    match cached
    case None => true
    case Some(NotAManifest) => true
    case Some(AManifest(c)) => Ne(c, AManifest(current))
  }

  /** What `_regenerate_dependency_cache_if_necessary` does. */
  datatype CacheAction = CacheAction(removeOld: bool, regenerate: bool, written: Option<Manifest>)

  function RegenerateIfNecessary(cached: Option<Other>, current: Manifest, cacheDirExists: bool): (a: CacheAction)
    ensures a.regenerate <==> Stale(cached, current)
    ensures a.removeOld <==> Stale(cached, current) && cacheDirExists
    ensures a.written.Some? <==> a.regenerate
    ensures a.written.Some? ==> a.written.value == current
  {
    if Stale(cached, current) then CacheAction(cacheDirExists, true, Some(current))
    else CacheAction(false, false, None)
  }

  /** Once a manifest with the four attributes is written, the next run with
      the same project finds the cache fresh and does nothing; a manifest
      lacking one of them makes every run regenerate. */
  lemma RegenerateSettles(cached: Option<Other>, current: Manifest, cacheDirExists: bool, next: Manifest)
    requires Eq(current, AManifest(next))
    ensures var a := RegenerateIfNecessary(cached, current, cacheDirExists);
            a.written.Some? ==> RegenerateIfNecessary(Read(true, AManifest(a.written.value)), next, true) == CacheAction(false, false, None)
    ensures !Identified(current) ==> RegenerateIfNecessary(Some(AManifest(current)), current, true).regenerate
  {
  }

  // ---------------------------------------------------------------------
  // Listing a manifest

  /** `"%s" % v`. */
  function Show(v: Option<string>): string {
    match v
    case None => "None"
    case Some(s) => s
  }

  datatype ListError = TypeError | AttributeError

  /** The lines `_pretty_str` joins: the project root (or a placeholder),
      then a tab-indented line for each of the date, size, branch and hash
      the manifest has. A timestamp of `None` has no `strftime`, which
      fails while the lines are still being collected; a root of `None`
      is collected but cannot be joined afterwards. Dates and sizes are
      formatted by `dateFmt` and `sizeFmt`. */
  function PrettyLines(m: Manifest, dateFmt: string -> string, sizeFmt: Option<string> -> string): (r: Result<seq<string>, ListError>)
    ensures m.timestamp == Has(None) ==> r == Failure(AttributeError)
    ensures m.timestamp != Has(None) && m.projectRoot == Has(None) ==> r == Failure(TypeError)
    ensures r.Success? <==> m.timestamp != Has(None) && m.projectRoot != Has(None)
    ensures r.Success? ==> |r.value| == 1 + Present(m)
    ensures r.Success? ==> r.value[0] == (if m.projectRoot.Missing? then "(Unknown project root)" else m.projectRoot.value.value)
    ensures r.Success? ==> forall i :: 1 <= i < |r.value| ==> StartsWith(r.value[i], "\t")
    ensures r.Success? && m.gitHash.Has? ==> r.value[|r.value| - 1] == "\tHash: " + Show(m.gitHash.value)
  {
    if m.timestamp == Has(None) then Failure(AttributeError)
    else if m.projectRoot == Has(None) then Failure(TypeError)
    else
      var root := if m.projectRoot.Missing? then "(Unknown project root)" else m.projectRoot.value.value;
      var details := Details(m, dateFmt, sizeFmt);
      Seqs.AppendIndex([root], details);
      Success([root] + details)
  }

  /** The detail lines, in the order date, size, branch, hash. */
  function Details(m: Manifest, dateFmt: string -> string, sizeFmt: Option<string> -> string): (r: seq<string>)
    requires m.timestamp != Has(None)
    ensures |r| == Present(m) && Tabbed(r)
    ensures m.gitHash.Has? ==> |r| > 0 && r[|r| - 1] == "\tHash: " + Show(m.gitHash.value)
  {
    var front := FrontDetails(m, dateFmt, sizeFmt);
    var text := if m.gitHash.Has? then Show(m.gitHash.value) else "";
    var hash := Detail(m.gitHash.Has?, "Hash", text);
    TabbedAppend(front, hash);
    Seqs.AppendIndex(front, hash);
    assert m.gitHash.Has? ==> (front + hash)[|front + hash| - 1] == "\tHash: " + text;
    front + hash
  }

  /** The date, size and branch lines. */
  function FrontDetails(m: Manifest, dateFmt: string -> string, sizeFmt: Option<string> -> string): (r: seq<string>)
    requires m.timestamp != Has(None)
    ensures |r| == (if m.timestamp.Has? then 1 else 0) + (if m.size.Has? then 1 else 0) + (if m.gitBranch.Has? then 1 else 0)
    ensures Tabbed(r)
  {
    var date := Detail(m.timestamp.Has?, "Date", if m.timestamp.Has? then dateFmt(m.timestamp.value.value) else "");
    var size := Detail(m.size.Has?, "Size", if m.size.Has? then sizeFmt(m.size.value) else "");
    var branch := Detail(m.gitBranch.Has?, "Branch", if m.gitBranch.Has? then Show(m.gitBranch.value) else "");
    TabbedAppend(date, size);
    TabbedAppend(date + size, branch);
    date + size + branch
  }

  /** Every line starts with a tab. */
  predicate Tabbed(lines: seq<string>) {
    forall i :: 0 <= i < |lines| ==> StartsWith(lines[i], "\t")
  }

  lemma TabbedAppend(a: seq<string>, b: seq<string>)
    requires Tabbed(a) && Tabbed(b)
    ensures Tabbed(a + b)
  {
    Seqs.AppendIndex(a, b);
  }

  /** The `\t<key>: <text>` line of an attribute the manifest has. */
  function Detail(present: bool, key: string, text: string): (r: seq<string>)
    ensures |r| == (if present then 1 else 0)
    ensures present ==> r[0] == "\t" + key + ": " + text
    ensures forall i :: 0 <= i < |r| ==> StartsWith(r[i], "\t")
  {
    if present then
      assert ("\t" + key + ": " + text)[..1] == "\t";
      ["\t" + key + ": " + text]
    else []
  }

  /** How many of the four optional lines a manifest has. */
  function Present(m: Manifest): nat {
    (if m.timestamp.Has? then 1 else 0) + (if m.size.Has? then 1 else 0)
    + (if m.gitBranch.Has? then 1 else 0) + (if m.gitHash.Has? then 1 else 0)
  }

  /** `CacheManager._pretty_str`. */
  function PrettyStr(m: Manifest, dateFmt: string -> string, sizeFmt: Option<string> -> string): (r: Result<string, ListError>)
    ensures r.Success? <==> PrettyLines(m, dateFmt, sizeFmt).Success?
    ensures r.Success? ==> r.value == Join(PrettyLines(m, dateFmt, sizeFmt).value, "\n")
    ensures m.timestamp == Has(None) ==> r == Failure(AttributeError)
    ensures m.timestamp != Has(None) && m.projectRoot == Has(None) ==> r == Failure(TypeError)
  {
    match PrettyLines(m, dateFmt, sizeFmt)
    case Failure(e) => Failure(e)
    case Success(lines) => Success(Join(lines, "\n"))
  }

  /** The listing starts with the project root, or with the placeholder
      when the manifest has none. */
  lemma PrettyStrStarts(m: Manifest, dateFmt: string -> string, sizeFmt: Option<string> -> string)
    requires PrettyStr(m, dateFmt, sizeFmt).Success?
    ensures StartsWith(PrettyStr(m, dateFmt, sizeFmt).value,
                       if m.projectRoot.Missing? then "(Unknown project root)" else m.projectRoot.value.value)
  {
    var lines := PrettyLines(m, dateFmt, sizeFmt).value;
    JoinStarts(lines, "\n");
  }

  lemma JoinStarts(parts: seq<string>, sep: string)
    requires |parts| > 0
    ensures StartsWith(Join(parts, sep), parts[0])
  {
    if |parts| > 1 {
      assert Join(parts, sep) == parts[0] + (sep + Join(parts[1..], sep));
    }
  }

  // ---------------------------------------------------------------------
  // The unpack script

  const UnzipPrefix := "unzip -qq -n "

  /** `get_unzip_cmd`: unzip the jar, named relative to the project root,
      quietly and without overwriting, into `outputDir` beside it. */
  function UnzipCmd(projectRoot: string, jar: string, outputDir: string, cwd: string): (cmd: string)
    ensures StartsWith(cmd, UnzipPrefix)
  {
    Unzip(Paths.Relpath(jar, projectRoot, cwd), Paths.PathJoin(Paths.Relpath(Paths.Dirname(jar), projectRoot, cwd), outputDir))
  }

  /** `unzip -qq -n <jar> -d <dest>`. */
  function Unzip(jar: string, dest: string): (cmd: string)
    ensures StartsWith(cmd, UnzipPrefix)
  {
    assert UnzipPrefix + jar + " -d " + dest == UnzipPrefix + (jar + " -d " + dest);
    UnzipPrefix + jar + " -d " + dest
  }

  /** The command is `unzip -qq -n <jar> -d <dest>`, where the jar's path,
      appended to the project root, names the jar, and the destination is
      relative unless `outputDir` itself is absolute. */
  lemma UnzipCmdRelative(projectRoot: string, jar: string, outputDir: string, cwd: string)
    requires Paths.Components(Paths.PathJoin(cwd, projectRoot)) < Paths.Components(Paths.PathJoin(cwd, jar))
    ensures var jarRel := Paths.Relpath(jar, projectRoot, cwd);
            var dest := Paths.PathJoin(Paths.Relpath(Paths.Dirname(jar), projectRoot, cwd), outputDir);
            && UnzipCmd(projectRoot, jar, outputDir, cwd) == Unzip(jarRel, dest)
            && Paths.Components(Paths.PathJoin(cwd, projectRoot)) + Paths.Components(jarRel)
                 == Paths.Components(Paths.PathJoin(cwd, jar))
            && (!(|outputDir| > 0 && outputDir[0] == '/') ==> |dest| > 0 && dest[0] != '/')
  {
    Paths.RelpathOfDescendant(jar, projectRoot, cwd);
    var parent := Paths.Relpath(Paths.Dirname(jar), projectRoot, cwd);
    Paths.RelpathNotAbsolute(Paths.Dirname(jar), projectRoot, cwd);
    if !(|outputDir| > 0 && outputDir[0] == '/') {
      Paths.JoinRelative(parent, outputDir);
    }
  }

  /** A line of the unpack script. */
  datatype Command = Shebang | SetErrexit | UnzipJar(jar: string, outputDir: string) | Mkdir(dir: string)

  /** The text of a line; unzip paths are made relative to the project
      root. */
  function Render(c: Command, projectRoot: string, cwd: string): (line: string)
    ensures c.UnzipJar? <==> StartsWith(line, UnzipPrefix)
    ensures c.Mkdir? ==> line == "mkdir -p " + c.dir
  {
    match c
    case Shebang => NotUnzip("#!/usr/bin/env bash")
    case SetErrexit => NotUnzip("set -e")
    case UnzipJar(jar, out) => UnzipCmd(projectRoot, jar, out, cwd)
    case Mkdir(d) => NotUnzip("mkdir -p " + d)
  }

  /** A line that does not start with `u` is no unzip command. */
  function NotUnzip(line: string): (r: string)
    requires |line| > 0 && line[0] != 'u'
    ensures r == line && !StartsWith(r, UnzipPrefix)
  {
    assert UnzipPrefix[0] == 'u';
    line
  }

  function UnzipAll(jars: seq<string>, outputDir: string): (cmds: seq<Command>)
    ensures |cmds| == |jars|
    ensures forall i :: 0 <= i < |jars| ==> cmds[i] == UnzipJar(jars[i], outputDir)
  {
    if |jars| == 0 then [] else [UnzipJar(jars[0], outputDir)] + UnzipAll(jars[1..], outputDir)
  }

  function Mkdirs(dirs: seq<string>): (cmds: seq<Command>)
    ensures |cmds| == |dirs|
    ensures forall i :: 0 <= i < |dirs| ==> cmds[i] == Mkdir(dirs[i])
  {
    if |dirs| == 0 then [] else [Mkdir(dirs[0])] + Mkdirs(dirs[1..])
  }

  /** The lines of `write_unpack_script`: the interpreter line, `set -e`,
      one unzip into `test-classes` per test jar, one into `classes` per
      jar, then one `mkdir -p` per extra test directory. */
  function UnpackScript(testJars: seq<string>, jars: seq<string>, testDirs: seq<string>): (lines: seq<Command>)
    ensures |lines| == 2 + |testJars| + |jars| + |testDirs|
    ensures lines[0] == Shebang && lines[1] == SetErrexit
    ensures forall i :: 0 <= i < |testJars| ==> lines[2 + i] == UnzipJar(testJars[i], "test-classes")
    ensures forall i :: 0 <= i < |jars| ==> lines[2 + |testJars| + i] == UnzipJar(jars[i], "classes")
    ensures forall i :: 0 <= i < |testDirs| ==> lines[2 + |testJars| + |jars| + i] == Mkdir(testDirs[i])
  {
    var tests := UnzipAll(testJars, "test-classes");
    var mains := UnzipAll(jars, "classes");
    var mk := Mkdirs(testDirs);
    var head := [Shebang, SetErrexit];
    Seqs.AppendIndex(head, tests);
    Seqs.AppendIndex(head + tests, mains);
    Seqs.AppendIndex(head + tests + mains, mk);
    head + tests + mains + mk
  }

  /** The script file: each rendered line followed by a newline. */
  function ScriptText(lines: seq<Command>, projectRoot: string, cwd: string): (t: string)
    ensures |lines| > 0 ==> StartsWith(t, Render(lines[0], projectRoot, cwd) + "\n")
  {
    if |lines| == 0 then ""
    else
      var head := Render(lines[0], projectRoot, cwd) + "\n";
      var t := head + ScriptText(lines[1..], projectRoot, cwd);
      assert t[..|head|] == head;
      t
  }

  /** The rendered lines, in order. */
  function Rendered(lines: seq<Command>, projectRoot: string, cwd: string): (r: seq<string>)
    ensures |r| == |lines|
    ensures forall i :: 0 <= i < |lines| ==> r[i] == Render(lines[i], projectRoot, cwd)
  {
    if |lines| == 0 then [] else [Render(lines[0], projectRoot, cwd)] + Rendered(lines[1..], projectRoot, cwd)
  }

  /** The file is the rendered lines joined by newlines, with one more
      newline closing the last line. */
  lemma {:induction false} ScriptTextJoin(lines: seq<Command>, projectRoot: string, cwd: string)
    ensures ScriptText(lines, projectRoot, cwd) == Join(Rendered(lines, projectRoot, cwd) + [""], "\n")
  {
    if |lines| > 0 {
      var rest := Rendered(lines[1..], projectRoot, cwd);
      ScriptTextJoin(lines[1..], projectRoot, cwd);
      assert Rendered(lines, projectRoot, cwd) + [""] == [Render(lines[0], projectRoot, cwd)] + (rest + [""]);
      JoinCons(Render(lines[0], projectRoot, cwd), rest + [""], "\n");
    } else {
      assert Rendered(lines, projectRoot, cwd) + [""] == [""];
    }
  }

  /** When no rendered line holds a newline, splitting the file at
      newlines gives back every line, then the empty remainder after the
      final newline. */
  lemma ScriptTextLines(lines: seq<Command>, projectRoot: string, cwd: string)
    requires forall i :: 0 <= i < |lines| ==> '\n' !in Render(lines[i], projectRoot, cwd)
    ensures Split(ScriptText(lines, projectRoot, cwd), '\n') == Rendered(lines, projectRoot, cwd) + [""]
  {
    var parts := Rendered(lines, projectRoot, cwd) + [""];
    ScriptTextJoin(lines, projectRoot, cwd);
    assert "\n" == ['\n'];
    forall i | 0 <= i < |parts| ensures '\n' !in parts[i] {
      if i < |lines| { assert parts[i] == Render(lines[i], projectRoot, cwd); }
    }
    SplitJoin(parts, '\n');
  }

  /** Every script line after the two header lines is an unzip command
      exactly when it comes from a jar; the rest are mkdir lines. */
  lemma UnpackScriptCommands(projectRoot: string, testJars: seq<string>, jars: seq<string>, testDirs: seq<string>, cwd: string)
    ensures var lines := UnpackScript(testJars, jars, testDirs);
            forall i :: 2 <= i < |lines| ==>
              (i < 2 + |testJars| + |jars| <==> StartsWith(Render(lines[i], projectRoot, cwd), UnzipPrefix))
  {
    var lines := UnpackScript(testJars, jars, testDirs);
    forall i | 2 <= i < |lines|
      ensures i < 2 + |testJars| + |jars| <==> StartsWith(Render(lines[i], projectRoot, cwd), UnzipPrefix)
    {
      if i >= 2 + |testJars| + |jars| {
        var d := testDirs[i - 2 - |testJars| - |jars|];
        assert Render(lines[i], projectRoot, cwd) == "mkdir -p " + d;
        assert Render(lines[i], projectRoot, cwd)[0] == 'm';
      }
    }
  }
}
