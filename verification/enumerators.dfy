/** The pattern enumerator of the legacy package: the same module walk as
    the legacy `MavenProject`, with a default chain that checks only that
    a path is a file with a test-class name (the classfile filter is left
    to `add_filter`). */
module Enumerators {
  import opened Wrappers
  import Paths
  import MavenProject
  import LegacyMavenProject

  type Disk = LegacyMavenProject.Disk
  type FileFilter = LegacyMavenProject.FileFilter

  const DefaultFilters: seq<FileFilter> := [LegacyMavenProject.AnyFile, LegacyMavenProject.TestClassName]

  datatype PatternEnumerator = PatternEnumerator(directory: string, filters: seq<FileFilter>, modulesToClasses: map<string, seq<string>>)

  /** The default chain reads no class file, so the walk cannot raise. */
  lemma DefaultWalkSucceeds(directory: string, disk: Disk)
    ensures LegacyMavenProject.Walk(directory, DefaultFilters, disk).Success?
  {
    assert LegacyMavenProject.NoAbstractClass !in DefaultFilters;
    forall m | m in LegacyMavenProject.Modules(disk.walk(directory))
      ensures LegacyMavenProject.TargetClasses(disk.walk(Paths.PathJoin(m, "target")), DefaultFilters, disk).Success?
    {
      var es := disk.walk(Paths.PathJoin(m, "target"));
      forall k | 0 <= k < |es|
        ensures LegacyMavenProject.ApplyFilters(DefaultFilters, disk, LegacyMavenProject.JoinEach(es[k].root, es[k].files)).Success?
      {
        LegacyMavenProject.NoClassfileNoFailure(DefaultFilters, disk, LegacyMavenProject.JoinEach(es[k].root, es[k].files));
      }
    }
  }

  /** `PatternEnumerator(directory)`: the default chain, then the walk as
      written. The modules are the walk's `pom.xml`-and-`target`
      directories, each holding the paths its `target` walk records with
      the doubled join. */
  function Create(directory: string, disk: Disk): (e: PatternEnumerator)
    ensures e.directory == directory && e.filters == DefaultFilters
    ensures forall m :: m in e.modulesToClasses <==> m in LegacyMavenProject.Modules(disk.walk(directory))
    ensures forall m :: m in e.modulesToClasses ==>
              Success(e.modulesToClasses[m])
              == LegacyMavenProject.TargetClassesAsWritten(disk.walk(Paths.PathJoin(m, "target")), DefaultFilters, disk)
  {
    DefaultWalkSucceeds(directory, disk);
    PatternEnumerator(directory, DefaultFilters, LegacyMavenProject.Walk(directory, DefaultFilters, disk).value)
  }

  /** Under an absolute directory a module records exactly the files
      walked below its `target` whose name follows the test-class
      pattern. */
  lemma CreateKeepsTestFiles(directory: string, disk: Disk)
    requires LegacyMavenProject.Absolute(directory) && LegacyMavenProject.WalksAbsolute(disk)
    ensures var classes := Create(directory, disk).modulesToClasses;
            forall m, path :: m in classes && path in classes[m] ==>
              disk.isFile(path) && MavenProject.SurefireDefault(Paths.Basename(path))
    ensures var classes := Create(directory, disk).modulesToClasses;
            forall m, path ::
              m in classes && path in LegacyMavenProject.WalkedPaths(disk.walk(Paths.PathJoin(m, "target"))) &&
              disk.isFile(path) && MavenProject.SurefireDefault(Paths.Basename(path))
              ==> path in classes[m]
  {
    DefaultWalkSucceeds(directory, disk);
    LegacyMavenProject.AbsoluteWalkAgrees(directory, DefaultFilters, disk);
    var classes := LegacyMavenProject.IntendedWalk(directory, DefaultFilters, disk).value;
    forall m, path | m in classes && path in classes[m]
      ensures disk.isFile(path) && MavenProject.SurefireDefault(Paths.Basename(path))
    {
      DefaultAccepted(disk, path);
    }
    forall m, path | m in classes && path in LegacyMavenProject.WalkedPaths(disk.walk(Paths.PathJoin(m, "target"))) &&
                     disk.isFile(path) && MavenProject.SurefireDefault(Paths.Basename(path))
      ensures path in classes[m]
    {
      DefaultAccepted(disk, path);
      LegacyMavenProject.IntendedRecords(LegacyMavenProject.Modules(disk.walk(directory)), DefaultFilters, disk, m);
    }
  }

  /** The default chain accepts exactly the files with a test-class name. */
  lemma DefaultAccepted(disk: Disk, path: string)
    ensures LegacyMavenProject.AcceptedByAll(DefaultFilters, disk, path) <==>
              disk.isFile(path) && MavenProject.SurefireDefault(Paths.Basename(path))
  {
    var named := LegacyMavenProject.TestClassNameAccepts(path);
    assert named == MavenProject.SurefireDefault(Paths.Basename(path));
    assert LegacyMavenProject.Accept(DefaultFilters[0], disk, path) == Success(disk.isFile(path));
    assert LegacyMavenProject.Accept(DefaultFilters[1], disk, path) == Success(named);
  }

  /** `add_filter`: the filter is appended to the chain, but the walk ran in
      the constructor, so the recorded classes stay as they were. Adding
      the classfile filter to the default chain gives the legacy
      `MavenProject` chain. */
  function AddFilter(e: PatternEnumerator, f: FileFilter): (r: PatternEnumerator)
    ensures |r.filters| == |e.filters| + 1 && r.filters[..|e.filters|] == e.filters && r.filters[|e.filters|] == f
    ensures r.modulesToClasses == e.modulesToClasses && r.directory == e.directory
    ensures e.filters == DefaultFilters && f == LegacyMavenProject.NoAbstractClass ==> r.filters == LegacyMavenProject.Filters
  {
    e.(filters := e.filters + [f])
  }
}
