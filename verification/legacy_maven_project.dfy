/** The first-generation test enumerator (`MavenProject` of the legacy
    package): every directory holding a `pom.xml` and a `target` directory
    is a module, and each file under the module's `target` that passes the
    filter chain — it is a file, its name follows Surefire's default
    pattern, and its classfile header says it is concrete — is recorded
    against its module. The file system (`os.walk`, `os.path.isfile`, file
    contents) is a parameter. */
module LegacyMavenProject {
  import opened Wrappers
  import opened Strings
  import Paths
  import Seqs
  import Classfile
  import MavenProject

  /** One `(root, dirs, files)` triple of `os.walk`. */
  datatype WalkEntry = WalkEntry(root: string, dirs: seq<string>, files: seq<string>)

  /** What the enumerator reads from the file system: `os.path.isfile`, the
      bytes of a file, and the triples `os.walk` yields under a directory. */
  datatype Disk = Disk(isFile: string -> bool, contents: string -> seq<Classfile.Byte>, walk: string -> seq<WalkEntry>)

  type Error = Classfile.ClassfileError

  // ---------------------------------------------------------------------
  // Modules

  /** A module directory holds a `pom.xml` file and a `target` directory. */
  predicate IsModule(e: WalkEntry) {
    "pom.xml" in e.files && "target" in e.dirs
  }

  /** The roots of the walk that are modules, in walk order. */
  function Modules(walk: seq<WalkEntry>): (ms: seq<string>)
    ensures forall m :: m in ms <==> exists i :: 0 <= i < |walk| && walk[i].root == m && IsModule(walk[i])
  {
    if |walk| == 0 then []
    else
      var rest := Modules(walk[1..]);
      assert forall i :: 1 <= i < |walk| ==> walk[i] == walk[1..][i - 1];
      (if IsModule(walk[0]) then [walk[0].root] else []) + rest
  }

  // ---------------------------------------------------------------------
  // File filters

  datatype FileFilter = AnyFile | TestClassName | NoAbstractClass

  /** `PotentialTestClassNameFilter.accept` on a base name: the `.class`
      suffix first, then `$`, then the stem. It agrees with the reordered
      filter of the later package, which tests `$` first. */
  function TestClassBaseName(f: string): (r: bool)
    ensures r <==> MavenProject.SurefireDefault(f)
    ensures r == MavenProject.PotentialTestClassName(f)
  {
    if !EndsWith(f, ".class") then false
    else if '$' in f then false
    else
      var name := f[..|f| - 6];
      MavenProject.StemForms(f);
      StartsWith(name, "Test") || EndsWith(name, "Test") || EndsWith(name, "TestCase")
  }

  /** The filter applies to the base name of the path. */
  function TestClassNameAccepts(path: string): bool {
    TestClassBaseName(Paths.Basename(path))
  }

  /** `NoAbstractClassFilter.accept`: load the classfile (whose errors are
      raised out of the filter) and keep it unless its header says
      interface or abstract. */
  function ConcreteClass(path: string, disk: Disk): (r: Result<bool, Error>)
    ensures !EndsWith(path, Classfile.ClassSuffix) ==> r == Failure(Classfile.NotAClassFile)
    ensures r.Success? <==> Classfile.Load(path, disk.contents(path)).Success?
    ensures r.Failure? ==> Classfile.Load(path, disk.contents(path)) == Failure(r.error)
    ensures r == Success(true) ==>
              var flags := Classfile.Load(path, disk.contents(path)).value.header.accessFlags;
              flags < 0x1_0000 && !Classfile.IsInterface(flags) && !Classfile.IsAbstract(flags)
  {
    match Classfile.Load(path, disk.contents(path))
    case Failure(e) => Failure(e)
    case Success(c) =>
      var flags := c.header.accessFlags;
      assert flags < 0x1_0000;
      Success(!(Classfile.IsInterface(flags) || Classfile.IsAbstract(flags)))
  }

  /** Each filter's `accept`; only the classfile filter can raise. */
  function Accept(fil: FileFilter, disk: Disk, path: string): (r: Result<bool, Error>)
    ensures fil != NoAbstractClass ==> r.Success?
  {
    match fil
    case AnyFile => Success(disk.isFile(path))
    case TestClassName => Success(TestClassNameAccepts(path))
    case NoAbstractClass => ConcreteClass(path, disk)
  }

  /** One filter's `accept` as a function of the path. */
  function AcceptOf(fil: FileFilter, disk: Disk): string -> Result<bool, Error> {
    (x: string) => Accept(fil, disk, x)
  }

  function Kept(fil: FileFilter, disk: Disk): string -> bool {
    Accepting(AcceptOf(fil, disk))
  }

  function Accepting(accept: string -> Result<bool, Error>): string -> bool {
    (x: string) => accept(x) == Success(true)
  }

  /** `[x for x in xs if fil.accept(x)]`: the first exception ends the
      comprehension; otherwise the accepted paths stay, in order. */
  function FilterWith(accept: string -> Result<bool, Error>, xs: seq<string>): (r: Result<seq<string>, Error>)
    ensures r.Success? <==> forall i :: 0 <= i < |xs| ==> accept(xs[i]).Success?
    ensures r.Success? ==> r.value == Seqs.Filter(xs, Accepting(accept))
    ensures r.Failure? ==> exists i :: 0 <= i < |xs| && accept(xs[i]) == Failure(r.error)
  {
    if |xs| == 0 then Success([])
    else
      assert forall i :: 1 <= i < |xs| ==> xs[i] == xs[1..][i - 1];
      match accept(xs[0])
      case Failure(e) => Failure(e)
      case Success(keep) =>
        match FilterWith(accept, xs[1..])
        case Failure(e) => Failure(e)
        case Success(rest) => Success((if keep then [xs[0]] else []) + rest)
  }

  /** Every filter of `fs` accepts `x`. */
  predicate AcceptedByAll(fs: seq<FileFilter>, disk: Disk, x: string) {
    forall j :: 0 <= j < |fs| ==> Accept(fs[j], disk, x) == Success(true)
  }

  /** The filters applied in turn, each to what the previous ones kept.
      What survives is exactly what was in the input and is accepted by
      every filter. */
  function ApplyFilters(fs: seq<FileFilter>, disk: Disk, xs: seq<string>): (r: Result<seq<string>, Error>)
    ensures r.Success? ==> forall y :: y in r.value ==> y in xs && AcceptedByAll(fs, disk, y)
    ensures r.Success? ==> forall y :: y in xs && AcceptedByAll(fs, disk, y) ==> y in r.value
    decreases |fs|
  {
    if |fs| == 0 then Success(xs)
    else match FilterWith(AcceptOf(fs[0], disk), xs)
      case Failure(e) => Failure(e)
      case Success(ys) =>
        FilterWithKept(AcceptOf(fs[0], disk), xs, ys);
        FilterWithComplete(AcceptOf(fs[0], disk), xs, ys);
        var r := ApplyFilters(fs[1..], disk, ys);
        AcceptedByAllCons(fs, disk, r);
        AcceptedByAllTail(fs, disk);
        r
  }

  /** Everything the accept function keeps survives the comprehension. */
  lemma FilterWithComplete(accept: string -> Result<bool, Error>, xs: seq<string>, ys: seq<string>)
    requires FilterWith(accept, xs) == Success(ys)
    ensures forall y :: y in xs && accept(y) == Success(true) ==> y in ys
  {
    forall y | y in xs && accept(y) == Success(true)
      ensures y in ys
    {
      var k :| 0 <= k < |xs| && xs[k] == y;
      assert Accepting(accept)(xs[k]);
    }
  }

  /** A path every filter accepts is accepted by the first filter and by
      every later one. */
  lemma AcceptedByAllTail(fs: seq<FileFilter>, disk: Disk)
    requires |fs| > 0
    ensures forall y :: AcceptedByAll(fs, disk, y) ==> AcceptOf(fs[0], disk)(y) == Success(true) && AcceptedByAll(fs[1..], disk, y)
  {
    assert forall j :: 1 <= j < |fs| ==> fs[1..][j - 1] == fs[j];
  }

  lemma FilterWithKept(accept: string -> Result<bool, Error>, xs: seq<string>, ys: seq<string>)
    requires FilterWith(accept, xs) == Success(ys)
    ensures forall y :: y in ys ==> y in xs && accept(y) == Success(true)
  {
    forall y | y in ys
      ensures y in xs && accept(y) == Success(true)
    {
      var k :| 0 <= k < |ys| && ys[k] == y;
      assert Accepting(accept)(ys[k]);
    }
  }

  lemma AcceptedByAllCons(fs: seq<FileFilter>, disk: Disk, r: Result<seq<string>, Error>)
    requires |fs| > 0
    requires r.Success? ==> forall y :: y in r.value ==> AcceptedByAll(fs[1..], disk, y) && AcceptOf(fs[0], disk)(y) == Success(true)
    ensures r.Success? ==> forall y :: y in r.value ==> AcceptedByAll(fs, disk, y)
  {
    assert forall j :: 1 <= j < |fs| ==> fs[j] == fs[1..][j - 1];
  }

  /** A chain without the classfile filter never raises. */
  lemma {:induction false} NoClassfileNoFailure(fs: seq<FileFilter>, disk: Disk, xs: seq<string>)
    requires NoAbstractClass !in fs
    ensures ApplyFilters(fs, disk, xs).Success?
    decreases |fs|
  {
    if |fs| > 0 {
      assert FilterWith(AcceptOf(fs[0], disk), xs).Success?;
      NoClassfileNoFailure(fs[1..], disk, FilterWith(AcceptOf(fs[0], disk), xs).value);
    }
  }

  /** The chain the enumerator builds. */
  const Filters: seq<FileFilter> := [AnyFile, TestClassName, NoAbstractClass]

  /** A file that passes the two cheap filters. */
  function NamedFile(disk: Disk): string -> bool {
    (x: string) => disk.isFile(x) && TestClassNameAccepts(x)
  }

  /** A file the whole chain keeps. */
  function KeptClass(disk: Disk): (kept: string -> bool)
    ensures forall x :: kept(x) ==> disk.isFile(x) && EndsWith(x, Classfile.ClassSuffix)
  {
    var kept := (x: string) => disk.isFile(x) && MavenProject.SurefireDefault(Paths.Basename(x)) && ConcreteClass(x, disk) == Success(true);
    forall x | kept(x) ensures EndsWith(x, Classfile.ClassSuffix) {
      SurefireIsClass(Paths.Basename(x));
      EndsWithTrans(x, Paths.Basename(x), Classfile.ClassSuffix);
    }
    kept
  }

  /** A name of the default test forms ends in `.class`. */
  lemma SurefireIsClass(f: string)
    requires MavenProject.SurefireDefault(f)
    ensures EndsWith(f, Classfile.ClassSuffix)
  {
    if EndsWith(f, "Test.class") {
      EndsWithTrans(f, "Test.class", Classfile.ClassSuffix);
    } else if EndsWith(f, "TestCase.class") {
      EndsWithTrans(f, "TestCase.class", Classfile.ClassSuffix);
    }
  }

  /** The chain keeps exactly the files with a test-class name whose header
      says concrete. It raises only if a file that passed the name filter
      cannot be loaded, so the classfile filter never sees a name without
      the `.class` suffix. */
  lemma FiltersKeep(disk: Disk, xs: seq<string>)
    ensures ApplyFilters(Filters, disk, xs).Success? <==>
              forall i :: 0 <= i < |xs| && NamedFile(disk)(xs[i]) ==> Classfile.Load(xs[i], disk.contents(xs[i])).Success?
    ensures ApplyFilters(Filters, disk, xs).Success? ==> ApplyFilters(Filters, disk, xs).value == Seqs.Filter(xs, KeptClass(disk))
    ensures ApplyFilters(Filters, disk, xs).Failure? ==>
              exists i :: 0 <= i < |xs| && NamedFile(disk)(xs[i]) && EndsWith(xs[i], Classfile.ClassSuffix)
                       && Classfile.Load(xs[i], disk.contents(xs[i])) == Failure(ApplyFilters(Filters, disk, xs).error)
  {
    ChainOrder(disk, xs);
    LoadFilter(disk, xs, Seqs.Filter(xs, NamedFile(disk)));
  }

  /** The two filters that cannot raise act first, as one filter. */
  lemma ChainOrder(disk: Disk, xs: seq<string>)
    ensures ApplyFilters(Filters, disk, xs) == FilterWith(AcceptOf(NoAbstractClass, disk), Seqs.Filter(xs, NamedFile(disk)))
  {
    var ys := Seqs.Filter(xs, Kept(AnyFile, disk));
    var zs := Seqs.Filter(ys, Kept(TestClassName, disk));
    ChainFirst(disk, xs);
    ChainSecond(disk, ys);
    ApplyLast(NoAbstractClass, disk, zs);
    NamedFilter(disk, xs);
  }

  /** The file filter cannot raise: the chain goes on with what it keeps. */
  lemma ChainFirst(disk: Disk, xs: seq<string>)
    ensures ApplyFilters(Filters, disk, xs)
         == ApplyFilters([TestClassName, NoAbstractClass], disk, Seqs.Filter(xs, Kept(AnyFile, disk)))
  {
    var ys := Seqs.Filter(xs, Kept(AnyFile, disk));
    assert FilterWith(AcceptOf(AnyFile, disk), xs) == Success(ys);
    ApplyCons(Filters, disk, xs, ys);
    assert Filters[1..] == [TestClassName, NoAbstractClass];
  }

  /** Nor can the name filter. */
  lemma ChainSecond(disk: Disk, ys: seq<string>)
    ensures ApplyFilters([TestClassName, NoAbstractClass], disk, ys)
         == ApplyFilters([NoAbstractClass], disk, Seqs.Filter(ys, Kept(TestClassName, disk)))
  {
    var zs := Seqs.Filter(ys, Kept(TestClassName, disk));
    assert FilterWith(AcceptOf(TestClassName, disk), ys) == Success(zs);
    ApplyCons([TestClassName, NoAbstractClass], disk, ys, zs);
    assert [TestClassName, NoAbstractClass][1..] == [NoAbstractClass];
  }

  lemma ApplyCons(fs: seq<FileFilter>, disk: Disk, xs: seq<string>, ys: seq<string>)
    requires |fs| > 0 && FilterWith(AcceptOf(fs[0], disk), xs) == Success(ys)
    ensures ApplyFilters(fs, disk, xs) == ApplyFilters(fs[1..], disk, ys)
  {
  }

  lemma ApplyLast(fil: FileFilter, disk: Disk, xs: seq<string>)
    ensures ApplyFilters([fil], disk, xs) == FilterWith(AcceptOf(fil, disk), xs)
  {
    assert [fil][1..] == [];
  }

  lemma NamedFilter(disk: Disk, xs: seq<string>)
    ensures Seqs.Filter(Seqs.Filter(xs, Kept(AnyFile, disk)), Kept(TestClassName, disk)) == Seqs.Filter(xs, NamedFile(disk))
  {
    Seqs.FilterFilter(xs, Kept(AnyFile, disk), Kept(TestClassName, disk), NamedFile(disk));
  }

  /** The classfile filter over the files that passed the name filters. */
  lemma LoadFilter(disk: Disk, xs: seq<string>, zs: seq<string>)
    requires zs == Seqs.Filter(xs, NamedFile(disk))
    ensures FilterWith(AcceptOf(NoAbstractClass, disk), zs).Success? <==>
              forall i :: 0 <= i < |xs| && NamedFile(disk)(xs[i]) ==> Classfile.Load(xs[i], disk.contents(xs[i])).Success?
    ensures FilterWith(AcceptOf(NoAbstractClass, disk), zs).Success? ==>
              FilterWith(AcceptOf(NoAbstractClass, disk), zs).value == Seqs.Filter(xs, KeptClass(disk))
    ensures FilterWith(AcceptOf(NoAbstractClass, disk), zs).Failure? ==>
              exists i :: 0 <= i < |xs| && NamedFile(disk)(xs[i]) && EndsWith(xs[i], Classfile.ClassSuffix)
                       && Classfile.Load(xs[i], disk.contents(xs[i])) == Failure(FilterWith(AcceptOf(NoAbstractClass, disk), zs).error)
  {
    var r := FilterWith(AcceptOf(NoAbstractClass, disk), zs);
    NamedLoads(disk, xs, zs);
    if r.Success? {
      Seqs.FilterFilter(xs, NamedFile(disk), Kept(NoAbstractClass, disk), KeptClass(disk));
    }
  }

  /** The files that passed the name filters are class files, and the
      classfile filter raises on one exactly when loading it fails. */
  lemma NamedLoads(disk: Disk, xs: seq<string>, zs: seq<string>)
    requires zs == Seqs.Filter(xs, NamedFile(disk))
    ensures forall i :: 0 <= i < |zs| ==> NamedFile(disk)(zs[i]) && EndsWith(zs[i], Classfile.ClassSuffix)
    ensures forall i :: 0 <= i < |zs| ==>
              (AcceptOf(NoAbstractClass, disk)(zs[i]).Success? <==> Classfile.Load(zs[i], disk.contents(zs[i])).Success?)
  {
    forall i | 0 <= i < |zs|
      ensures NamedFile(disk)(zs[i]) && EndsWith(zs[i], Classfile.ClassSuffix)
      ensures AcceptOf(NoAbstractClass, disk)(zs[i]).Success? <==> Classfile.Load(zs[i], disk.contents(zs[i])).Success?
    {
      NamedLoad(disk, zs[i]);
    }
  }

  lemma NamedLoad(disk: Disk, path: string)
    requires NamedFile(disk)(path)
    ensures EndsWith(path, Classfile.ClassSuffix)
    ensures AcceptOf(NoAbstractClass, disk)(path).Success? <==> Classfile.Load(path, disk.contents(path)).Success?
  {
    NamedClassSuffix(path);
  }

  /** A name the test-name filter accepts ends with `.class`. */
  lemma NamedClassSuffix(path: string)
    requires TestClassNameAccepts(path)
    ensures EndsWith(path, Classfile.ClassSuffix)
  {
    EndsWithTrans(path, Paths.Basename(path), ".class");
  }

  // ---------------------------------------------------------------------
  // Walking a module's target directory

  function JoinEach(root: string, files: seq<string>): (r: seq<string>)
    ensures |r| == |files| && forall i :: 0 <= i < |files| ==> r[i] == Paths.PathJoin(root, files[i])
  {
    Seqs.Map(files, (f: string) => Paths.PathJoin(root, f))
  }

  /** The classes a module's `target` walk contributes: each directory's
      files, joined to the directory, filtered, in walk order. */
  function TargetClasses(es: seq<WalkEntry>, fs: seq<FileFilter>, disk: Disk): (r: Result<seq<string>, Error>)
    ensures r.Success? <==> forall k :: 0 <= k < |es| ==> ApplyFilters(fs, disk, JoinEach(es[k].root, es[k].files)).Success?
    ensures r.Success? ==> forall y :: y in r.value ==> AcceptedByAll(fs, disk, y)
    ensures r.Success? ==> forall y :: y in r.value ==> y in WalkedPaths(es)
    ensures r.Success? ==> forall y :: y in WalkedPaths(es) && AcceptedByAll(fs, disk, y) ==> y in r.value
  {
    if |es| == 0 then Success([])
    else
      TargetSucceedsCons(es, fs, disk);
      match ApplyFilters(fs, disk, JoinEach(es[0].root, es[0].files))
      case Failure(e) => Failure(e)
      case Success(kept) =>
        match TargetClasses(es[1..], fs, disk)
        case Failure(e) => Failure(e)
        case Success(rest) =>
          WalkedCons(es, fs, disk, kept, rest);
          Success(kept + rest)
  }

  /** The walk succeeds when the first directory's chain does and the rest
      of the walk does. */
  lemma TargetSucceedsCons(es: seq<WalkEntry>, fs: seq<FileFilter>, disk: Disk)
    requires |es| > 0
    ensures (forall k :: 0 <= k < |es| ==> ApplyFilters(fs, disk, JoinEach(es[k].root, es[k].files)).Success?) <==>
              ApplyFilters(fs, disk, JoinEach(es[0].root, es[0].files)).Success? &&
              forall k :: 0 <= k < |es[1..]| ==> ApplyFilters(fs, disk, JoinEach(es[1..][k].root, es[1..][k].files)).Success?
  {
    var ok := (e: WalkEntry) => ApplyFilters(fs, disk, JoinEach(e.root, e.files)).Success?;
    Seqs.AllCons(es, ok);
  }

  /** The paths kept from the first directory and from the rest are
      exactly the walked paths accepted by every filter. */
  lemma WalkedCons(es: seq<WalkEntry>, fs: seq<FileFilter>, disk: Disk, kept: seq<string>, rest: seq<string>)
    requires |es| > 0
    requires ApplyFilters(fs, disk, JoinEach(es[0].root, es[0].files)) == Success(kept)
    requires forall y :: y in rest ==> y in WalkedPaths(es[1..]) && AcceptedByAll(fs, disk, y)
    requires forall y :: y in WalkedPaths(es[1..]) && AcceptedByAll(fs, disk, y) ==> y in rest
    ensures forall y :: y in kept + rest ==> y in WalkedPaths(es) && AcceptedByAll(fs, disk, y)
    ensures forall y :: y in WalkedPaths(es) && AcceptedByAll(fs, disk, y) ==> y in kept + rest
  {
  }

  /** Every file the walk lists, joined to its directory. */
  function WalkedPaths(es: seq<WalkEntry>): seq<string> {
    if |es| == 0 then [] else JoinEach(es[0].root, es[0].files) + WalkedPaths(es[1..])
  }

  function Rejoin(root: string): string -> string {
    (x: string) => Paths.PathJoin(root, x)
  }

  /** As written, the recorded path is `os.path.join(root, f)` where `f` is
      already `os.path.join(root, name)`: the directory is joined twice. */
  function TargetClassesAsWritten(es: seq<WalkEntry>, fs: seq<FileFilter>, disk: Disk): (r: Result<seq<string>, Error>)
    ensures r.Success? <==> TargetClasses(es, fs, disk).Success?
    ensures r.Success? ==> |r.value| == |TargetClasses(es, fs, disk).value|
  {
    if |es| == 0 then Success([])
    else
      match ApplyFilters(fs, disk, JoinEach(es[0].root, es[0].files))
      case Failure(e) => Failure(e)
      case Success(kept) =>
        match TargetClassesAsWritten(es[1..], fs, disk)
        case Failure(e) => Failure(e)
        case Success(rest) => Success(Seqs.Map(kept, Rejoin(es[0].root)) + rest)
  }

  predicate Absolute(p: string) {
    |p| > 0 && p[0] == '/'
  }

  lemma JoinAbsolute(root: string, f: string)
    requires Absolute(root)
    ensures Absolute(Paths.PathJoin(root, f))
  {
  }

  /** Under absolute directories the second join is harmless: joining an
      absolute path returns it unchanged, so both versions record the same
      paths. */
  lemma {:induction false} AbsoluteRootsAgree(es: seq<WalkEntry>, fs: seq<FileFilter>, disk: Disk)
    requires forall k :: 0 <= k < |es| ==> Absolute(es[k].root)
    ensures TargetClassesAsWritten(es, fs, disk) == TargetClasses(es, fs, disk)
  {
    if |es| > 0 {
      AbsoluteRootsAgree(es[1..], fs, disk);
      var r := ApplyFilters(fs, disk, JoinEach(es[0].root, es[0].files));
      if r.Success? {
        RejoinAbsolute(es[0].root, es[0].files, r.value);
      }
    }
  }

  lemma RejoinAbsolute(root: string, files: seq<string>, kept: seq<string>)
    requires Absolute(root)
    requires forall y :: y in kept ==> y in JoinEach(root, files)
    ensures Seqs.Map(kept, Rejoin(root)) == kept
  {
    forall i | 0 <= i < |kept|
      ensures Rejoin(root)(kept[i]) == kept[i]
    {
      var joined := JoinEach(root, files);
      assert kept[i] in kept;
      var k :| 0 <= k < |joined| && joined[k] == kept[i];
      JoinAbsolute(root, files[k]);
    }
  }

  /** Under a relative directory the second join repeats the directory. */
  lemma RelativeRootDoubles(root: string, f: string)
    requires |root| > 0 && root[0] != '/' && root[|root| - 1] != '/'
    requires |f| > 0 && f[0] != '/'
    ensures Paths.PathJoin(root, f) == root + "/" + f
    ensures Rejoin(root)(Paths.PathJoin(root, f)) == root + "/" + root + "/" + f
    ensures Rejoin(root)(Paths.PathJoin(root, f)) != Paths.PathJoin(root, f)
  {
  }

  /** A walk run from the relative directory `p`: one test class in
      `p/target`, kept by the name filters, is recorded under a path that
      does not exist. */
  lemma DoubledJoinExample(disk: Disk)
    requires forall x :: disk.isFile(x)
    ensures TargetClasses([WalkEntry("p/target", [], ["TestA.class"])], [AnyFile, TestClassName], disk) == Success(["p/target/TestA.class"])
    ensures TargetClassesAsWritten([WalkEntry("p/target", [], ["TestA.class"])], [AnyFile, TestClassName], disk) == Success(["p/target/p/target/TestA.class"])
  {
    var path := "p/target/TestA.class";
    var e := WalkEntry("p/target", [], ["TestA.class"]);
    ExampleJoin();
    ExamplePathKept(disk);
    SingleEntry(e, [AnyFile, TestClassName], disk, [path]);
    ExampleRejoin();
    assert Seqs.Map([path], Rejoin("p/target")) == ["p/target/p/target/TestA.class"];
  }

  /** The example's one file passes the name filters. */
  lemma ExamplePathKept(disk: Disk)
    requires forall x :: disk.isFile(x)
    ensures ApplyFilters([AnyFile, TestClassName], disk, ["p/target/TestA.class"]) == Success(["p/target/TestA.class"])
  {
    var path := "p/target/TestA.class";
    ExampleFiltered(disk);
    ApplyCons([AnyFile, TestClassName], disk, [path], [path]);
    assert [AnyFile, TestClassName][1..] == [TestClassName];
    ApplyLast(TestClassName, disk, [path]);
  }

  /** Each of the two name filters keeps the example's file. */
  lemma ExampleFiltered(disk: Disk)
    requires forall x :: disk.isFile(x)
    ensures FilterWith(AcceptOf(AnyFile, disk), ["p/target/TestA.class"]) == Success(["p/target/TestA.class"])
    ensures FilterWith(AcceptOf(TestClassName, disk), ["p/target/TestA.class"]) == Success(["p/target/TestA.class"])
  {
    var path := "p/target/TestA.class";
    ExampleName();
    assert AcceptOf(AnyFile, disk)(path) == Success(true);
    FilterOne(AcceptOf(AnyFile, disk), path);
    assert AcceptOf(TestClassName, disk)(path) == Success(true);
    FilterOne(AcceptOf(TestClassName, disk), path);
  }

  lemma FilterOne(accept: string -> Result<bool, Error>, x: string)
    requires accept(x) == Success(true)
    ensures FilterWith(accept, [x]) == Success([x])
  {
    assert [x][1..] == [];
    assert FilterWith(accept, []) == Success([]);
    assert [x] + [] == [x];
  }

  /** A walk of one directory records what the filters keep there. */
  lemma SingleEntry(e: WalkEntry, fs: seq<FileFilter>, disk: Disk, kept: seq<string>)
    requires ApplyFilters(fs, disk, JoinEach(e.root, e.files)) == Success(kept)
    ensures TargetClasses([e], fs, disk) == Success(kept)
    ensures TargetClassesAsWritten([e], fs, disk) == Success(Seqs.Map(kept, Rejoin(e.root)))
  {
    assert [e][1..] == [];
    assert TargetClasses([], fs, disk) == Success([]);
    assert TargetClassesAsWritten([], fs, disk) == Success([]);
    assert kept + [] == kept;
    assert Seqs.Map(kept, Rejoin(e.root)) + [] == Seqs.Map(kept, Rejoin(e.root));
  }

  lemma ExampleRejoin()
    ensures Seqs.Map(["p/target/TestA.class"], Rejoin("p/target")) == ["p/target/p/target/TestA.class"]
  {
    assert Rejoin("p/target")("p/target/TestA.class") == "p/target/p/target/TestA.class";
  }

  lemma ExampleJoin()
    ensures JoinEach("p/target", ["TestA.class"]) == ["p/target/TestA.class"]
  {
    assert Paths.PathJoin("p/target", "TestA.class") == "p/target/TestA.class";
  }

  lemma ExampleName()
    ensures TestClassNameAccepts("p/target/TestA.class")
  {
    ExampleBasename();
    ExampleSurefire();
  }

  lemma ExampleBasename()
    ensures Paths.Basename("p/target/TestA.class") == "TestA.class"
  {
    Paths.BasenameJoined("p/target", "TestA.class");
    assert "p/target" + "/" + "TestA.class" == "p/target/TestA.class";
  }

  lemma ExampleSurefire()
    ensures MavenProject.SurefireDefault("TestA.class")
  {
    assert "TestA.class"[..4] == "Test";
    assert "TestA.class"[|"TestA.class"| - 6..] == ".class";
  }

  // ---------------------------------------------------------------------
  // The whole project

  /** `modules_to_classes` filled module by module; the first exception
      ends the walk. */
  function Collect(ms: seq<string>, classesOf: string -> Result<seq<string>, Error>): (r: Result<map<string, seq<string>>, Error>)
    ensures r.Success? <==> forall i :: 0 <= i < |ms| ==> classesOf(ms[i]).Success?
    ensures r.Success? ==> forall m :: m in r.value <==> m in ms
    ensures r.Success? ==> forall m :: m in r.value ==> classesOf(m) == Success(r.value[m])
  {
    if |ms| == 0 then Success(map[])
    else
      assert forall i :: 1 <= i < |ms| ==> ms[i] == ms[1..][i - 1];
      match classesOf(ms[0])
      case Failure(e) => Failure(e)
      case Success(cs) =>
        match Collect(ms[1..], classesOf)
        case Failure(e) => Failure(e)
        case Success(rest) => Success(rest[ms[0] := cs])
  }

  /** The classes a module records as written: its `target` walk with the
      doubled join. */
  function ModuleClasses(fs: seq<FileFilter>, disk: Disk): string -> Result<seq<string>, Error> {
    (m: string) => TargetClassesAsWritten(disk.walk(Paths.PathJoin(m, "target")), fs, disk)
  }

  /** The classes a module would record with the single join. */
  function IntendedModuleClasses(fs: seq<FileFilter>, disk: Disk): string -> Result<seq<string>, Error> {
    (m: string) => TargetClasses(disk.walk(Paths.PathJoin(m, "target")), fs, disk)
  }

  /** `_walk` with a given filter chain, as written: the modules under
      `top`, each mapped to the paths its `target` walk records with the
      doubled join. It raises exactly when some module's filter chain
      raises. */
  function Walk(top: string, fs: seq<FileFilter>, disk: Disk): (r: Result<map<string, seq<string>>, Error>)
    ensures r.Success? ==> forall m :: m in r.value <==> m in Modules(disk.walk(top))
    ensures r.Success? ==> forall m :: m in r.value ==>
              Success(r.value[m]) == TargetClassesAsWritten(disk.walk(Paths.PathJoin(m, "target")), fs, disk)
    ensures r.Failure? <==> exists m :: m in Modules(disk.walk(top)) && TargetClasses(disk.walk(Paths.PathJoin(m, "target")), fs, disk).Failure?
  {
    WalkFails(Modules(disk.walk(top)), fs, disk);
    Collect(Modules(disk.walk(top)), ModuleClasses(fs, disk))
  }

  lemma WalkFails(ms: seq<string>, fs: seq<FileFilter>, disk: Disk)
    ensures Collect(ms, ModuleClasses(fs, disk)).Failure? <==>
              exists m :: m in ms && TargetClasses(disk.walk(Paths.PathJoin(m, "target")), fs, disk).Failure?
  {
    var r := Collect(ms, ModuleClasses(fs, disk));
    if r.Failure? {
      var i :| 0 <= i < |ms| && ModuleClasses(fs, disk)(ms[i]).Failure?;
      assert TargetClasses(disk.walk(Paths.PathJoin(ms[i], "target")), fs, disk).Failure?;
    } else {
      forall m | m in ms
        ensures TargetClasses(disk.walk(Paths.PathJoin(m, "target")), fs, disk).Success?
      {
        assert ModuleClasses(fs, disk)(m).Success?;
      }
    }
  }

  /** `_walk` with the single join the code evidently intends: every
      recorded path was walked and is accepted by every filter. */
  function IntendedWalk(top: string, fs: seq<FileFilter>, disk: Disk): (r: Result<map<string, seq<string>>, Error>)
    ensures r.Success? ==> forall m :: m in r.value <==> m in Modules(disk.walk(top))
    ensures r.Success? ==> forall m, path :: m in r.value && path in r.value[m] ==> AcceptedByAll(fs, disk, path)
    ensures r.Failure? <==> exists m :: m in Modules(disk.walk(top)) && TargetClasses(disk.walk(Paths.PathJoin(m, "target")), fs, disk).Failure?
  {
    CollectAccepted(Modules(disk.walk(top)), fs, disk);
    Collect(Modules(disk.walk(top)), IntendedModuleClasses(fs, disk))
  }

  lemma CollectAccepted(ms: seq<string>, fs: seq<FileFilter>, disk: Disk)
    ensures Collect(ms, IntendedModuleClasses(fs, disk)).Failure? <==>
              exists m :: m in ms && TargetClasses(disk.walk(Paths.PathJoin(m, "target")), fs, disk).Failure?
    ensures Collect(ms, IntendedModuleClasses(fs, disk)).Success? ==>
              forall m, path :: m in Collect(ms, IntendedModuleClasses(fs, disk)).value && path in Collect(ms, IntendedModuleClasses(fs, disk)).value[m] ==> AcceptedByAll(fs, disk, path)
  {
    var r := Collect(ms, IntendedModuleClasses(fs, disk));
    if r.Success? {
      forall m, path | m in r.value && path in r.value[m]
        ensures AcceptedByAll(fs, disk, path)
      {
        assert IntendedModuleClasses(fs, disk)(m) == Success(r.value[m]);
        var t := TargetClasses(disk.walk(Paths.PathJoin(m, "target")), fs, disk);
        assert t == Success(r.value[m]);
      }
    } else {
      var i :| 0 <= i < |ms| && IntendedModuleClasses(fs, disk)(ms[i]).Failure?;
      assert TargetClasses(disk.walk(Paths.PathJoin(ms[i], "target")), fs, disk).Failure?;
    }
  }

  /** `os.walk` started at an absolute directory yields absolute
      directories. */
  ghost predicate WalksAbsolute(disk: Disk) {
    forall top, k :: Absolute(top) && 0 <= k < |disk.walk(top)| ==> Absolute(disk.walk(top)[k].root)
  }

  /** Two ways of computing a module's classes that agree on every module
      fill the same map. */
  lemma {:induction false} CollectAgrees(ms: seq<string>, f: string -> Result<seq<string>, Error>, g: string -> Result<seq<string>, Error>)
    requires forall m :: m in ms ==> f(m) == g(m)
    ensures Collect(ms, f) == Collect(ms, g)
  {
    if |ms| > 0 {
      assert ms[0] in ms;
      assert forall m :: m in ms[1..] ==> m in ms;
      CollectAgrees(ms[1..], f, g);
    }
  }

  /** Under an absolute top directory every module, its `target` and every
      directory walked below it are absolute, so the doubled join changes
      nothing: the walk as written records what the intended walk does. */
  lemma AbsoluteWalkAgrees(top: string, fs: seq<FileFilter>, disk: Disk)
    requires Absolute(top) && WalksAbsolute(disk)
    ensures Walk(top, fs, disk) == IntendedWalk(top, fs, disk)
  {
    var ms := Modules(disk.walk(top));
    forall m | m in ms
      ensures ModuleClasses(fs, disk)(m) == IntendedModuleClasses(fs, disk)(m)
    {
      var i :| 0 <= i < |disk.walk(top)| && disk.walk(top)[i].root == m && IsModule(disk.walk(top)[i]);
      assert Absolute(m);
      JoinAbsolute(m, "target");
      var es := disk.walk(Paths.PathJoin(m, "target"));
      assert forall k :: 0 <= k < |es| ==> Absolute(es[k].root);
      AbsoluteRootsAgree(es, fs, disk);
    }
    CollectAgrees(ms, ModuleClasses(fs, disk), IntendedModuleClasses(fs, disk));
  }

  /** `MavenProject(project_root)` as written: one entry per module, each
      holding the paths its `target` walk records through the full filter
      chain with the doubled join. */
  function Project(root: string, disk: Disk): (r: Result<map<string, seq<string>>, Error>)
    ensures r.Success? ==> forall m :: m in r.value <==> m in Modules(disk.walk(root))
    ensures r.Success? ==> forall m :: m in r.value ==>
              Success(r.value[m]) == TargetClassesAsWritten(disk.walk(Paths.PathJoin(m, "target")), Filters, disk)
    ensures r.Failure? <==> exists m :: m in Modules(disk.walk(root)) && TargetClasses(disk.walk(Paths.PathJoin(m, "target")), Filters, disk).Failure?
  {
    Walk(root, Filters, disk)
  }

  /** Under an absolute project root a module records exactly the files
      walked below its `target` that have a test-class name and whose
      header says concrete. */
  lemma ProjectKeepsClasses(root: string, disk: Disk)
    requires Absolute(root) && WalksAbsolute(disk)
    ensures Project(root, disk).Success? ==>
              forall m, path :: m in Project(root, disk).value && path in Project(root, disk).value[m] ==> KeptClass(disk)(path)
    ensures Project(root, disk).Success? ==>
              forall m, path :: m in Project(root, disk).value && path in WalkedPaths(disk.walk(Paths.PathJoin(m, "target"))) && KeptClass(disk)(path) ==>
                path in Project(root, disk).value[m]
  {
    AbsoluteWalkAgrees(root, Filters, disk);
    var r := IntendedWalk(root, Filters, disk);
    if r.Success? {
      forall m, path | m in r.value && path in r.value[m]
        ensures KeptClass(disk)(path)
      {
        AcceptedIsKept(disk, path);
      }
      forall m, path | m in r.value && path in WalkedPaths(disk.walk(Paths.PathJoin(m, "target"))) && KeptClass(disk)(path)
        ensures path in r.value[m]
      {
        KeptIsAccepted(disk, path);
        IntendedRecords(Modules(disk.walk(root)), Filters, disk, m);
      }
    }
  }

  /** A module the intended walk records holds its `target` walk's
      classes. */
  lemma IntendedRecords(ms: seq<string>, fs: seq<FileFilter>, disk: Disk, m: string)
    requires Collect(ms, IntendedModuleClasses(fs, disk)).Success? && m in Collect(ms, IntendedModuleClasses(fs, disk)).value
    ensures TargetClasses(disk.walk(Paths.PathJoin(m, "target")), fs, disk) == Success(Collect(ms, IntendedModuleClasses(fs, disk)).value[m])
  {
    assert IntendedModuleClasses(fs, disk)(m) == Success(Collect(ms, IntendedModuleClasses(fs, disk)).value[m]);
  }

  /** A kept class passes every filter of the chain. */
  lemma KeptIsAccepted(disk: Disk, path: string)
    requires KeptClass(disk)(path)
    ensures AcceptedByAll(Filters, disk, path)
  {
    assert Accept(Filters[1], disk, path) == Success(TestClassBaseName(Paths.Basename(path)));
  }

  /** A path the full chain accepts is a kept class. */
  lemma AcceptedIsKept(disk: Disk, path: string)
    requires AcceptedByAll(Filters, disk, path)
    ensures KeptClass(disk)(path)
  {
    assert Accept(Filters[0], disk, path) == Success(true);
    assert Accept(Filters[1], disk, path) == Success(true);
    assert Accept(Filters[2], disk, path) == Success(true);
  }
}
