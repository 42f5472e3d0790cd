/** The Java classfile reader used to drop abstract classes and interfaces
    from the test list: the class's qualified name comes from the directory
    layout below a `classes` or `test-classes` folder, and the header —
    magic, minor and major version, constant pool, access flags — is read
    as laid out in sections 4.1 and 4.4 of the Java Virtual Machine
    Specification, Java SE 7 edition. File contents are passed in as
    bytes. */
module Classfile {
  import opened Wrappers
  import opened Strings
  import Paths

  type Byte = b: int | 0 <= b < 256

  datatype ClassfileError =
    | NotAClassFile      // the path does not end in `.class`
    | NoPackage          // no `classes` or `test-classes` directory on the path
    | BadMagic           // the first four bytes are not 0xCAFEBABE
    | Truncated          // a read ran past the end of the file
    | UnknownTag(tag: Byte)

  const ClassSuffix := ".class"
  const Magic: nat := 0xCAFEBABE

  // ---------------------------------------------------------------------
  // Qualified name from the directory layout

  /** `__splitall(path)`: `os.path.split` applied until the head stops
      changing (an absolute path's root) or the tail is the whole path (a
      relative path's first component). */
  function SplitAll(path: string): (cs: seq<string>)
    ensures |cs| > 0
    decreases |path|
  {
    var head, tail := Paths.Dirname(path), Paths.Basename(path);
    if head == path then [head]
    else if tail == path then [tail]
    else SplitAll(head) + [tail]
  }

  predicate IsClassesDir(c: string) {
    c == "classes" || c == "test-classes"
  }

  /** The position of the first `classes` or `test-classes` component. */
  function FirstClassesDir(cs: seq<string>): (k: Option<nat>)
    ensures k.None? <==> forall i :: 0 <= i < |cs| ==> !IsClassesDir(cs[i])
    ensures k.Some? ==> k.value < |cs| && IsClassesDir(cs[k.value])
    ensures k.Some? ==> forall i :: 0 <= i < k.value ==> !IsClassesDir(cs[i])
  {
    if |cs| == 0 then None
    else if IsClassesDir(cs[0]) then Some(0)
    else match FirstClassesDir(cs[1..])
      case None => None
      case Some(j) => Some(j + 1)
  }

  /** `__determine_qualified_name(path)`: the directories after the first
      `classes` or `test-classes` one, joined by dots, then a dot and the
      file name without `.class`. */
  function QualifiedName(path: string): (r: Result<string, ClassfileError>)
    requires EndsWith(path, ClassSuffix)
    ensures r.Failure? <==> forall i :: 0 <= i < |SplitAll(path)| - 1 ==> !IsClassesDir(SplitAll(path)[i])
    ensures r.Failure? ==> r.error == NoPackage
  {
    var components := SplitAll(path)[..|SplitAll(path)| - 1];
    match FirstClassesDir(components)
    case None => Failure(NoPackage)
    case Some(x) =>
      var package := Join(components[x + 1..], ".");
      var filename := Paths.Basename(path);
      assert EndsWith(filename, ClassSuffix) by { BasenameOfClassPath(path); }
      var classname := filename[..|filename| - |ClassSuffix|];
      Success(Join([package, classname], "."))
  }

  lemma BasenameOfClassPath(path: string)
    requires EndsWith(path, ClassSuffix)
    ensures EndsWith(Paths.Basename(path), ClassSuffix)
  {
    EndsWithAfter(path, ClassSuffix, '/', Paths.RFind(path, '/'));
  }

  // ---------------------------------------------------------------------
  // Relative paths built from components

  predicate Component(c: string) {
    |c| > 0 && '/' !in c
  }

  predicate Components(cs: seq<string>) {
    forall i :: 0 <= i < |cs| ==> Component(cs[i])
  }

  lemma JoinSnoc(cs: seq<string>, c: string, sep: string)
    requires |cs| > 0
    ensures Join(cs + [c], sep) == Join(cs, sep) + sep + c
  {
    if |cs| > 1 {
      assert (cs + [c])[1..] == cs[1..] + [c];
      JoinSnoc(cs[1..], c, sep);
    }
  }

  /** A slash-joined path never starts or ends with a slash when its
      components are non-empty and slash-free. */
  lemma {:induction false} JoinedEnds(cs: seq<string>)
    requires |cs| > 0 && Components(cs)
    ensures |Join(cs, "/")| > 0
    ensures Join(cs, "/")[0] != '/' && Join(cs, "/")[|Join(cs, "/")| - 1] != '/'
  {
    assert cs[0][0] in cs[0];
    if |cs| > 1 {
      var init := cs[..|cs| - 1];
      var last := cs[|cs| - 1];
      assert cs == init + [last];
      JoinSnoc(init, last, "/");
      JoinedEnds(init);
      assert last[|last| - 1] in last;
    }
  }

  /** Stripping the trailing slash of `a/` gives `a` back when `a` does
      not end in a slash. */
  lemma RStripOne(a: string)
    requires |a| > 0 && a[|a| - 1] != '/'
    ensures RStrip(a + "/", '/') == a
  {
    var head := a + "/";
    var r := RStrip(head, '/');
    assert head[|a| - 1] == a[|a| - 1];
    assert |r| == |a|;
  }

  /** `os.path.split` of a slash-joined relative path splits off the last
      component. */
  lemma SplitJoined(cs: seq<string>, c: string)
    requires |cs| > 0 && Components(cs) && Component(c)
    ensures Paths.Dirname(Join(cs + [c], "/")) == Join(cs, "/")
    ensures Paths.Basename(Join(cs + [c], "/")) == c
  {
    var a := Join(cs, "/");
    JoinSnoc(cs, c, "/");
    JoinedEnds(cs);
    DirnameJoined(a, c);
    Paths.BasenameJoined(a, c);
  }

  /** The dirname of `a/c` is `a` when `a` neither starts nor ends with a
      slash. */
  lemma DirnameJoined(a: string, c: string)
    requires |a| > 0 && a[0] != '/' && a[|a| - 1] != '/' && '/' !in c
    ensures Paths.Dirname(a + "/" + c) == a
  {
    var p := a + "/" + c;
    Paths.RFindJoined(a, c);
    var head := p[..|a| + 1];
    assert head == a + "/";
    assert !Paths.AllSlashes(head) by { assert head[0] == a[0]; }
    RStripOne(a);
  }

  /** Splitting a relative path made of slash-free components gives the
      components back. */
  lemma {:induction false} SplitAllJoined(cs: seq<string>)
    requires |cs| > 0 && Components(cs)
    ensures SplitAll(Join(cs, "/")) == cs
  {
    var p := Join(cs, "/");
    if |cs| == 1 {
      assert p == cs[0];
      assert '/' !in p;
      assert Paths.Dirname(p) == "";
      assert Paths.Basename(p) == p by {
        assert Paths.RFind(p, '/') == -1;
      }
    } else {
      var init := cs[..|cs| - 1];
      var last := cs[|cs| - 1];
      assert cs == init + [last];
      SplitJoined(init, last);
      JoinSnoc(init, last, "/");
      assert Paths.Dirname(p) != p;
      assert Paths.Basename(p) != p;
      SplitAllJoined(init);
    }
  }

  /** The layout the name rule expects: `dirs/classes/pkg.../Name.class`
      (or `test-classes`) names the class `pkg...Name`; with no package
      directories the name is `.Name`. */
  lemma QualifiedNameOfLayout(dirs: seq<string>, root: string, pkg: seq<string>, name: string)
    requires Components(dirs) && Components(pkg) && Component(name)
    requires forall i :: 0 <= i < |dirs| ==> !IsClassesDir(dirs[i])
    requires IsClassesDir(root)
    ensures EndsWith(Join(dirs + [root] + pkg + [name + ClassSuffix], "/"), ClassSuffix)
    ensures QualifiedName(Join(dirs + [root] + pkg + [name + ClassSuffix], "/"))
         == Success(Join(pkg, ".") + "." + name)
  {
    var file := name + ClassSuffix;
    var init := dirs + [root] + pkg;
    var cs := init + [file];
    LayoutComponents(dirs, root, pkg, file);
    var p := Join(cs, "/");
    SplitJoined(init, file);
    JoinSnoc(init, file, "/");
    assert EndsWith(p, ClassSuffix);
    SplitAllJoined(cs);
    var components := SplitAll(p)[..|SplitAll(p)| - 1];
    assert components == init;
    LayoutClassesDir(dirs, root, pkg);
    assert FirstClassesDir(components) == Some(|dirs|);
    assert components[|dirs| + 1..] == pkg;
    assert Paths.Basename(p) == file;
    assert file[..|file| - |ClassSuffix|] == name;
    assert Join([Join(pkg, "."), name], ".") == Join(pkg, ".") + "." + name;
  }

  lemma LayoutComponents(dirs: seq<string>, root: string, pkg: seq<string>, file: string)
    requires Components(dirs) && Components(pkg) && Component(file) && Component(root)
    ensures |dirs + [root] + pkg| > 0 && Components(dirs + [root] + pkg) && Components(dirs + [root] + pkg + [file])
  {
    var init := dirs + [root] + pkg;
    var cs := init + [file];
    forall i | 0 <= i < |cs|
      ensures Component(cs[i])
    {
      if i < |dirs| {
        assert cs[i] == dirs[i];
      } else if i == |dirs| {
        assert cs[i] == root;
      } else if i < |init| {
        assert cs[i] == pkg[i - |dirs| - 1];
      } else {
        assert cs[i] == file;
      }
    }
    assert forall i :: 0 <= i < |init| ==> init[i] == cs[i];
  }

  lemma LayoutClassesDir(dirs: seq<string>, root: string, pkg: seq<string>)
    requires forall i :: 0 <= i < |dirs| ==> !IsClassesDir(dirs[i])
    requires IsClassesDir(root)
    ensures FirstClassesDir(dirs + [root] + pkg) == Some(|dirs|)
  {
    var init := dirs + [root] + pkg;
    assert init[|dirs|] == root;
    forall i | 0 <= i < |dirs|
      ensures !IsClassesDir(init[i])
    {
      assert init[i] == dirs[i];
    }
  }

  // ---------------------------------------------------------------------
  // Header

  /** A big-endian u2 at `pos`, or `None` when the file is too short. */
  function U2(data: seq<Byte>, pos: nat): (v: Option<nat>)
    ensures v.Some? <==> pos + 2 <= |data|
    ensures v.Some? ==> v.value < 0x1_0000
  {
    if pos + 2 <= |data| then Some(data[pos] as int * 0x100 + data[pos + 1] as int) else None
  }

  /** A big-endian u4 at `pos`. */
  function U4(data: seq<Byte>, pos: nat): (v: Option<nat>)
    ensures v.Some? <==> pos + 4 <= |data|
  {
    if pos + 4 <= |data| then Some(((data[pos] as int * 0x100 + data[pos + 1] as int) * 0x100 + data[pos + 2] as int) * 0x100 + data[pos + 3] as int)
    else None
  }

  /** The constant pool entry kinds of section 4.4, Table 4.3. */
  datatype ConstantKind =
    | Class | Fieldref | Methodref | InterfaceMethodref | StringRef | Integer
    | Float | Long | Double | NameAndType | Utf8 | MethodHandle | MethodType
    | InvokeDynamic

  /** The tag byte of each kind; any other byte is not a constant tag. */
  function KindOfTag(tag: Byte): Option<ConstantKind> {
    match tag
    case 7 => Some(Class)
    case 9 => Some(Fieldref)
    case 10 => Some(Methodref)
    case 11 => Some(InterfaceMethodref)
    case 8 => Some(StringRef)
    case 3 => Some(Integer)
    case 4 => Some(Float)
    case 5 => Some(Long)
    case 6 => Some(Double)
    case 12 => Some(NameAndType)
    case 1 => Some(Utf8)
    case 15 => Some(MethodHandle)
    case 16 => Some(MethodType)
    case 18 => Some(InvokeDynamic)
    case _ => None
  }

  /** Exactly the fourteen tags of Table 4.3 name a kind. */
  lemma KindOfTagTable(tag: Byte)
    ensures KindOfTag(tag).Some? <==> tag in {1, 3, 4, 5, 6, 7, 8, 9, 10, 11, 12, 15, 16, 18}
    ensures KindOfTag(tag) == Some(Utf8) <==> tag == 1
    ensures KindOfTag(tag) == Some(Long) <==> tag == 5
    ensures KindOfTag(tag) == Some(Double) <==> tag == 6
  {
  }

  /** The bytes after the tag of a fixed-size entry. */
  function FixedSize(k: ConstantKind): nat
    requires k != Utf8
  {
    match k
    case Class => 2
    case Fieldref => 4
    case Methodref => 4
    case InterfaceMethodref => 4
    case StringRef => 2
    case Integer => 4
    case Float => 4
    case Long => 8
    case Double => 8
    case NameAndType => 4
    case MethodHandle => 3
    case MethodType => 2
    case InvokeDynamic => 4
  }

  /** Pool indices an entry occupies: two for `Long` and `Double`
      (section 4.4.5), one otherwise. */
  function Slots(k: ConstantKind): nat {
    if k == Long || k == Double then 2 else 1
  }

  /** One iteration of `__skip_constants` at `pos`: the position after the
      entry and the pool indices it occupies. A tag byte outside Table 4.3
      is an error. */
  function SkipEntry(data: seq<Byte>, pos: nat): (r: Result<(nat, nat), ClassfileError>)
    ensures r.Success? ==> r.value.0 > pos && 1 <= r.value.1 <= 2
    ensures pos < |data| && KindOfTag(data[pos]).None? ==> r == Failure(UnknownTag(data[pos]))
  {
    if pos >= |data| then Failure(Truncated)
    else match KindOfTag(data[pos])
      case None => Failure(UnknownTag(data[pos]))
      case Some(k) =>
        if k == Utf8 then
          match U2(data, pos + 1)
          case None => Failure(Truncated)
          case Some(length) => Success((pos + 3 + length, 1))
        else Success((pos + 1 + FixedSize(k), Slots(k)))
  }

  /** `__skip_constants` from pool index `idx` of `count - 1`, reading at
      `pos`: the position of the access flags. Reads past the end of the
      file return short; the next fixed-size read then fails, so a skip may
      leave `pos` beyond the data. */
  function SkipConstants(data: seq<Byte>, pos: nat, idx: nat, count: nat): (r: Result<nat, ClassfileError>)
    ensures r.Success? ==> r.value >= pos
    decreases count - idx
  {
    if idx >= count - 1 then Success(pos)
    else match SkipEntry(data, pos)
      case Failure(e) => Failure(e)
      case Success((next, slots)) => SkipConstants(data, next, idx + slots, count)
  }

  datatype Header = Header(minor: nat, major: nat, constantPoolCount: nat, accessFlags: nat)

  /** `__parse`: the magic, the two versions, the constant pool count, the
      pool skipped, and the access flags. */
  function Parse(data: seq<Byte>): (r: Result<Header, ClassfileError>)
    ensures r.Success? ==> |data| >= 12 && U4(data, 0) == Some(Magic)
    ensures r.Success? ==> Some(r.value.minor) == U2(data, 4) && Some(r.value.major) == U2(data, 6)
    ensures r.Success? ==> Some(r.value.constantPoolCount) == U2(data, 8)
    ensures r.Success? ==> r.value.accessFlags < 0x1_0000
    ensures U4(data, 0).Some? && U4(data, 0) != Some(Magic) ==> r == Failure(BadMagic)
  {
    match U4(data, 0)
    case None => Failure(Truncated)
    case Some(magic) =>
      if magic != Magic then Failure(BadMagic)
      else if |data| < 8 then Failure(Truncated)
      else
        var minor, major := U2(data, 4).value, U2(data, 6).value;
        match U2(data, 8)
        case None => Failure(Truncated)
        case Some(count) =>
          match SkipConstants(data, 10, 0, count)
          case Failure(e) => Failure(e)
          case Success(pos) =>
            match U2(data, pos)
            case None => Failure(Truncated)
            case Some(flags) => Success(Header(minor, major, count, flags))
  }

  /** `is_interface`: the ACC_INTERFACE bit, 0x0200. */
  predicate IsInterface(flags: nat)
    requires flags < 0x1_0000
  {
    (flags as bv16) & 0x0200 != 0
  }

  /** `is_abstract`: the ACC_ABSTRACT bit, 0x0400. */
  predicate IsAbstract(flags: nat)
    requires flags < 0x1_0000
  {
    (flags as bv16) & 0x0400 != 0
  }

  datatype ClassInfo = ClassInfo(name: string, header: Header)

  /** `Classfile(path)`: the suffix check, then the qualified name, then the
      header of the file's contents. */
  function Load(path: string, contents: seq<Byte>): (r: Result<ClassInfo, ClassfileError>)
    ensures !EndsWith(path, ClassSuffix) ==> r == Failure(NotAClassFile)
    ensures r.Success? ==> Success(r.value.name) == QualifiedName(path) && Success(r.value.header) == Parse(contents)
    ensures EndsWith(path, ClassSuffix) && QualifiedName(path).Failure? ==> r == Failure(NoPackage)
  {
    if !EndsWith(path, ClassSuffix) then Failure(NotAClassFile)
    else match QualifiedName(path)
      case Failure(e) => Failure(e)
      case Success(name) =>
        match Parse(contents)
        case Failure(e) => Failure(e)
        case Success(h) => Success(ClassInfo(name, h))
  }

  // ---------------------------------------------------------------------
  // Writing a header, and reading it back

  function BE2(v: nat): (bs: seq<Byte>)
    requires v < 0x1_0000
    ensures |bs| == 2
  {
    [v / 0x100, v % 0x100]
  }

  /** The tag byte written for each kind. */
  function TagOf(k: ConstantKind): (tag: Byte)
    ensures KindOfTag(tag) == Some(k)
  {
    match k
    case Class => 7
    case Fieldref => 9
    case Methodref => 10
    case InterfaceMethodref => 11
    case StringRef => 8
    case Integer => 3
    case Float => 4
    case Long => 5
    case Double => 6
    case NameAndType => 12
    case Utf8 => 1
    case MethodHandle => 15
    case MethodType => 16
    case InvokeDynamic => 18
  }

  /** One constant pool entry: its kind and the bytes that follow the tag
      (for `Utf8`, the string's bytes after the length). */
  datatype Constant = Constant(kind: ConstantKind, body: seq<Byte>)

  predicate WellFormedConstant(c: Constant) {
    if c.kind == Utf8 then |c.body| < 0x1_0000 else |c.body| == FixedSize(c.kind)
  }

  function EncodeConstant(c: Constant): (bs: seq<Byte>)
    requires WellFormedConstant(c)
  {
    if c.kind == Utf8 then [TagOf(c.kind)] + BE2(|c.body|) + c.body else [TagOf(c.kind)] + c.body
  }

  predicate WellFormedPool(cs: seq<Constant>) {
    forall i :: 0 <= i < |cs| ==> WellFormedConstant(cs[i])
  }

  function EncodePool(cs: seq<Constant>): (bs: seq<Byte>)
    requires WellFormedPool(cs)
  {
    if |cs| == 0 then [] else EncodeConstant(cs[0]) + EncodePool(cs[1..])
  }

  /** The pool indices the entries occupy. */
  function PoolSlots(cs: seq<Constant>): nat
    requires WellFormedPool(cs)
  {
    if |cs| == 0 then 0 else Slots(cs[0].kind) + PoolSlots(cs[1..])
  }

  /** Skipping one entry lands right after its encoding. */
  lemma SkipOne(data: seq<Byte>, pos: nat, c: Constant)
    requires WellFormedConstant(c)
    requires pos + |EncodeConstant(c)| <= |data| && data[pos..pos + |EncodeConstant(c)|] == EncodeConstant(c)
    ensures SkipEntry(data, pos) == Success((pos + |EncodeConstant(c)|, Slots(c.kind)))
  {
    var e := EncodeConstant(c);
    var window := data[pos..pos + |e|];
    assert data[pos] == window[0] == e[0] == TagOf(c.kind);
    if c.kind == Utf8 {
      assert e == [TagOf(c.kind)] + BE2(|c.body|) + c.body;
      assert data[pos + 1] == window[1] == BE2(|c.body|)[0];
      assert data[pos + 2] == window[2] == BE2(|c.body|)[1];
    }
  }

  /** The written pool `cs` sits in `data` from `pos` to `end`, and its
      entries occupy the indices from `idx` to the last one below `count`. */
  predicate PoolAt(data: seq<Byte>, pos: nat, idx: nat, count: nat, cs: seq<Constant>, end: nat) {
    && WellFormedPool(cs)
    && idx + PoolSlots(cs) + 1 == count
    && end == pos + |EncodePool(cs)| <= |data|
    && data[pos..end] == EncodePool(cs)
  }

  /** Skipping a written pool, whose entries occupy exactly
      `count - 1 - idx` indices, lands at its end. */
  lemma {:induction false} SkipEncodedPool(data: seq<Byte>, pos: nat, idx: nat, count: nat, cs: seq<Constant>, end: nat)
    requires PoolAt(data, pos, idx, count, cs, end)
    ensures SkipConstants(data, pos, idx, count) == Success(end)
    decreases |cs|, 1
  {
    if |cs| == 0 {
      SkipEmptyPool(data, pos, idx, count, cs, end);
    } else {
      SkipEncodedCons(data, pos, idx, count, cs, end);
    }
  }

  /** A non-empty written pool: its first entry, then the rest. */
  lemma {:induction false} SkipEncodedCons(data: seq<Byte>, pos: nat, idx: nat, count: nat, cs: seq<Constant>, end: nat)
    requires PoolAt(data, pos, idx, count, cs, end) && |cs| > 0
    ensures SkipConstants(data, pos, idx, count) == Success(end)
    decreases |cs|, 0
  {
    var next := PoolEntryStep(data, pos, idx, count, cs, end);
    SkipEncodedPool(data, next, idx + Slots(cs[0].kind), count, cs[1..], end);
  }

  /** Skipping the first entry of a written pool leaves the rest of the
      pool, written at the next position, with the remaining indices. */
  lemma PoolEntryStep(data: seq<Byte>, pos: nat, idx: nat, count: nat, cs: seq<Constant>, end: nat) returns (next: nat)
    requires PoolAt(data, pos, idx, count, cs, end) && |cs| > 0
    ensures PoolAt(data, next, idx + Slots(cs[0].kind), count, cs[1..], end)
    ensures SkipConstants(data, pos, idx, count) == SkipConstants(data, next, idx + Slots(cs[0].kind), count)
  {
    next := PoolStep(data, pos, idx, count, cs, end);
    EntryStep(data, pos, next, idx, count, cs[0]);
  }

  /** An empty pool, whose count is one past the index reached, is
      skipped without reading. */
  lemma SkipEmptyPool(data: seq<Byte>, pos: nat, idx: nat, count: nat, cs: seq<Constant>, end: nat)
    requires PoolAt(data, pos, idx, count, cs, end) && |cs| == 0
    ensures SkipConstants(data, pos, idx, count) == Success(end)
  {
  }

  /** A written pool is its first entry followed by the rest. */
  lemma PoolStep(data: seq<Byte>, pos: nat, idx: nat, count: nat, cs: seq<Constant>, end: nat) returns (next: nat)
    requires PoolAt(data, pos, idx, count, cs, end) && |cs| > 0
    ensures WellFormedConstant(cs[0]) && idx < count - 1
    ensures next == pos + |EncodeConstant(cs[0])| <= |data| && data[pos..next] == EncodeConstant(cs[0])
    ensures PoolAt(data, next, idx + Slots(cs[0].kind), count, cs[1..], end)
  {
    PoolUnfold(cs);
    next := ConsAt(data, pos, end, EncodeConstant(cs[0]), EncodePool(cs[1..]));
  }

  /** A window holding `e + rest` holds `e` up to the returned position
      and `rest` from there to its end. */
  lemma ConsAt<T>(data: seq<T>, pos: nat, end: nat, e: seq<T>, rest: seq<T>) returns (next: nat)
    requires end == pos + |e + rest| <= |data| && data[pos..end] == e + rest
    ensures next == pos + |e| <= |data| && data[pos..next] == e
    ensures end == next + |rest| && data[next..end] == rest
  {
    next := pos + |e|;
    SliceSplit(data, pos, e, rest);
  }

  /** A non-empty pool is its first entry followed by the rest, in its
      encoding and in the indices it occupies. */
  lemma PoolUnfold(cs: seq<Constant>)
    requires WellFormedPool(cs) && |cs| > 0
    ensures WellFormedConstant(cs[0]) && WellFormedPool(cs[1..])
    ensures EncodePool(cs) == EncodeConstant(cs[0]) + EncodePool(cs[1..])
    ensures PoolSlots(cs) == Slots(cs[0].kind) + PoolSlots(cs[1..])
  {
  }

  /** Skipping a written entry moves past its bytes and its indices. */
  lemma EntryStep(data: seq<Byte>, pos: nat, next: nat, idx: nat, count: nat, c: Constant)
    requires WellFormedConstant(c)
    requires idx < count - 1
    requires next == pos + |EncodeConstant(c)| <= |data| && data[pos..next] == EncodeConstant(c)
    ensures SkipConstants(data, pos, idx, count) == SkipConstants(data, next, idx + Slots(c.kind), count)
  {
    SkipOne(data, pos, c);
    SkipStep(data, pos, idx, count, next, Slots(c.kind));
  }

  /** After one entry, skipping carries on from the next position and
      index. */
  lemma SkipStep(data: seq<Byte>, pos: nat, idx: nat, count: nat, next: nat, slots: nat)
    requires idx < count - 1
    requires SkipEntry(data, pos) == Success((next, slots))
    ensures SkipConstants(data, pos, idx, count) == SkipConstants(data, next, idx + slots, count)
  {
  }

  /** A slice holding `a + b` holds `a` and then `b`. */
  lemma SliceSplit<T>(data: seq<T>, pos: nat, a: seq<T>, b: seq<T>)
    requires pos + |a| + |b| <= |data| && data[pos..pos + |a| + |b|] == a + b
    ensures data[pos..pos + |a|] == a && data[pos + |a|..pos + |a| + |b|] == b
  {
    var w := data[pos..pos + |a| + |b|];
    assert data[pos..pos + |a|] == w[..|a|];
    assert data[pos + |a|..pos + |a| + |b|] == w[|a|..];
  }

  /** The bytes of a classfile header: magic, versions, pool count, pool,
      access flags, and whatever the class body holds after them. */
  function HeaderBytes(minor: nat, major: nat, count: nat, pool: seq<Byte>, flags: nat, rest: seq<Byte>): (bs: seq<Byte>)
    requires minor < 0x1_0000 && major < 0x1_0000 && count < 0x1_0000 && flags < 0x1_0000
  {
    [0xCA, 0xFE, 0xBA, 0xBE] + BE2(minor) + BE2(major) + BE2(count) + pool + BE2(flags) + rest
  }

  /** A header with a written pool and the count that pool calls for. */
  function EncodeHeader(minor: nat, major: nat, cs: seq<Constant>, flags: nat, rest: seq<Byte>): (bs: seq<Byte>)
    requires minor < 0x1_0000 && major < 0x1_0000 && flags < 0x1_0000
    requires WellFormedPool(cs) && PoolSlots(cs) + 1 < 0x1_0000
  {
    HeaderBytes(minor, major, PoolSlots(cs) + 1, EncodePool(cs), flags, rest)
  }

  /** Reading a written header gives back its versions, its pool count
      (one more than the indices its entries occupy) and its access flags. */
  lemma ParseEncodeHeader(minor: nat, major: nat, cs: seq<Constant>, flags: nat, rest: seq<Byte>)
    requires minor < 0x1_0000 && major < 0x1_0000 && flags < 0x1_0000
    requires WellFormedPool(cs) && PoolSlots(cs) + 1 < 0x1_0000
    ensures Parse(EncodeHeader(minor, major, cs, flags, rest)) == Success(Header(minor, major, PoolSlots(cs) + 1, flags))
  {
    var data := EncodeHeader(minor, major, cs, flags, rest);
    var pool := EncodePool(cs);
    var count := PoolSlots(cs) + 1;
    EncodedFields(minor, major, count, pool, flags, rest);
    SkipEncodedPool(data, 10, 0, count, cs, 10 + |pool|);
    ParseFields(data, count, 10 + |pool|, flags);
  }

  /** Where the fields of a written header sit. */
  lemma EncodedFields(minor: nat, major: nat, count: nat, pool: seq<Byte>, flags: nat, rest: seq<Byte>)
    requires minor < 0x1_0000 && major < 0x1_0000 && count < 0x1_0000 && flags < 0x1_0000
    ensures U4(HeaderBytes(minor, major, count, pool, flags, rest), 0) == Some(Magic)
    ensures U2(HeaderBytes(minor, major, count, pool, flags, rest), 4) == Some(minor)
    ensures U2(HeaderBytes(minor, major, count, pool, flags, rest), 6) == Some(major)
    ensures U2(HeaderBytes(minor, major, count, pool, flags, rest), 8) == Some(count)
    ensures 10 + |pool| <= |HeaderBytes(minor, major, count, pool, flags, rest)|
    ensures HeaderBytes(minor, major, count, pool, flags, rest)[10..10 + |pool|] == pool
    ensures U2(HeaderBytes(minor, major, count, pool, flags, rest), 10 + |pool|) == Some(flags)
  {
    var data := HeaderBytes(minor, major, count, pool, flags, rest);
    var head := [0xCA, 0xFE, 0xBA, 0xBE] + BE2(minor) + BE2(major) + BE2(count);
    var tail := BE2(flags) + rest;
    assert data == head + pool + tail;
    Layout(data, head, pool, tail);
    U2OfBytes(data, 4, minor);
    U2OfBytes(data, 6, major);
    U2OfBytes(data, 8, count);
    U2OfBytes(data, 10 + |pool|, flags);
  }

  /** The positions of a 10-byte head, a pool and a tail laid end to end. */
  lemma Layout<T>(data: seq<T>, head: seq<T>, pool: seq<T>, tail: seq<T>)
    requires |head| == 10 && |tail| >= 2 && data == head + pool + tail
    ensures forall i :: 0 <= i < 10 ==> data[i] == head[i]
    ensures data[10..10 + |pool|] == pool
    ensures data[10 + |pool|] == tail[0] && data[11 + |pool|] == tail[1]
  {
  }

  lemma U2OfBytes(data: seq<Byte>, pos: nat, v: nat)
    requires v < 0x1_0000
    requires pos + 2 <= |data| && data[pos] == v / 0x100 && data[pos + 1] == v % 0x100
    ensures U2(data, pos) == Some(v)
  {
  }

  /** `__parse` on bytes whose fields read as given. */
  lemma ParseFields(data: seq<Byte>, count: nat, pos: nat, flags: nat)
    requires U4(data, 0) == Some(Magic) && U2(data, 4).Some? && U2(data, 6).Some?
    requires U2(data, 8) == Some(count)
    requires SkipConstants(data, 10, 0, count) == Success(pos)
    requires U2(data, pos) == Some(flags)
    ensures Parse(data) == Success(Header(U2(data, 4).value, U2(data, 6).value, count, flags))
  {
  }

  /** A tag byte outside Table 4.3 where an entry is expected is an error. */
  lemma UnknownTagRejected(data: seq<Byte>, pos: nat, idx: nat, count: nat)
    requires idx < count - 1 && pos < |data| && data[pos] !in {1, 3, 4, 5, 6, 7, 8, 9, 10, 11, 12, 15, 16, 18}
    ensures SkipConstants(data, pos, idx, count) == Failure(UnknownTag(data[pos]))
  {
    assert SkipEntry(data, pos) == Failure(UnknownTag(data[pos]));
  }

  /** The flags javac writes for an interface (public, interface, abstract)
      and for a plain public class. */
  lemma AccessFlagExamples()
    ensures IsInterface(0x0601) && IsAbstract(0x0601)
    ensures !IsInterface(0x0421) && IsAbstract(0x0421)
    ensures !IsInterface(0x0021) && !IsAbstract(0x0021)
  {
  }
}
