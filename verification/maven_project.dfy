/** The Maven project walker of the packaging tool: modules are the
    directories holding a `pom.xml`, arranged into a tree by directory
    nesting; `include_modules` selects named modules with everything below
    them and `exclude_modules` removes named modules with everything below
    them; jars under each module's `target` are sorted into test and source
    artifacts; and candidate test classes pass through a chain of filters.
    The directory walk itself is a parameter: the module roots it found, in
    walk order, and the entries of each `target` directory. */
module MavenProject {
  import opened Wrappers
  import opened Strings
  import Paths
  import Seqs

  // ---------------------------------------------------------------------
  // Project root

  /** The constructor's normalisation: a trailing slash is added when
      missing. */
  function NormalizeRoot(root: string): (r: string)
    ensures EndsWith(r, "/")
    ensures EndsWith(root, "/") ==> r == root
    ensures !EndsWith(root, "/") ==> r == root + "/"
  {
    if EndsWith(root, "/") then root else root + "/"
  }

  lemma NormalizeRootIdempotent(root: string)
    ensures NormalizeRoot(NormalizeRoot(root)) == NormalizeRoot(root)
  {
  }

  // ---------------------------------------------------------------------
  // Parent search

  datatype Search = Found(parent: string) | NoParent | Hangs

  /** The loop of `_construct_parent_child_relationships` for one module
      path: apply `dirname` until the result is `/` (no parent), a module
      path (the parent), or a path `dirname` no longer shortens (a relative
      path reduced to the empty string), on which the loop spins forever.
      `dirname("//")` is `//` itself, so such a module is its own parent. */
  function FindParent(p: string, keys: set<string>): (r: Search)
    ensures r.Found? ==> r.parent in keys && r.parent <= p
    ensures r.Found? && r.parent == p ==> Paths.Dirname(p) == p
    decreases |p|
  {
    var q := Paths.Dirname(p);
    if q == "/" then NoParent
    else if q in keys then Found(q)
    else if q == p then Hangs
    else FindParent(q, keys)
  }

  /** On a normalised absolute path the search never spins, and it finds
      the nearest directory above the path that is a module, or reports that
      there is none. */
  lemma {:induction false} FindParentNearest(p: string, keys: set<string>)
    requires Paths.NormalAbsolute(p)
    ensures !FindParent(p, keys).Hangs?
    ensures FindParent(p, keys).Found? ==>
              Paths.IsDirAncestor(FindParent(p, keys).parent, p)
              && forall a :: Paths.IsDirAncestor(a, p) && |a| > |FindParent(p, keys).parent| ==> a !in keys
    ensures FindParent(p, keys).NoParent? ==> forall a :: Paths.IsDirAncestor(a, p) ==> a !in keys
    decreases |p|
  {
    var q := Paths.Dirname(p);
    Paths.DirnameNormal(p);
    forall a
      ensures q == "/" ==> !Paths.IsDirAncestor(a, p)
      ensures q != "/" ==> (Paths.IsDirAncestor(a, p) <==> a == q || Paths.IsDirAncestor(a, q))
    {
      Paths.DirAncestorsStep(a, p);
    }
    if q != "/" && q !in keys {
      FindParentNearest(q, keys);
      forall a | Paths.IsDirAncestor(a, q)
        ensures |a| < |q|
      {
      }
    }
  }

  // ---------------------------------------------------------------------
  // The module tree

  /** The module root that sorts first. */
  function MinPath(s: seq<string>): (m: string)
    requires |s| > 0
    ensures m in s && forall i :: 0 <= i < |s| ==> LexLe(m, s[i])
  {
    LexLeTotal(s[0], s[0]);
    if |s| == 1 then s[0]
    else
      var rest := MinPath(s[1..]);
      LexLeTotal(s[0], rest);
      if LexLe(s[0], rest) then
        assert forall i :: 1 <= i < |s| ==> LexLe(s[0], s[i]) by {
          forall i | 1 <= i < |s|
            ensures LexLe(s[0], s[i])
          {
            assert s[i] == s[1..][i - 1];
            LexLeTrans(s[0], rest, s[i]);
          }
        }
        s[0]
      else
        assert forall i :: 1 <= i < |s| ==> LexLe(rest, s[i]) by {
          forall i | 1 <= i < |s|
            ensures LexLe(rest, s[i])
          {
            assert s[i] == s[1..][i - 1];
          }
        }
        rest
  }

  /** The root module and each other module's parent. */
  datatype Tree = Tree(root: string, parent: map<string, string>)

  datatype TreeError = NoParentFor(path: string) | SearchHangs(path: string)

  /** `_construct_parent_child_relationships`: the root is the path that
      sorts first; every other path, in sorted order, gets the parent its
      search finds, and the first one without raises (or hangs the
      program). */
  function Construct(modules: seq<string>): (r: Result<Tree, TreeError>)
    requires |modules| > 0
    ensures r.Success? ==> r.value.root in modules && forall i :: 0 <= i < |modules| ==> LexLe(r.value.root, modules[i])
    ensures r.Success? ==> forall c :: c in r.value.parent <==> c in modules && c != r.value.root
    ensures r.Success? ==> forall c :: c in r.value.parent ==> FindParent(c, AllModules(modules)) == Found(r.value.parent[c])
    ensures r.Success? <==> forall i :: 0 <= i < |modules| && modules[i] != MinPath(modules) ==>
                              FindParent(modules[i], AllModules(modules)).Found?
    ensures r.Failure? ==> r.error.path in modules && r.error.path != MinPath(modules)
    ensures r.Failure? ==> (r.error.SearchHangs? <==> FindParent(r.error.path, AllModules(modules)).Hangs?)
    ensures r.Failure? ==> !FindParent(r.error.path, AllModules(modules)).Found?
  {
    var keys := AllModules(modules);
    var root := MinPath(modules);
    var orphans := Seqs.Filter(modules, Orphaned(keys, root));
    if |orphans| == 0 then
      Success(Tree(root, ParentMap(modules, keys, root)))
    else
      var e := OrphanError(modules, keys, root);
      assert exists i :: 0 <= i < |modules| && modules[i] == e.path;
      Failure(e)
  }

  /** The error for the first orphan in sorted order: the search hangs on
      it or finds no parent. */
  function OrphanError(modules: seq<string>, keys: set<string>, root: string): (e: TreeError)
    requires |Seqs.Filter(modules, Orphaned(keys, root))| > 0
    ensures e.path in modules && e.path != root
    ensures e.SearchHangs? <==> FindParent(e.path, keys).Hangs?
    ensures !FindParent(e.path, keys).Found?
  {
    var q := MinPath(Seqs.Filter(modules, Orphaned(keys, root)));
    Seqs.FilterMember(modules, Orphaned(keys, root), q);
    if FindParent(q, keys).Hangs? then SearchHangs(q) else NoParentFor(q)
  }

  /** A module other than the root whose search finds no parent. */
  function Orphaned(keys: set<string>, root: string): string -> bool {
    (p: string) => p != root && !FindParent(p, keys).Found?
  }

  /** Each module but the root mapped to the parent its search finds. */
  function ParentMap(modules: seq<string>, keys: set<string>, root: string): (pm: map<string, string>)
    requires |Seqs.Filter(modules, Orphaned(keys, root))| == 0
    ensures forall i :: 0 <= i < |modules| && modules[i] != root ==> FindParent(modules[i], keys).Found?
    ensures forall c :: c in pm <==> c in modules && c != root
    ensures forall c :: c in pm ==> FindParent(c, keys) == Found(pm[c])
  {
    Seqs.FilterEmpty(modules, Orphaned(keys, root));
    map c | c in modules && c != root :: FindParent(c, keys).parent
  }

  /** When one module lies above all the others, as the project root does,
      it is the root of the tree. */
  lemma RootIsTopDirectory(modules: seq<string>, top: string)
    requires top in modules && forall i :: 0 <= i < |modules| ==> StartsWith(modules[i], top)
    requires Construct(modules).Success?
    ensures Construct(modules).value.root == top
  {
    var root := Construct(modules).value.root;
    LexLePrefix(top, root);
    LexLeAntisym(top, root);
  }

  /** Parents are modules, and strictly shorter than their children. */
  predicate WellFormed(t: Tree, modules: seq<string>) {
    && Seqs.Distinct(modules)
    && t.root in modules
    && (forall c :: c in t.parent ==> c in modules && t.parent[c] in modules && |t.parent[c]| < |c|)
  }

  /** Walked module paths are distinct, and none of them is a path such
      as `//` that is its own `dirname`; the tree built from them is well
      formed. */
  lemma ConstructWellFormed(modules: seq<string>)
    requires |modules| > 0 && Construct(modules).Success?
    requires Seqs.Distinct(modules)
    requires forall i :: 0 <= i < |modules| ==> Paths.Dirname(modules[i]) != modules[i]
    ensures WellFormed(Construct(modules).value, modules)
  {
    var t := Construct(modules).value;
    forall c | c in t.parent
      ensures |t.parent[c]| < |c|
    {
      var i :| 0 <= i < |modules| && modules[i] == c;
    }
  }

  /** `m` is `d` or lies above it in the tree. */
  predicate IsDescendant(t: Tree, d: string, m: string)
    decreases |d|
  {
    d == m || (d in t.parent && |t.parent[d]| < |d| && IsDescendant(t, t.parent[d], m))
  }

  /** A module and everything below it. */
  function Subtree(t: Tree, modules: seq<string>, m: string): (s: set<string>)
    ensures forall d :: d in s <==> d in modules && IsDescendant(t, d, m)
  {
    set d | d in modules && IsDescendant(t, d, m)
  }

  /** A module's `submodules`: the modules whose parent it is. */
  function Children(t: Tree, modules: seq<string>, m: string): (cs: seq<string>)
    ensures forall i :: 0 <= i < |cs| ==> cs[i] in modules && cs[i] in t.parent && t.parent[cs[i]] == m
    ensures forall c :: c in modules && c in t.parent && t.parent[c] == m ==> c in cs
    ensures Seqs.Distinct(modules) ==> Seqs.Distinct(cs)
  {
    var isChild := (c: string) => c in t.parent && t.parent[c] == m;
    if Seqs.Distinct(modules) then
      Seqs.FilterDistinct(modules, isChild);
      Seqs.Filter(modules, isChild)
    else
      Seqs.Filter(modules, isChild)
  }

  function MaxLength(s: seq<string>): (n: nat)
    ensures forall i :: 0 <= i < |s| ==> |s[i]| <= n
  {
    if |s| == 0 then 0 else var r := MaxLength(s[1..]); if |s[0]| > r then |s[0]| else r
  }

  /** `_include_module_tree(m)`: add `m`, then each submodule's tree. */
  function IncludeTree(t: Tree, modules: seq<string>, acc: set<string>, m: string): set<string>
    requires WellFormed(t, modules) && m in modules
    decreases 2 * (MaxLength(modules) - |m|) + 1, 0
  {
    IncludeEach(t, modules, acc + {m}, m, Children(t, modules, m))
  }

  function IncludeEach(t: Tree, modules: seq<string>, acc: set<string>, m: string, cs: seq<string>): set<string>
    requires WellFormed(t, modules) && m in modules
    requires forall i :: 0 <= i < |cs| ==> cs[i] in modules && cs[i] in t.parent && t.parent[cs[i]] == m
    decreases 2 * (MaxLength(modules) - |m|), |cs|
  {
    if |cs| == 0 then acc
    else IncludeEach(t, modules, IncludeTree(t, modules, acc, cs[0]), m, cs[1..])
  }

  /** Everything below any of `cs`. */
  function SubtreesOf(t: Tree, modules: seq<string>, cs: seq<string>): (s: set<string>)
    ensures forall d :: d in s <==> exists i :: 0 <= i < |cs| && d in Subtree(t, modules, cs[i])
  {
    if |cs| == 0 then {}
    else
      var rest := SubtreesOf(t, modules, cs[1..]);
      assert forall d :: d in rest <==> exists i :: 1 <= i < |cs| && d in Subtree(t, modules, cs[i]) by {
        forall d | d in rest
          ensures exists i :: 1 <= i < |cs| && d in Subtree(t, modules, cs[i])
        {
          var j :| 0 <= j < |cs[1..]| && d in Subtree(t, modules, cs[1..][j]);
          assert cs[j + 1] == cs[1..][j];
        }
        forall d, i | 1 <= i < |cs| && d in Subtree(t, modules, cs[i])
          ensures d in rest
        {
          assert cs[1..][i - 1] == cs[i];
        }
      }
      Subtree(t, modules, cs[0]) + rest
  }

  /** Below a child of `m` is below `m`. */
  lemma {:induction false} DescendantOfChild(t: Tree, modules: seq<string>, d: string, c: string, m: string)
    requires WellFormed(t, modules)
    requires c in t.parent && t.parent[c] == m && IsDescendant(t, d, c)
    ensures IsDescendant(t, d, m)
    decreases |d|
  {
    if d != c {
      DescendantOfChild(t, modules, t.parent[d], c, m);
    }
  }

  /** Strictly below `m` is below one of its children. */
  lemma {:induction false} ChildOnPath(t: Tree, modules: seq<string>, d: string, m: string) returns (c: string)
    requires WellFormed(t, modules)
    requires d in modules && IsDescendant(t, d, m) && d != m
    ensures c in modules && c in t.parent && t.parent[c] == m && IsDescendant(t, d, c)
    decreases |d|
  {
    if t.parent[d] == m {
      c := d;
    } else {
      c := ChildOnPath(t, modules, t.parent[d], m);
    }
  }

  /** A module's subtree is the module and its children's subtrees. */
  lemma SubtreeStep(t: Tree, modules: seq<string>, m: string)
    requires WellFormed(t, modules) && m in modules
    ensures Subtree(t, modules, m) == {m} + SubtreesOf(t, modules, Children(t, modules, m))
  {
    var cs := Children(t, modules, m);
    forall d | d in Subtree(t, modules, m) && d != m
      ensures d in SubtreesOf(t, modules, cs)
    {
      var c := ChildOnPath(t, modules, d, m);
      var i :| 0 <= i < |cs| && cs[i] == c;
    }
    forall d | d in SubtreesOf(t, modules, cs)
      ensures d in Subtree(t, modules, m)
    {
      var i :| 0 <= i < |cs| && d in Subtree(t, modules, cs[i]);
      DescendantOfChild(t, modules, d, cs[i], m);
    }
  }

  /** Including a module's tree adds exactly the module and everything
      below it. */
  lemma {:induction false} IncludeTreeIsSubtree(t: Tree, modules: seq<string>, acc: set<string>, m: string)
    requires WellFormed(t, modules) && m in modules
    ensures IncludeTree(t, modules, acc, m) == acc + Subtree(t, modules, m)
    decreases 2 * (MaxLength(modules) - |m|) + 1, 0
  {
    var cs := Children(t, modules, m);
    IncludeEachIsSubtrees(t, modules, acc + {m}, m, cs);
    SubtreeStep(t, modules, m);
  }

  lemma {:induction false} IncludeEachIsSubtrees(t: Tree, modules: seq<string>, acc: set<string>, m: string, cs: seq<string>)
    requires WellFormed(t, modules) && m in modules
    requires forall i :: 0 <= i < |cs| ==> cs[i] in modules && cs[i] in t.parent && t.parent[cs[i]] == m
    ensures IncludeEach(t, modules, acc, m, cs) == acc + SubtreesOf(t, modules, cs)
    decreases 2 * (MaxLength(modules) - |m|), |cs|
  {
    if |cs| > 0 {
      IncludeTreeIsSubtree(t, modules, acc, cs[0]);
      IncludeEachIsSubtrees(t, modules, IncludeTree(t, modules, acc, cs[0]), m, cs[1..]);
    }
  }

  // ---------------------------------------------------------------------
  // Excluding module trees

  /** `_exclude_module_tree(m)`: `set.remove` of `m`, which raises
      `KeyError` when it is absent, then each submodule's tree. */
  function ExcludeTree(t: Tree, modules: seq<string>, acc: set<string>, m: string): (r: Option<set<string>>)
    requires WellFormed(t, modules) && m in modules
    decreases 2 * (MaxLength(modules) - |m|) + 1, 0
  {
    if m !in acc then None
    else ExcludeEach(t, modules, acc - {m}, m, Children(t, modules, m))
  }

  function ExcludeEach(t: Tree, modules: seq<string>, acc: set<string>, m: string, cs: seq<string>): (r: Option<set<string>>)
    requires WellFormed(t, modules) && m in modules
    requires forall i :: 0 <= i < |cs| ==> cs[i] in modules && cs[i] in t.parent && t.parent[cs[i]] == m
    decreases 2 * (MaxLength(modules) - |m|), |cs|
  {
    if |cs| == 0 then Some(acc)
    else match ExcludeTree(t, modules, acc, cs[0])
      case None => None
      case Some(acc1) => ExcludeEach(t, modules, acc1, m, cs[1..])
  }

  /** A descendant is at least as long as its ancestor. */
  lemma {:induction false} DescendantLonger(t: Tree, modules: seq<string>, d: string, m: string)
    requires WellFormed(t, modules) && IsDescendant(t, d, m)
    ensures |d| >= |m| && (d != m ==> |d| > |m|)
    decreases |d|
  {
    if d != m {
      DescendantLonger(t, modules, t.parent[d], m);
    }
  }

  /** Two modules above the same module lie on one line. */
  lemma {:induction false} DescendantsNested(t: Tree, modules: seq<string>, d: string, a: string, b: string)
    requires WellFormed(t, modules) && IsDescendant(t, d, a) && IsDescendant(t, d, b)
    ensures IsDescendant(t, a, b) || IsDescendant(t, b, a)
    decreases |d|
  {
    if d != a && d != b {
      DescendantsNested(t, modules, t.parent[d], a, b);
    }
  }

  /** Distinct children of one module have disjoint subtrees, and none of
      them holds the module. */
  lemma SiblingsDisjoint(t: Tree, modules: seq<string>, m: string, c1: string, c2: string)
    requires WellFormed(t, modules)
    requires c1 in t.parent && t.parent[c1] == m && c2 in t.parent && t.parent[c2] == m && c1 != c2
    ensures Subtree(t, modules, c1) !! Subtree(t, modules, c2)
    ensures m !in Subtree(t, modules, c1)
  {
    forall d | d in Subtree(t, modules, c1) && d in Subtree(t, modules, c2)
      ensures false
    {
      DescendantsNested(t, modules, d, c1, c2);
      if IsDescendant(t, c1, c2) {
        DescendantLonger(t, modules, m, c2);
      } else {
        DescendantLonger(t, modules, m, c1);
      }
    }
    if m in Subtree(t, modules, c1) {
      DescendantLonger(t, modules, m, c1);
    }
  }

  /** Removing a module's tree from a set holding all of it succeeds and
      removes exactly that tree. */
  lemma {:induction false} ExcludeTreeRemovesSubtree(t: Tree, modules: seq<string>, acc: set<string>, m: string)
    requires WellFormed(t, modules) && m in modules
    requires Subtree(t, modules, m) <= acc
    ensures ExcludeTree(t, modules, acc, m) == Some(acc - Subtree(t, modules, m))
    decreases 2 * (MaxLength(modules) - |m|) + 1, 0
  {
    var cs := Children(t, modules, m);
    var below := SubtreesOf(t, modules, cs);
    assert Subtree(t, modules, m) == {m} + below && below <= acc - {m} by {
      NotBelowChildren(t, modules, m);
    }
    assert ExcludeTree(t, modules, acc, m) == Some(acc - {m} - below) by {
      ExcludeEachRemovesSubtrees(t, modules, acc - {m}, m, cs);
    }
    assert acc - {m} - below == acc - ({m} + below);
  }

  /** A module's subtree splits into the module and its children's
      subtrees, none of which holds the module. */
  lemma NotBelowChildren(t: Tree, modules: seq<string>, m: string)
    requires WellFormed(t, modules) && m in modules
    ensures m !in SubtreesOf(t, modules, Children(t, modules, m))
    ensures Subtree(t, modules, m) == {m} + SubtreesOf(t, modules, Children(t, modules, m))
  {
    var cs := Children(t, modules, m);
    SubtreeStep(t, modules, m);
    forall i | 0 <= i < |cs|
      ensures m !in Subtree(t, modules, cs[i])
    {
      if m in Subtree(t, modules, cs[i]) {
        DescendantLonger(t, modules, m, cs[i]);
      }
    }
  }

  /** The first child's subtree shares nothing with its siblings'. */
  lemma FirstChildApart(t: Tree, modules: seq<string>, m: string, cs: seq<string>)
    requires WellFormed(t, modules) && |cs| > 0 && Seqs.Distinct(cs)
    requires forall i :: 0 <= i < |cs| ==> cs[i] in t.parent && t.parent[cs[i]] == m
    ensures Subtree(t, modules, cs[0]) !! SubtreesOf(t, modules, cs[1..])
    ensures SubtreesOf(t, modules, cs) == Subtree(t, modules, cs[0]) + SubtreesOf(t, modules, cs[1..])
  {
    forall d | d in SubtreesOf(t, modules, cs[1..])
      ensures d !in Subtree(t, modules, cs[0])
    {
      var j :| 0 <= j < |cs[1..]| && d in Subtree(t, modules, cs[1..][j]);
      SiblingsDisjoint(t, modules, m, cs[0], cs[j + 1]);
    }
  }

  lemma {:induction false} ExcludeEachRemovesSubtrees(t: Tree, modules: seq<string>, acc: set<string>, m: string, cs: seq<string>)
    requires WellFormed(t, modules) && m in modules
    requires forall i :: 0 <= i < |cs| ==> cs[i] in modules && cs[i] in t.parent && t.parent[cs[i]] == m
    requires Seqs.Distinct(cs)
    requires SubtreesOf(t, modules, cs) <= acc
    ensures ExcludeEach(t, modules, acc, m, cs) == Some(acc - SubtreesOf(t, modules, cs))
    decreases 2 * (MaxLength(modules) - |m|), |cs|
  {
    if |cs| > 0 {
      var first, rest := Subtree(t, modules, cs[0]), SubtreesOf(t, modules, cs[1..]);
      assert SubtreesOf(t, modules, cs) == first + rest && rest <= acc - first by {
        FirstChildApart(t, modules, m, cs);
      }
      assert ExcludeEach(t, modules, acc, m, cs) == ExcludeEach(t, modules, acc - first, m, cs[1..]) by {
        ExcludeTreeRemovesSubtree(t, modules, acc, cs[0]);
      }
      assert Seqs.Distinct(cs[1..]);
      ExcludeEachRemovesSubtrees(t, modules, acc - first, m, cs[1..]);
      assert acc - first - rest == acc - (first + rest);
    } else {
      assert ExcludeEach(t, modules, acc, m, cs) == Some(acc);
      assert acc - SubtreesOf(t, modules, cs) == acc;
    }
  }

  // ---------------------------------------------------------------------
  // Selecting modules by name

  /** A module's name: the last component of its path. */
  function Name(path: string): string {
    Paths.Basename(path)
  }

  /** `m.name in names`. */
  predicate IsNamed(m: string, names: seq<string>) {
    Name(m) in names
  }

  function NamedIn(names: seq<string>): string -> bool {
    (m: string) => IsNamed(m, names)
  }

  /** Some module carries the name `n`. */
  function HasModule(modules: seq<string>, n: string): bool {
    exists i :: 0 <= i < |modules| && Name(modules[i]) == n
  }

  function HasModuleIn(modules: seq<string>): string -> bool {
    (n: string) => HasModule(modules, n)
  }

  function LacksModuleIn(modules: seq<string>): string -> bool {
    (n: string) => !HasModule(modules, n)
  }

  datatype SelectError =
    | ModuleNotFound(missing: seq<string>)
    | ValueError      // `list.remove` of a name no longer in the list
    | AssertionError  // the remaining-names assertion failed
    | KeyError        // `set.remove` of a module no longer in the set

  /** `list.remove(x)`: drop the first occurrence, `ValueError` when there
      is none. */
  function RemoveFirst(ns: seq<string>, x: string): (r: Option<seq<string>>)
    ensures r.None? <==> x !in ns
    ensures r.Some? ==> |r.value| == |ns| - 1
  {
    if |ns| == 0 then None
    else if ns[0] == x then Some(ns[1..])
    else match RemoveFirst(ns[1..], x)
      case None => None
      case Some(rest) => Some([ns[0]] + rest)
  }

  function RemoveEach(ns: seq<string>, xs: seq<string>): Option<seq<string>>
    decreases |xs|
  {
    if |xs| == 0 then Some(ns)
    else match RemoveFirst(ns, xs[0])
      case None => None
      case Some(ns1) => RemoveEach(ns1, xs[1..])
  }

  /** The name check of `_filter_included_modules` as written: only the
      NUMBER of matching modules is compared with the number of names; on a
      mismatch the matched names are removed one by one and whatever remains
      is reported. `None` means the check passed. */
  function IncludeCheckAsWritten(modules: seq<string>, names: seq<string>): (r: Option<SelectError>)
    ensures r.None? <==> |Seqs.Filter(modules, NamedIn(names))| == |names|
  {
    var included := Seqs.Filter(modules, NamedIn(names));
    if |included| == |names| then None
    else match RemoveEach(names, Seqs.Map(included, Name))
      case None => Some(ValueError)
      case Some(rest) => if |rest| == 0 then Some(AssertionError) else Some(ModuleNotFound(rest))
  }

  /** The check the error message promises: every name not carried by any
      module is reported, and nothing else. */
  function IncludeCheck(modules: seq<string>, names: seq<string>): (r: Option<SelectError>)
    ensures r.None? <==> forall i :: 0 <= i < |names| ==> HasModule(modules, names[i])
    ensures r.Some? ==> r.value.ModuleNotFound?
    ensures r.Some? ==> forall n :: n in r.value.missing <==> n in names && !HasModule(modules, n)
  {
    var missing := Seqs.Filter(names, LacksModuleIn(modules));
    if |missing| == 0 then None else Some(ModuleNotFound(missing))
  }

  /** Finding: two modules of one name hide a third name that matches
      nothing. With modules `/p/x/a` and `/p/y/a` and names `a`, `b`, the
      counts agree, so the check written in the source passes, although no
      module is called `b`. */
  lemma DuplicateNameMasksMissing()
    ensures IncludeCheckAsWritten(["/p", "/p/x/a", "/p/y/a"], ["a", "b"]).None?
    ensures IncludeCheck(["/p", "/p/x/a", "/p/y/a"], ["a", "b"]) == Some(ModuleNotFound(["b"]))
  {
    ExampleNames();
    ExampleMatches();
    ExampleMissing();
  }

  lemma ExampleNames()
    ensures Name("/p") == "p" && Name("/p/x/a") == "a" && Name("/p/y/a") == "a"
  {
    Paths.BasenameJoined("", "p");
    Paths.BasenameJoined("/p/x", "a");
    Paths.BasenameJoined("/p/y", "a");
  }

  lemma ExampleMatches()
    requires Name("/p") == "p" && Name("/p/x/a") == "a" && Name("/p/y/a") == "a"
    ensures Seqs.Filter(["/p", "/p/x/a", "/p/y/a"], NamedIn(["a", "b"])) == ["/p/x/a", "/p/y/a"]
  {
    var modules, names := ["/p", "/p/x/a", "/p/y/a"], ["a", "b"];
    assert !NamedIn(names)(modules[0]) && NamedIn(names)(modules[1]) && NamedIn(names)(modules[2]);
    assert modules[1..] == [modules[1], modules[2]] && modules[1..][1..] == [modules[2]];
  }

  lemma ExampleMissing()
    requires Name("/p") == "p" && Name("/p/x/a") == "a" && Name("/p/y/a") == "a"
    ensures Seqs.Filter(["a", "b"], LacksModuleIn(["/p", "/p/x/a", "/p/y/a"])) == ["b"]
  {
    var modules, names := ["/p", "/p/x/a", "/p/y/a"], ["a", "b"];
    assert HasModule(modules, "a") by {
      assert Name(modules[1]) == "a";
    }
    forall i | 0 <= i < |modules|
      ensures Name(modules[i]) != "b"
    {
      if i == 0 {} else if i == 1 {} else {}
    }
    assert !HasModule(modules, "b");
    assert !LacksModuleIn(modules)("a");
    assert LacksModuleIn(modules)("b");
    assert names[1..] == ["b"];
  }


  /** Every named module is the only module of its name. */
  predicate NamesUnique(modules: seq<string>, names: seq<string>) {
    forall m1, m2 :: m1 in modules && m2 in modules && m1 != m2 && IsNamed(m1, names) ==> Name(m1) != Name(m2)
  }

  /** When the names are distinct and no named module shares its name, the
      check written in the source reports exactly the missing names, like
      the intended check. */
  lemma IncludeCheckAgrees(modules: seq<string>, names: seq<string>)
    requires Seqs.Distinct(modules) && Seqs.Distinct(names)
    requires NamesUnique(modules, names)
    ensures IncludeCheckAsWritten(modules, names) == IncludeCheck(modules, names)
  {
    var included := Seqs.Filter(modules, NamedIn(names));
    var missing := Seqs.Filter(names, LacksModuleIn(modules));
    CountsAgree(modules, names);
    if |included| != |names| {
      MismatchReportsMissing(modules, names);
    }
  }

  /** The counts agree exactly when no name is missing. */
  lemma CountsAgree(modules: seq<string>, names: seq<string>)
    requires Seqs.Distinct(modules) && Seqs.Distinct(names)
    requires NamesUnique(modules, names)
    ensures |Seqs.Filter(modules, NamedIn(names))| == |names| <==> |Seqs.Filter(names, LacksModuleIn(modules))| == 0
  {
    MatchCount(modules, names);
    Seqs.CountDisjointUnion(names, HasModuleIn(modules), LacksModuleIn(modules), (n: string) => true);
    Seqs.CountMonotone(names, (n: string) => true, (n: string) => true);
    assert Seqs.Count(names, (n: string) => true) == |names|;
  }

  /** Removing the matched names one by one leaves the missing ones. */
  lemma MismatchReportsMissing(modules: seq<string>, names: seq<string>)
    requires Seqs.Distinct(modules) && Seqs.Distinct(names)
    requires NamesUnique(modules, names)
    ensures RemoveEach(names, Seqs.Map(Seqs.Filter(modules, NamedIn(names)), Name)) == Some(Seqs.Filter(names, LacksModuleIn(modules)))
  {
    var included := Seqs.Filter(modules, NamedIn(names));
    var xs := Seqs.Map(included, Name);
    MatchedNamesDistinct(modules, names);
    assert forall i :: 0 <= i < |xs| ==> xs[i] in names by {
      forall i | 0 <= i < |xs|
        ensures xs[i] in names
      {
        assert NamedIn(names)(included[i]);
      }
    }
    RemoveEachFilters(names, xs);
    forall i | 0 <= i < |names|
      ensures NotIn(xs)(names[i]) == LacksModuleIn(modules)(names[i])
    {
      MatchedNameIff(modules, names, names[i]);
    }
    Seqs.FilterExt(names, NotIn(xs), LacksModuleIn(modules));
  }

  /** The names of the matched modules are free of repeats. */
  lemma MatchedNamesDistinct(modules: seq<string>, names: seq<string>)
    requires Seqs.Distinct(modules) && NamesUnique(modules, names)
    ensures Seqs.Distinct(Seqs.Map(Seqs.Filter(modules, NamedIn(names)), Name))
  {
    var included := Seqs.Filter(modules, NamedIn(names));
    var xs := Seqs.Map(included, Name);
    Seqs.FilterDistinct(modules, NamedIn(names));
    forall i, j | 0 <= i < j < |xs|
      ensures xs[i] != xs[j]
    {
      assert NamedIn(names)(included[i]) && included[i] in modules && included[j] in modules;
      assert included[i] != included[j];
    }
  }

  /** A listed name is among the matched names exactly when some module
      carries it. */
  lemma MatchedNameIff(modules: seq<string>, names: seq<string>, n: string)
    requires n in names
    ensures n in Seqs.Map(Seqs.Filter(modules, NamedIn(names)), Name) <==> HasModule(modules, n)
  {
    var xs := Seqs.Map(Seqs.Filter(modules, NamedIn(names)), Name);
    if n in xs {
      MatchedNameCarried(modules, names, n);
    }
    if HasModule(modules, n) {
      CarriedNameMatched(modules, names, n);
    }
  }

  lemma MatchedNameCarried(modules: seq<string>, names: seq<string>, n: string)
    requires n in Seqs.Map(Seqs.Filter(modules, NamedIn(names)), Name)
    ensures HasModule(modules, n)
  {
    var included := Seqs.Filter(modules, NamedIn(names));
    Seqs.MapPreimage(included, Name, n);
    var m :| m in included && Name(m) == n;
    Seqs.FilterMember(modules, NamedIn(names), m);
    ModuleCarriesName(modules, m);
  }

  lemma ModuleCarriesName(modules: seq<string>, m: string)
    requires m in modules
    ensures HasModule(modules, Name(m))
  {
    var i :| 0 <= i < |modules| && modules[i] == m;
  }

  lemma CarriedNameMatched(modules: seq<string>, names: seq<string>, n: string)
    requires n in names && HasModule(modules, n)
    ensures n in Seqs.Map(Seqs.Filter(modules, NamedIn(names)), Name)
  {
    var included := Seqs.Filter(modules, NamedIn(names));
    var i :| 0 <= i < |modules| && Name(modules[i]) == n;
    assert NamedIn(names)(modules[i]);
    Seqs.MapMember(included, Name, modules[i]);
  }

  /** `n` is not among `xs`. */
  function NotIn(xs: seq<string>): string -> bool {
    (n: string) => n !in xs
  }

  function NotEq(x: string): string -> bool {
    (n: string) => n != x
  }

  /** Named modules are as many as the names that name some module. */
  lemma {:induction false} MatchCount(modules: seq<string>, names: seq<string>)
    requires Seqs.Distinct(modules) && Seqs.Distinct(names) && NamesUnique(modules, names)
    ensures Seqs.Count(modules, NamedIn(names)) == Seqs.Count(names, HasModuleIn(modules))
  {
    if |names| > 0 {
      var n, rest := names[0], names[1..];
      RestUnique(modules, names);
      MatchCount(modules, rest);
      NamedSplit(modules, names);
      CountNamedAs(modules, names, n);
      assert Seqs.Count(names, HasModuleIn(modules))
          == (if HasModule(modules, n) then 1 else 0) + Seqs.Count(rest, HasModuleIn(modules));
    }
  }

  lemma RestUnique(modules: seq<string>, names: seq<string>)
    requires |names| > 0 && Seqs.Distinct(names) && NamesUnique(modules, names)
    ensures Seqs.Distinct(names[1..]) && NamesUnique(modules, names[1..])
  {
    forall m | IsNamed(m, names[1..])
      ensures IsNamed(m, names)
    {
    }
  }

  /** Named by the list is named by its head or by its tail. */
  lemma NamedSplit(modules: seq<string>, names: seq<string>)
    requires |names| > 0 && Seqs.Distinct(names)
    ensures Seqs.Count(modules, NamedIn(names))
         == Seqs.Count(modules, NamedAs(names[0])) + Seqs.Count(modules, NamedIn(names[1..]))
  {
    var n, rest := names[0], names[1..];
    assert n !in rest;
    forall m: string
      ensures NamedIn(names)(m) <==> NamedAs(n)(m) || NamedIn(rest)(m)
      ensures !(NamedAs(n)(m) && NamedIn(rest)(m))
    {
      assert names == [n] + rest;
    }
    Seqs.CountDisjointUnion(modules, NamedAs(n), NamedIn(rest), NamedIn(names));
  }

  /** A named name matches one module if any. */
  lemma CountNamedAs(modules: seq<string>, names: seq<string>, n: string)
    requires Seqs.Distinct(modules) && NamesUnique(modules, names) && n in names
    ensures Seqs.Count(modules, NamedAs(n)) == if HasModule(modules, n) then 1 else 0
  {
    forall i, j | 0 <= i < j < |modules| && NamedAs(n)(modules[i])
      ensures !NamedAs(n)(modules[j])
    {
      assert IsNamed(modules[i], names);
      assert modules[i] in modules && modules[j] in modules && modules[i] != modules[j];
      assert Name(modules[i]) != Name(modules[j]);
    }
    Seqs.CountAtMostOne(modules, NamedAs(n));
    if HasModule(modules, n) {
      var i :| 0 <= i < |modules| && Name(modules[i]) == n;
      assert NamedAs(n)(modules[i]);
    }
  }

  /** `m.name == n`. */
  function NamedAs(n: string): string -> bool {
    (m: string) => Name(m) == n
  }

  /** Removing distinct members of a list without repeats leaves the
      others, in order. */
  lemma {:induction false} RemoveEachFilters(ns: seq<string>, xs: seq<string>)
    requires Seqs.Distinct(ns) && Seqs.Distinct(xs)
    requires forall i :: 0 <= i < |xs| ==> xs[i] in ns
    ensures RemoveEach(ns, xs) == Some(Seqs.Filter(ns, NotIn(xs)))
    decreases |xs|
  {
    if |xs| == 0 {
      Seqs.FilterAll(ns, NotIn(xs));
    } else {
      var x := xs[0];
      RemoveFirstFilters(ns, x);
      var ns1 := Seqs.Filter(ns, NotEq(x));
      Seqs.FilterDistinct(ns, NotEq(x));
      assert Seqs.Distinct(xs[1..]);
      forall i | 0 <= i < |xs[1..]|
        ensures xs[1..][i] in ns1
      {
        assert xs[1..][i] == xs[i + 1] && xs[i + 1] != x;
      }
      RemoveEachFilters(ns1, xs[1..]);
      Seqs.FilterFilter(ns, NotEq(x), NotIn(xs[1..]), NotIn(xs));
    }
  }

  lemma {:induction false} RemoveFirstFilters(ns: seq<string>, x: string)
    requires Seqs.Distinct(ns) && x in ns
    ensures RemoveFirst(ns, x) == Some(Seqs.Filter(ns, NotEq(x)))
  {
    if ns[0] == x {
      assert forall i :: 0 <= i < |ns[1..]| ==> ns[1..][i] != x by {
        forall i | 0 <= i < |ns[1..]|
          ensures ns[1..][i] != x
        {
          assert ns[1..][i] == ns[i + 1];
        }
      }
      Seqs.FilterAll(ns[1..], NotEq(x));
      assert Seqs.Filter(ns, NotEq(x)) == Seqs.Filter(ns[1..], NotEq(x));
    } else {
      assert Seqs.Distinct(ns[1..]);
      RemoveFirstFilters(ns[1..], x);
    }
  }

  // ---------------------------------------------------------------------
  // Included and excluded modules

  /** `_include_module_tree` for each module in turn. */
  function IncludeAll(t: Tree, modules: seq<string>, acc: set<string>, ms: seq<string>): set<string>
    requires WellFormed(t, modules) && forall i :: 0 <= i < |ms| ==> ms[i] in modules
    decreases |ms|
  {
    if |ms| == 0 then acc else IncludeAll(t, modules, IncludeTree(t, modules, acc, ms[0]), ms[1..])
  }

  lemma {:induction false} IncludeAllIsSubtrees(t: Tree, modules: seq<string>, acc: set<string>, ms: seq<string>)
    requires WellFormed(t, modules) && forall i :: 0 <= i < |ms| ==> ms[i] in modules
    ensures IncludeAll(t, modules, acc, ms) == acc + SubtreesOf(t, modules, ms)
    decreases |ms|
  {
    if |ms| > 0 {
      IncludeTreeIsSubtree(t, modules, acc, ms[0]);
      IncludeAllIsSubtrees(t, modules, IncludeTree(t, modules, acc, ms[0]), ms[1..]);
    }
  }

  /** `set(self.modules)`. */
  function AllModules(modules: seq<string>): (s: set<string>)
    ensures forall m :: m in s <==> m in modules
  {
    set m | m in modules
  }

  /** `d` lies below a module of `from` carrying one of `names`. */
  predicate BelowNamed(t: Tree, modules: seq<string>, from: set<string>, names: seq<string>, d: string) {
    exists a :: a in from && a in modules && IsNamed(a, names) && IsDescendant(t, d, a)
  }

  /** `_filter_included_modules`: no list means every module; otherwise
      the count check as written decides, and when it passes the named
      modules and everything below them are included. */
  function IncludedModules(t: Tree, modules: seq<string>, names: Option<seq<string>>): (r: Result<set<string>, SelectError>)
    requires WellFormed(t, modules)
    ensures names.None? ==> r == Success(AllModules(modules))
    ensures names.Some? ==> (r.Failure? <==> |Seqs.Filter(modules, NamedIn(names.value))| != |names.value|)
    ensures names.Some? && r.Failure? ==> r.error == IncludeCheckAsWritten(modules, names.value).value
    ensures names.Some? && r.Success? ==>
              forall d :: d in r.value <==> d in modules && BelowNamed(t, modules, AllModules(modules), names.value, d)
  {
    match names
    case None => Success(AllModules(modules))
    case Some(ns) =>
      match IncludeCheckAsWritten(modules, ns)
      case Some(e) => Failure(e)
      case None =>
        var named := Seqs.Filter(modules, NamedIn(ns));
        IncludeAllIsSubtrees(t, modules, {}, named);
        NamedSubtrees(t, modules, ns);
        Success(IncludeAll(t, modules, {}, named))
  }

  /** With distinct names, none of them carried by two modules, the
      inclusion fails exactly when some name has no module, and then
      reports exactly the missing names. */
  lemma IncludedModulesReportsMissing(t: Tree, modules: seq<string>, names: seq<string>)
    requires WellFormed(t, modules)
    requires Seqs.Distinct(modules) && Seqs.Distinct(names) && NamesUnique(modules, names)
    ensures IncludedModules(t, modules, Some(names)).Failure? <==> exists i :: 0 <= i < |names| && !HasModule(modules, names[i])
    ensures IncludedModules(t, modules, Some(names)).Failure? ==>
              IncludedModules(t, modules, Some(names)).error == IncludeCheck(modules, names).value
  {
    IncludeCheckAgrees(modules, names);
  }

  lemma NamedSubtrees(t: Tree, modules: seq<string>, names: seq<string>)
    requires WellFormed(t, modules)
    ensures forall d :: d in SubtreesOf(t, modules, Seqs.Filter(modules, NamedIn(names))) <==>
              d in modules && BelowNamed(t, modules, AllModules(modules), names, d)
  {
    forall d | d in modules && BelowNamed(t, modules, AllModules(modules), names, d)
      ensures d in SubtreesOf(t, modules, Seqs.Filter(modules, NamedIn(names)))
    {
      BelowNamedInSubtrees(t, modules, names, d);
    }
    forall d | d in SubtreesOf(t, modules, Seqs.Filter(modules, NamedIn(names)))
      ensures d in modules && BelowNamed(t, modules, AllModules(modules), names, d)
    {
      SubtreesBelowNamed(t, modules, names, d);
    }
  }

  lemma BelowNamedInSubtrees(t: Tree, modules: seq<string>, names: seq<string>, d: string)
    requires d in modules && BelowNamed(t, modules, AllModules(modules), names, d)
    ensures d in SubtreesOf(t, modules, Seqs.Filter(modules, NamedIn(names)))
  {
    var named := Seqs.Filter(modules, NamedIn(names));
    var a :| a in AllModules(modules) && a in modules && IsNamed(a, names) && IsDescendant(t, d, a);
    assert NamedIn(names)(a);
    var i :| 0 <= i < |named| && named[i] == a;
    assert d in Subtree(t, modules, named[i]);
  }

  lemma SubtreesBelowNamed(t: Tree, modules: seq<string>, names: seq<string>, d: string)
    requires d in SubtreesOf(t, modules, Seqs.Filter(modules, NamedIn(names)))
    ensures d in modules && BelowNamed(t, modules, AllModules(modules), names, d)
  {
    var named := Seqs.Filter(modules, NamedIn(names));
    var i :| 0 <= i < |named| && d in Subtree(t, modules, named[i]);
    assert NamedIn(names)(named[i]);
  }

  /** `_exclude_module_tree` for each module in turn; `None` is the
      `KeyError` of removing a module twice. */
  function ExcludeAll(t: Tree, modules: seq<string>, acc: set<string>, ms: seq<string>): Option<set<string>>
    requires WellFormed(t, modules) && forall i :: 0 <= i < |ms| ==> ms[i] in modules
    decreases |ms|
  {
    if |ms| == 0 then Some(acc)
    else match ExcludeTree(t, modules, acc, ms[0])
      case None => None
      case Some(acc1) => ExcludeAll(t, modules, acc1, ms[1..])
  }

  /** `_filter_excluded_modules` as written: the included modules whose name
      is listed, in the set's iteration order `order`, each removed with its
      whole tree by `set.remove`, which fails on a module already gone. */
  function ExcludedModulesAsWritten(t: Tree, modules: seq<string>, included: set<string>,
                                    names: Option<seq<string>>, order: seq<string>): (r: Result<set<string>, SelectError>)
    requires WellFormed(t, modules) && forall m :: m in included ==> m in modules
    requires names.Some? ==> Seqs.Distinct(order) && forall m :: m in order <==> m in included && IsNamed(m, names.value)
    ensures names.None? ==> r == Success(included)
    ensures r.Failure? ==> r.error == KeyError
  {
    match names
    case None => Success(included)
    case Some(ns) =>
      match ExcludeAll(t, modules, included, order)
      case None => Failure(KeyError)
      case Some(rest) => Success(rest)
  }

  /** The exclusion the design describes: every listed included module and
      everything below it is dropped. */
  function ExcludedModules(t: Tree, modules: seq<string>, included: set<string>, names: Option<seq<string>>): (r: set<string>)
    ensures r <= included
    ensures names.None? ==> r == included
    ensures names.Some? ==> forall d :: d in r <==> d in included && !BelowNamed(t, modules, included, names.value, d)
  {
    match names
    case None => included
    case Some(ns) => set d | d in included && !BelowNamed(t, modules, included, ns, d)
  }

  /** Every module below an included module is included, as the include
      step guarantees. */
  predicate DownClosed(t: Tree, modules: seq<string>, s: set<string>) {
    forall a, d :: a in s && d in modules && IsDescendant(t, d, a) ==> d in s
  }

  /** No listed module lies below another. */
  predicate Unnested(t: Tree, ms: seq<string>) {
    forall i, j :: 0 <= i < |ms| && 0 <= j < |ms| && i != j ==> !IsDescendant(t, ms[i], ms[j])
  }

  /** When no listed module lies below another, the exclusion written in
      the source succeeds in any iteration order and drops exactly the
      listed modules' trees. */
  lemma ExcludeAgrees(t: Tree, modules: seq<string>, included: set<string>, names: seq<string>, order: seq<string>)
    requires WellFormed(t, modules) && forall m :: m in included ==> m in modules
    requires Seqs.Distinct(order) && forall m :: m in order <==> m in included && IsNamed(m, names)
    requires DownClosed(t, modules, included) && Unnested(t, order)
    ensures ExcludedModulesAsWritten(t, modules, included, Some(names), order)
         == Success(ExcludedModules(t, modules, included, Some(names)))
  {
    SelectedApart(t, modules, included, order);
    ExcludeAllRemovesSubtrees(t, modules, included, order);
    SelectedTrees(t, modules, included, names, order);
    assert included - SubtreesOf(t, modules, order) == ExcludedModules(t, modules, included, Some(names));
  }

  /** Unnested modules of a closed set have disjoint trees inside it. */
  lemma SelectedApart(t: Tree, modules: seq<string>, included: set<string>, order: seq<string>)
    requires WellFormed(t, modules) && forall m :: m in order ==> m in included && m in modules
    requires DownClosed(t, modules, included) && Unnested(t, order)
    ensures TreesApart(t, modules, included, order)
  {
    forall i | 0 <= i < |order|
      ensures Subtree(t, modules, order[i]) <= included
    {
      assert order[i] in order;
    }
    forall i, j | 0 <= i < j < |order|
      ensures Subtree(t, modules, order[i]) !! Subtree(t, modules, order[j])
    {
      forall d | d in Subtree(t, modules, order[i]) && d in Subtree(t, modules, order[j])
        ensures false
      {
        DescendantsNested(t, modules, d, order[i], order[j]);
      }
    }
  }

  /** The trees of the listed included modules are what lies below them. */
  lemma SelectedTrees(t: Tree, modules: seq<string>, included: set<string>, names: seq<string>, order: seq<string>)
    requires forall m :: m in included ==> m in modules
    requires forall m :: m in order <==> m in included && IsNamed(m, names)
    ensures forall d :: d in included ==>
              (d in SubtreesOf(t, modules, order) <==> BelowNamed(t, modules, included, names, d))
  {
    forall d | d in included
      ensures d in SubtreesOf(t, modules, order) <==> BelowNamed(t, modules, included, names, d)
    {
      SelectedTreeBelow(t, modules, included, names, order, d);
      BelowSelectedTree(t, modules, included, names, order, d);
    }
  }

  lemma SelectedTreeBelow(t: Tree, modules: seq<string>, included: set<string>, names: seq<string>, order: seq<string>, d: string)
    requires forall m :: m in included ==> m in modules
    requires forall m :: m in order <==> m in included && IsNamed(m, names)
    ensures d in SubtreesOf(t, modules, order) ==> BelowNamed(t, modules, included, names, d)
  {
    if d in SubtreesOf(t, modules, order) {
      var i :| 0 <= i < |order| && d in Subtree(t, modules, order[i]);
      var a := order[i];
      assert a in order;
      assert a in included && a in modules && IsNamed(a, names) && IsDescendant(t, d, a);
    }
  }

  lemma BelowSelectedTree(t: Tree, modules: seq<string>, included: set<string>, names: seq<string>, order: seq<string>, d: string)
    requires forall m :: m in included ==> m in modules
    requires forall m :: m in order <==> m in included && IsNamed(m, names)
    requires d in included
    ensures BelowNamed(t, modules, included, names, d) ==> d in SubtreesOf(t, modules, order)
  {
    if BelowNamed(t, modules, included, names, d) {
      var a :| a in included && a in modules && IsNamed(a, names) && IsDescendant(t, d, a);
      assert a in order;
      var i :| 0 <= i < |order| && order[i] == a;
      assert d in modules;
      assert d in Subtree(t, modules, order[i]);
    }
  }

  /** The listed modules' trees lie inside `acc` and share nothing. */
  predicate TreesApart(t: Tree, modules: seq<string>, acc: set<string>, ms: seq<string>) {
    && (forall i :: 0 <= i < |ms| ==> Subtree(t, modules, ms[i]) <= acc)
    && (forall i, j :: 0 <= i < j < |ms| ==> Subtree(t, modules, ms[i]) !! Subtree(t, modules, ms[j]))
  }

  lemma {:induction false} ExcludeAllRemovesSubtrees(t: Tree, modules: seq<string>, acc: set<string>, ms: seq<string>)
    requires WellFormed(t, modules) && forall i :: 0 <= i < |ms| ==> ms[i] in modules
    requires TreesApart(t, modules, acc, ms)
    ensures ExcludeAll(t, modules, acc, ms) == Some(acc - SubtreesOf(t, modules, ms))
    decreases |ms|
  {
    if |ms| == 0 {
      assert acc - SubtreesOf(t, modules, ms) == acc;
    } else {
      var first, rest := Subtree(t, modules, ms[0]), SubtreesOf(t, modules, ms[1..]);
      ExcludeAllStep(t, modules, acc, ms);
      ExcludeAllRemovesSubtrees(t, modules, acc - first, ms[1..]);
      assert acc - first - rest == acc - (first + rest);
    }
  }

  /** Removing the first tree leaves the others apart inside what is left. */
  lemma ExcludeAllStep(t: Tree, modules: seq<string>, acc: set<string>, ms: seq<string>)
    requires WellFormed(t, modules) && forall i :: 0 <= i < |ms| ==> ms[i] in modules
    requires |ms| > 0 && TreesApart(t, modules, acc, ms)
    ensures ExcludeAll(t, modules, acc, ms) == ExcludeAll(t, modules, acc - Subtree(t, modules, ms[0]), ms[1..])
    ensures TreesApart(t, modules, acc - Subtree(t, modules, ms[0]), ms[1..])
    ensures SubtreesOf(t, modules, ms) == Subtree(t, modules, ms[0]) + SubtreesOf(t, modules, ms[1..])
  {
    var first := Subtree(t, modules, ms[0]);
    assert ExcludeTree(t, modules, acc, ms[0]) == Some(acc - first) by {
      ExcludeTreeRemovesSubtree(t, modules, acc, ms[0]);
    }
    forall i | 0 <= i < |ms[1..]|
      ensures Subtree(t, modules, ms[1..][i]) <= acc - first
    {
      assert ms[1..][i] == ms[i + 1];
    }
    forall i, j | 0 <= i < j < |ms[1..]|
      ensures Subtree(t, modules, ms[1..][i]) !! Subtree(t, modules, ms[1..][j])
    {
      assert ms[1..][i] == ms[i + 1] && ms[1..][j] == ms[j + 1];
    }
  }

  /** The tree of a project `/p` with a module `/p/a` holding a module
      `/p/a/b`. */
  function NestedExample(): Tree {
    Tree("/p", map["/p/a" := "/p", "/p/a/b" := "/p/a"])
  }

  /** Finding: excluding a module together with a module below it fails.
      With modules `/p`, `/p/a`, `/p/a/b`, all included, and
      `exclude_modules` `a`, `b`, either iteration order of the selected set
      raises `KeyError`; `NestedIntended` gives the intended result. */
  lemma NestedExcludeFails(order: seq<string>)
    requires order == ["/p/a", "/p/a/b"] || order == ["/p/a/b", "/p/a"]
    ensures WellFormed(NestedExample(), ["/p", "/p/a", "/p/a/b"])
    ensures forall m :: m in {"/p", "/p/a", "/p/a/b"} ==> m in ["/p", "/p/a", "/p/a/b"]
    ensures Seqs.Distinct(order)
    ensures forall m :: m in order <==> m in {"/p", "/p/a", "/p/a/b"} && IsNamed(m, ["a", "b"])
    ensures ExcludedModulesAsWritten(NestedExample(), ["/p", "/p/a", "/p/a/b"], {"/p", "/p/a", "/p/a/b"},
                                     Some(["a", "b"]), order) == Failure(KeyError)
  {
    NestedNames();
    NestedShape();
    NestedAsWritten(order);
    AsWrittenFails(NestedExample(), ["/p", "/p/a", "/p/a/b"], {"/p", "/p/a", "/p/a/b"}, ["a", "b"], order);
  }

  /** A failing removal is the `KeyError` of the whole exclusion. */
  lemma AsWrittenFails(t: Tree, modules: seq<string>, included: set<string>, names: seq<string>, order: seq<string>)
    requires WellFormed(t, modules) && forall m :: m in included ==> m in modules
    requires Seqs.Distinct(order) && forall m :: m in order <==> m in included && IsNamed(m, names)
    requires ExcludeAll(t, modules, included, order).None?
    ensures ExcludedModulesAsWritten(t, modules, included, Some(names), order) == Failure(KeyError)
  {
  }

  lemma NestedAsWritten(order: seq<string>)
    requires order == ["/p/a", "/p/a/b"] || order == ["/p/a/b", "/p/a"]
    requires Name("/p") == "p" && Name("/p/a") == "a" && Name("/p/a/b") == "b"
    requires WellFormed(NestedExample(), ["/p", "/p/a", "/p/a/b"])
    ensures forall m :: m in {"/p", "/p/a", "/p/a/b"} ==> m in ["/p", "/p/a", "/p/a/b"]
    ensures Seqs.Distinct(order)
    ensures forall m :: m in order <==> m in {"/p", "/p/a", "/p/a/b"} && IsNamed(m, ["a", "b"])
    ensures ExcludeAll(NestedExample(), ["/p", "/p/a", "/p/a/b"], {"/p", "/p/a", "/p/a/b"}, order).None?
  {
    NestedSelection(order);
    if order == ["/p/a", "/p/a/b"] {
      NestedOrderParentFirst();
    } else {
      NestedOrderChildFirst();
    }
  }

  lemma NestedOrderParentFirst()
    requires WellFormed(NestedExample(), ["/p", "/p/a", "/p/a/b"])
    ensures ExcludeAll(NestedExample(), ["/p", "/p/a", "/p/a/b"], {"/p", "/p/a", "/p/a/b"}, ["/p/a", "/p/a/b"]).None?
  {
    var t, modules := NestedExample(), ["/p", "/p/a", "/p/a/b"];
    var all: set<string> := {"/p", "/p/a", "/p/a/b"};
    var ms := ["/p/a", "/p/a/b"];
    ExcludeMiddle(all);
    ExcludeLeaf(all - {"/p/a"});
    assert all - {"/p/a"} - {"/p/a/b"} == {"/p"};
    ExcludeLeaf({"/p"});
    assert ms[1..] == ["/p/a/b"] && ms[1..][1..] == [];
    assert ExcludeAll(t, modules, {"/p"}, ms[1..]).None?;
  }

  lemma NestedOrderChildFirst()
    requires WellFormed(NestedExample(), ["/p", "/p/a", "/p/a/b"])
    ensures ExcludeAll(NestedExample(), ["/p", "/p/a", "/p/a/b"], {"/p", "/p/a", "/p/a/b"}, ["/p/a/b", "/p/a"]).None?
  {
    var t, modules := NestedExample(), ["/p", "/p/a", "/p/a/b"];
    var all: set<string> := {"/p", "/p/a", "/p/a/b"};
    var ms := ["/p/a/b", "/p/a"];
    ExcludeLeaf(all);
    var rest := all - {"/p/a/b"};
    ExcludeMiddle(rest);
    assert rest - {"/p/a"} == {"/p"};
    ExcludeLeaf({"/p"});
    assert ms[1..] == ["/p/a"] && ms[1..][1..] == [];
    assert ExcludeAll(t, modules, rest, ms[1..]).None?;
  }

  /** Excluding `/p/a/b`, which has no submodules, removes just it. */
  lemma ExcludeLeaf(acc: set<string>)
    ensures WellFormed(NestedExample(), ["/p", "/p/a", "/p/a/b"])
    ensures ExcludeTree(NestedExample(), ["/p", "/p/a", "/p/a/b"], acc, "/p/a/b")
            == if "/p/a/b" in acc then Some(acc - {"/p/a/b"}) else None
  {
    NestedShape();
  }

  /** Excluding `/p/a` removes it, then excludes its one submodule. */
  lemma ExcludeMiddle(acc: set<string>)
    ensures WellFormed(NestedExample(), ["/p", "/p/a", "/p/a/b"])
    ensures ExcludeTree(NestedExample(), ["/p", "/p/a", "/p/a/b"], acc, "/p/a")
            == if "/p/a" in acc then ExcludeTree(NestedExample(), ["/p", "/p/a", "/p/a/b"], acc - {"/p/a"}, "/p/a/b") else None
  {
    NestedShape();
    var t, modules := NestedExample(), ["/p", "/p/a", "/p/a/b"];
    var cs := ["/p/a/b"];
    assert cs[1..] == [];
    if "/p/a" in acc {
      var after := ExcludeTree(t, modules, acc - {"/p/a"}, "/p/a/b");
      assert ExcludeEach(t, modules, acc - {"/p/a"}, "/p/a", cs) == after;
    }
  }

  /** The same exclusion, as intended, keeps only `/p`. */
  lemma NestedIntended()
    ensures ExcludedModules(NestedExample(), ["/p", "/p/a", "/p/a/b"], {"/p", "/p/a", "/p/a/b"}, Some(["a", "b"])) == {"/p"}
  {
    var t, modules, all := NestedExample(), ["/p", "/p/a", "/p/a/b"], {"/p", "/p/a", "/p/a/b"};
    var r := ExcludedModules(t, modules, all, Some(["a", "b"]));
    assert "/p" in r && "/p/a" !in r && "/p/a/b" !in r by {
      NestedNames();
      NestedBelow();
    }
    assert |"/p"| == 2 && |"/p/a"| == 4 && |"/p/a/b"| == 6;
    OnlyMember(r, "/p", "/p/a", "/p/a/b");
  }

  /** A subset of three elements that holds the first and not the other
      two is just the first. */
  lemma OnlyMember<T>(r: set<T>, a: T, b: T, c: T)
    requires r <= {a, b, c} && a in r && b !in r && c !in r
    ensures r == {a}
  {
  }

  lemma NestedBelow()
    requires Name("/p") == "p" && Name("/p/a") == "a" && Name("/p/a/b") == "b"
    ensures !BelowNamed(NestedExample(), ["/p", "/p/a", "/p/a/b"], {"/p", "/p/a", "/p/a/b"}, ["a", "b"], "/p")
    ensures BelowNamed(NestedExample(), ["/p", "/p/a", "/p/a/b"], {"/p", "/p/a", "/p/a/b"}, ["a", "b"], "/p/a")
    ensures BelowNamed(NestedExample(), ["/p", "/p/a", "/p/a/b"], {"/p", "/p/a", "/p/a/b"}, ["a", "b"], "/p/a/b")
  {
    var t := NestedExample();
    assert !IsDescendant(t, "/p", "/p/a") && !IsDescendant(t, "/p", "/p/a/b");
    assert IsNamed("/p/a", ["a", "b"]) && IsDescendant(t, "/p/a", "/p/a");
    assert IsNamed("/p/a/b", ["a", "b"]) && IsDescendant(t, "/p/a/b", "/p/a/b");
  }

  lemma NestedNames()
    ensures Name("/p") == "p" && Name("/p/a") == "a" && Name("/p/a/b") == "b"
  {
    Paths.BasenameJoined("", "p");
    Paths.BasenameJoined("/p", "a");
    Paths.BasenameJoined("/p/a", "b");
  }

  lemma NestedShape()
    ensures WellFormed(NestedExample(), ["/p", "/p/a", "/p/a/b"])
    ensures Children(NestedExample(), ["/p", "/p/a", "/p/a/b"], "/p/a") == ["/p/a/b"]
    ensures Children(NestedExample(), ["/p", "/p/a", "/p/a/b"], "/p/a/b") == []
  {
    NestedWellFormed();
    NestedChildren("/p/a");
    NestedChildren("/p/a/b");
  }

  lemma NestedWellFormed()
    ensures WellFormed(NestedExample(), ["/p", "/p/a", "/p/a/b"])
  {
    var t, modules := NestedExample(), ["/p", "/p/a", "/p/a/b"];
    assert Seqs.Distinct(modules);
    assert t.parent.Keys == {"/p/a", "/p/a/b"};
    assert |t.parent["/p/a"]| < |"/p/a"| && |t.parent["/p/a/b"]| < |"/p/a/b"|;
  }

  lemma NestedChildren(m: string)
    requires m == "/p/a" || m == "/p/a/b"
    ensures m == "/p/a" ==> Children(NestedExample(), ["/p", "/p/a", "/p/a/b"], m) == ["/p/a/b"]
    ensures m == "/p/a/b" ==> Children(NestedExample(), ["/p", "/p/a", "/p/a/b"], m) == []
  {
    var modules := ["/p", "/p/a", "/p/a/b"];
    assert modules[1..] == ["/p/a", "/p/a/b"] && modules[2..] == ["/p/a/b"];
  }

  lemma NestedSelection(order: seq<string>)
    requires order == ["/p/a", "/p/a/b"] || order == ["/p/a/b", "/p/a"]
    requires Name("/p") == "p" && Name("/p/a") == "a" && Name("/p/a/b") == "b"
    ensures Seqs.Distinct(order)
    ensures forall m :: m in order <==> m in {"/p", "/p/a", "/p/a/b"} && IsNamed(m, ["a", "b"])
  {
    assert |"/p/a"| == 4 && |"/p/a/b"| == 6;
    assert !IsNamed("/p", ["a", "b"]) by {
      assert "p"[0] != "a"[0] && "p"[0] != "b"[0];
    }
    assert IsNamed("/p/a", ["a", "b"]) && IsNamed("/p/a/b", ["a", "b"]);
    assert forall m :: m in order <==> m == "/p/a" || m == "/p/a/b";
  }

  // ---------------------------------------------------------------------
  // Artifacts

  datatype Artifact = TestArtifact | SourceArtifact | Ignored

  predicate IsTestJar(entry: string) {
    EndsWith(entry, "-test-sources.jar") || EndsWith(entry, "-tests.jar")
  }

  /** How `_walk` files one entry of a module's `target` directory. */
  function ClassifyJar(entry: string, isFile: bool, included: bool): (a: Artifact)
    ensures a == TestArtifact <==> isFile && IsTestJar(entry) && included
    ensures a == SourceArtifact <==>
              isFile && !IsTestJar(entry) && EndsWith(entry, ".jar")
              && !EndsWith(entry, "-sources.jar") && !EndsWith(entry, "-javadoc.jar")
  {
    if !isFile then Ignored
    else if IsTestJar(entry) then (if included then TestArtifact else Ignored)
    else if EndsWith(entry, ".jar") && !EndsWith(entry, "-sources.jar") && !EndsWith(entry, "-javadoc.jar") then SourceArtifact
    else Ignored
  }

  /** A source artifact is a plain jar: never a test jar, whatever module it
      belongs to, and never a sources or javadoc jar. */
  lemma SourceArtifactIsPlainJar(entry: string, isFile: bool, included: bool)
    requires ClassifyJar(entry, isFile, included) == SourceArtifact
    ensures ClassifyJar(entry, isFile, !included) == SourceArtifact
    ensures !EndsWith(entry, "-tests.jar") && !EndsWith(entry, "-test-sources.jar")
  {
  }

  /** A `-test-sources.jar` is a `-sources.jar` too, so only the test
      check files it. */
  lemma TestSourcesAreSources(entry: string)
    requires EndsWith(entry, "-test-sources.jar")
    ensures EndsWith(entry, "-sources.jar") && EndsWith(entry, ".jar")
  {
    assert entry[|entry| - 12..] == entry[|entry| - 17..][5..];
    assert entry[|entry| - 4..] == entry[|entry| - 17..][13..];
  }

  /** One entry of a `target` directory: its name and whether it is a
      regular file. */
  datatype Entry = Entry(name: string, isFile: bool)

  /** The artifacts of one module: `entries` is the listing of its
      `target` directory, `None` when that directory does not exist. */
  function ModuleArtifacts(root: string, entries: Option<seq<Entry>>, included: bool): (r: (seq<string>, seq<string>))
    ensures entries.None? ==> r == ([], [])
    ensures !included ==> r.0 == []
    ensures entries.Some? ==> |r.0| == Seqs.Count(entries.value, Files(TestArtifact, included))
    ensures entries.Some? ==> |r.1| == Seqs.Count(entries.value, Files(SourceArtifact, included))
    ensures forall i :: 0 <= i < |r.0| ==> EndsWith(r.0[i], "-test-sources.jar") || EndsWith(r.0[i], "-tests.jar")
    ensures forall i :: 0 <= i < |r.1| ==> EndsWith(r.1[i], ".jar")
    ensures entries.Some? && included ==> ListsArtifacts(r.0, Paths.PathJoin(root, "target"), entries.value, TestArtifact, included)
    ensures entries.Some? ==> ListsArtifacts(r.1, Paths.PathJoin(root, "target"), entries.value, SourceArtifact, included)
  {
    match entries
    case None => ([], [])
    case Some(es) =>
      var target := Paths.PathJoin(root, "target");
      var sourcePaths := ArtifactsIn(target, es, SourceArtifact, included);
      if included then (ArtifactsIn(target, es, TestArtifact, included), sourcePaths)
      else NoTestArtifacts(es); ([], sourcePaths)
  }

  /** An excluded module files no entry as a test artifact. */
  lemma NoTestArtifacts(es: seq<Entry>)
    ensures Seqs.Count(es, Files(TestArtifact, false)) == 0
  {
    forall i | 0 <= i < |es| ensures !Files(TestArtifact, false)(es[i]) {}
  }

  /** The paths under `target` of the entries filed as `kind`, in
      listing order. */
  function ArtifactsIn(target: string, es: seq<Entry>, kind: Artifact, included: bool): (r: seq<string>)
    ensures |r| == Seqs.Count(es, Files(kind, included))
    ensures ListsArtifacts(r, target, es, kind, included)
    ensures kind == TestArtifact ==> forall i :: 0 <= i < |r| ==> IsTestJar(r[i])
    ensures kind == SourceArtifact ==> forall i :: 0 <= i < |r| ==> EndsWith(r[i], ".jar")
  {
    var kept := Seqs.Filter(es, Files(kind, included));
    ArtifactPaths(target, es, kind, included);
    if kind == TestArtifact then SuffixesKept(target, kept, []); JoinAll(target, kept)
    else if kind == SourceArtifact then SuffixesKept(target, [], kept); JoinAll(target, kept)
    else JoinAll(target, kept)
  }

  /** `paths` holds, under `target`, exactly the entries filed as `kind`. */
  predicate ListsArtifacts(paths: seq<string>, target: string, es: seq<Entry>, kind: Artifact, included: bool) {
    && (forall e :: e in es && ClassifyJar(e.name, e.isFile, included) == kind ==> Paths.PathJoin(target, e.name) in paths)
    && (forall p :: p in paths ==>
          exists e :: e in es && ClassifyJar(e.name, e.isFile, included) == kind && p == Paths.PathJoin(target, e.name))
  }

  lemma ArtifactPaths(target: string, es: seq<Entry>, kind: Artifact, included: bool)
    ensures ListsArtifacts(JoinAll(target, Seqs.Filter(es, Files(kind, included))), target, es, kind, included)
  {
    var kept := Seqs.Filter(es, Files(kind, included));
    var paths := JoinAll(target, kept);
    forall e | e in es && ClassifyJar(e.name, e.isFile, included) == kind
      ensures Paths.PathJoin(target, e.name) in paths
    {
      var i :| 0 <= i < |es| && es[i] == e;
      assert Files(kind, included)(es[i]);
      assert e in kept;
      var j :| 0 <= j < |kept| && kept[j] == e;
      assert paths[j] == Paths.PathJoin(target, e.name);
    }
    forall p | p in paths
      ensures exists e :: e in es && ClassifyJar(e.name, e.isFile, included) == kind && p == Paths.PathJoin(target, e.name)
    {
      var j :| 0 <= j < |paths| && paths[j] == p;
      assert Files(kind, included)(kept[j]) && kept[j] in es;
    }
  }

  /** `os.path.join(target, entry)` for each entry. */
  function JoinAll(target: string, es: seq<Entry>): (r: seq<string>)
    ensures |r| == |es| && forall i :: 0 <= i < |es| ==> r[i] == Paths.PathJoin(target, es[i].name)
  {
    Seqs.Map(es, (e: Entry) => Paths.PathJoin(target, e.name))
  }

  lemma SuffixesKept(target: string, tests: seq<Entry>, sources: seq<Entry>)
    requires forall i :: 0 <= i < |tests| ==> IsTestJar(tests[i].name)
    requires forall i :: 0 <= i < |sources| ==> EndsWith(sources[i].name, ".jar")
    ensures forall i :: 0 <= i < |tests| ==> IsTestJar(JoinAll(target, tests)[i])
    ensures forall i :: 0 <= i < |sources| ==> EndsWith(JoinAll(target, sources)[i], ".jar")
  {
    forall i | 0 <= i < |tests|
      ensures IsTestJar(JoinAll(target, tests)[i])
    {
      var path, name := JoinAll(target, tests)[i], tests[i].name;
      if EndsWith(name, "-test-sources.jar") {
        EndsWithTrans(path, name, "-test-sources.jar");
      } else {
        EndsWithTrans(path, name, "-tests.jar");
      }
    }
    forall i | 0 <= i < |sources|
      ensures EndsWith(JoinAll(target, sources)[i], ".jar")
    {
      EndsWithTrans(JoinAll(target, sources)[i], sources[i].name, ".jar");
    }
  }

  /** The entries filed as `kind`. */
  function Files(kind: Artifact, included: bool): Entry -> bool {
    (e: Entry) => ClassifyJar(e.name, e.isFile, included) == kind
  }

  // ---------------------------------------------------------------------
  // Class filters

  /** Surefire's default includes on a class file's base name
      (`Test*.class`, `*Test.class`, `*TestCase.class`), nested classes
      excluded. */
  predicate SurefireDefault(f: string) {
    && '$' !in f
    && ((StartsWith(f, "Test") && EndsWith(f, ".class")) || EndsWith(f, "Test.class") || EndsWith(f, "TestCase.class"))
  }

  /** `PotentialTestClassNameFilter.accept` on the base name: `$` first,
      then the `.class` suffix, then the stem. */
  function PotentialTestClassName(f: string): (r: bool)
    ensures r <==> SurefireDefault(f)
  {
    if '$' in f then false
    else if !EndsWith(f, ".class") then false
    else
      var stem := f[..|f| - 6];
      StemForms(f);
      StartsWith(stem, "Test") || EndsWith(stem, "Test") || EndsWith(stem, "TestCase")
  }

  /** The stem tests of a `.class` name are tests on the whole name. */
  lemma StemForms(f: string)
    requires EndsWith(f, ".class")
    ensures StartsWith(f[..|f| - 6], "Test") <==> StartsWith(f, "Test")
    ensures EndsWith(f[..|f| - 6], "Test") <==> EndsWith(f, "Test.class")
    ensures EndsWith(f[..|f| - 6], "TestCase") <==> EndsWith(f, "TestCase.class")
  {
    StemPrefix(f);
    StemSuffix(f, "Test");
    StemSuffix(f, "TestCase");
  }

  lemma StemPrefix(f: string)
    requires EndsWith(f, ".class")
    ensures StartsWith(f[..|f| - 6], "Test") <==> StartsWith(f, "Test")
  {
    var stem := f[..|f| - 6];
    if StartsWith(f, "Test") {
      TestPrefixLong(f);
      assert stem[..4] == f[..4];
    }
    if StartsWith(stem, "Test") {
      assert stem[..4] == f[..4];
    }
  }

  /** The stem ends with `x` exactly when the name ends with `x.class`. */
  lemma StemSuffix(f: string, x: string)
    requires EndsWith(f, ".class")
    ensures EndsWith(f[..|f| - 6], x) <==> EndsWith(f, x + ".class")
  {
    var stem := f[..|f| - 6];
    var n := |x| + 6;
    assert f == stem + ".class";
    if |stem| >= |x| {
      assert stem[|stem| - |x|..] + ".class" == f[|f| - n..];
    }
    if EndsWith(f, x + ".class") {
      assert f[|f| - n..][..|x|] == stem[|stem| - |x|..];
    }
  }

  /** A `.class` name starting with `Test` has a stem of at least four
      characters: the suffix cannot overlap the prefix. */
  lemma TestPrefixLong(f: string)
    requires StartsWith(f, "Test") && EndsWith(f, ".class")
    ensures |f| >= 10
  {
    assert f[|f| - 6] == '.';
    assert forall k :: 0 <= k < 4 ==> f[k] == "Test"[k];
  }

  /** A class file as the filters see it. Whether it is an interface or
      abstract comes from its header. */
  datatype ClassRecord = ClassRecord(classfile: string, classname: string, isInterface: bool, isAbstract: bool)

  datatype ClassFilter =
    | NameFilter
    | NoAbstractFilter
    | IncludePatterns(patterns: seq<string>)
    | ExcludePatterns(patterns: seq<string>)

  /** Some pattern matches the whole class name; `matches` stands for
      `fnmatch.translate` followed by a regular-expression match. */
  function MatchesAny(patterns: seq<string>, name: string, matches: (string, string) -> bool): (r: bool)
    ensures r <==> exists i :: 0 <= i < |patterns| && matches(patterns[i], name)
  {
    Seqs.Any(patterns, (p: string) => matches(p, name))
  }

  /** Each filter's `accept`. */
  function Accept(f: ClassFilter, c: ClassRecord, matches: (string, string) -> bool): bool {
    match f
    case NameFilter => PotentialTestClassName(Paths.Basename(c.classfile))
    case NoAbstractFilter => !(c.isInterface || c.isAbstract)
    case IncludePatterns(ps) => MatchesAny(ps, c.classname, matches)
    case ExcludePatterns(ps) => !MatchesAny(ps, c.classname, matches)
  }

  /** The chain the constructor builds: the name and no-abstract filters,
      with the includes filter and then the excludes filter put in front. */
  function Chain(includes: Option<seq<string>>, excludes: Option<seq<string>>): (fs: seq<ClassFilter>)
    ensures |fs| == 2 + (if includes.Some? then 1 else 0) + (if excludes.Some? then 1 else 0)
    ensures fs[|fs| - 2..] == [NameFilter, NoAbstractFilter]
    ensures excludes.Some? ==> fs[0] == ExcludePatterns(excludes.value)
    ensures includes.Some? ==> fs[|fs| - 3] == IncludePatterns(includes.value)
  {
    var base := [NameFilter, NoAbstractFilter];
    var withInclude := if includes.Some? then [IncludePatterns(includes.value)] + base else base;
    if excludes.Some? then [ExcludePatterns(excludes.value)] + withInclude else withInclude
  }

  /** `classfiles = [c for c in classfiles if fil.accept(c)]` for each
      filter in turn. */
  function ApplyChain(cs: seq<ClassRecord>, fs: seq<ClassFilter>, matches: (string, string) -> bool): seq<ClassRecord>
    decreases |fs|
  {
    if |fs| == 0 then cs
    else ApplyChain(Seqs.Filter(cs, (c: ClassRecord) => Accept(fs[0], c, matches)), fs[1..], matches)
  }

  /** Every filter accepts `c`. */
  predicate AcceptsAll(fs: seq<ClassFilter>, c: ClassRecord, matches: (string, string) -> bool)
    ensures AcceptsAll(fs, c, matches) <==> forall i :: 0 <= i < |fs| ==> Accept(fs[i], c, matches)
  {
    |fs| == 0 || (Accept(fs[0], c, matches) && AcceptsAll(fs[1..], c, matches))
  }

  function AcceptedByAll(fs: seq<ClassFilter>, matches: (string, string) -> bool): ClassRecord -> bool {
    (c: ClassRecord) => AcceptsAll(fs, c, matches)
  }

  /** Filtering in turn keeps exactly the classes every filter accepts, in
      their original order. */
  lemma {:induction false} ApplyChainKeepsAccepted(cs: seq<ClassRecord>, fs: seq<ClassFilter>, matches: (string, string) -> bool)
    ensures ApplyChain(cs, fs, matches) == Seqs.Filter(cs, AcceptedByAll(fs, matches))
    decreases |fs|
  {
    if |fs| == 0 {
      Seqs.FilterAll(cs, AcceptedByAll(fs, matches));
    } else {
      var first := (c: ClassRecord) => Accept(fs[0], c, matches);
      ApplyChainKeepsAccepted(Seqs.Filter(cs, first), fs[1..], matches);
      Seqs.FilterFilter(cs, first, AcceptedByAll(fs[1..], matches), AcceptedByAll(fs, matches));
    }
  }

  /** A class is kept iff its name follows the default pattern, it is
      concrete, some includes pattern matches (when given) and no excludes
      pattern does (when given): exclusion wins over inclusion. */
  lemma KeptClasses(cs: seq<ClassRecord>, includes: Option<seq<string>>, excludes: Option<seq<string>>,
                    matches: (string, string) -> bool, c: ClassRecord)
    requires c in cs
    ensures c in ApplyChain(cs, Chain(includes, excludes), matches) <==>
              && SurefireDefault(Paths.Basename(c.classfile))
              && !c.isInterface && !c.isAbstract
              && (includes.Some? ==> MatchesAny(includes.value, c.classname, matches))
              && (excludes.Some? ==> !MatchesAny(excludes.value, c.classname, matches))
  {
    ApplyChainKeepsAccepted(cs, Chain(includes, excludes), matches);
    ChainAccepts(includes, excludes, matches, c);
  }

  lemma ChainAccepts(includes: Option<seq<string>>, excludes: Option<seq<string>>,
                     matches: (string, string) -> bool, c: ClassRecord)
    ensures AcceptsAll(Chain(includes, excludes), c, matches) <==>
              && SurefireDefault(Paths.Basename(c.classfile))
              && !c.isInterface && !c.isAbstract
              && (includes.Some? ==> MatchesAny(includes.value, c.classname, matches))
              && (excludes.Some? ==> !MatchesAny(excludes.value, c.classname, matches))
  {
    var base := [NameFilter, NoAbstractFilter];
    assert AcceptsAll(base, c, matches) <==> SurefireDefault(Paths.Basename(c.classfile)) && !c.isInterface && !c.isAbstract by {
      AcceptsAllCons(NameFilter, [NoAbstractFilter], c, matches);
      AcceptsAllCons(NoAbstractFilter, [], c, matches);
      assert [NameFilter] + [NoAbstractFilter] == base;
      assert [NoAbstractFilter] + [] == [NoAbstractFilter];
    }
    var withInclude := if includes.Some? then [IncludePatterns(includes.value)] + base else base;
    if includes.Some? {
      AcceptsAllCons(IncludePatterns(includes.value), base, c, matches);
    }
    if excludes.Some? {
      AcceptsAllCons(ExcludePatterns(excludes.value), withInclude, c, matches);
    }
  }

  lemma AcceptsAllCons(f: ClassFilter, fs: seq<ClassFilter>, c: ClassRecord, matches: (string, string) -> bool)
    ensures AcceptsAll([f] + fs, c, matches) <==> Accept(f, c, matches) && AcceptsAll(fs, c, matches)
  {
    assert ([f] + fs)[1..] == fs;
  }

  /** The same patterns to includes and to excludes keep nothing. */
  lemma SamePatternsKeepNothing(cs: seq<ClassRecord>, patterns: seq<string>, matches: (string, string) -> bool)
    ensures ApplyChain(cs, Chain(Some(patterns), Some(patterns)), matches) == []
  {
    var fs := Chain(Some(patterns), Some(patterns));
    ApplyChainKeepsAccepted(cs, fs, matches);
    forall i | 0 <= i < |cs|
      ensures !AcceptedByAll(fs, matches)(cs[i])
    {
      assert fs[0] == ExcludePatterns(patterns) && fs[1] == IncludePatterns(patterns);
      assert !(Accept(fs[0], cs[i], matches) && Accept(fs[1], cs[i], matches));
    }
  }
}
