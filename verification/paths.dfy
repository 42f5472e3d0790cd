/** POSIX path helpers from Python's `os.path`: `basename`, `dirname`,
    `join` and `relpath`. Paths are strings; `relpath` works on components
    and does not resolve `.` or `..`. */
module Paths {
  import opened Strings
  import opened Seqs

  /** `p.rfind(c)`: the last position of `c`, or -1. */
  function RFind(s: string, c: char): (k: int)
    ensures -1 <= k < |s|
    ensures k >= 0 ==> s[k] == c
    ensures forall i :: k < i < |s| ==> s[i] != c
  {
    if |s| == 0 then -1 else if s[|s| - 1] == c then |s| - 1 else RFind(s[..|s| - 1], c)
  }

  /** `os.path.basename(p)`: the part after the last slash. */
  function Basename(p: string): (b: string)
    ensures '/' !in b
    ensures EndsWith(p, b)
    ensures |b| < |p| ==> p[|p| - |b| - 1] == '/'
  {
    p[RFind(p, '/') + 1..]
  }

  predicate AllSlashes(s: string) {
    forall i :: 0 <= i < |s| ==> s[i] == '/'
  }

  /** `os.path.dirname(p)`: everything up to the last slash, with trailing
      slashes removed unless the head consists of slashes only. */
  function Dirname(p: string): (d: string)
    ensures d <= p
    ensures '/' !in p ==> d == ""
  {
    var head := p[..RFind(p, '/') + 1];
    if |head| > 0 && !AllSlashes(head) then RStrip(head, '/') else head
  }

  /** `os.path.join(a, b)`. */
  function PathJoin(a: string, b: string): (r: string)
    ensures |b| > 0 && b[0] == '/' ==> r == b
    ensures EndsWith(r, b)
  {
    if |b| > 0 && b[0] == '/' then b
    else if |a| == 0 || a[|a| - 1] == '/' then a + b
    else a + "/" + b
  }

  /** Joining a relative path onto a relative, non-empty one stays
      relative. */
  lemma JoinRelative(a: string, b: string)
    requires |a| > 0 && a[0] != '/'
    requires !(|b| > 0 && b[0] == '/')
    ensures |PathJoin(a, b)| > 0 && PathJoin(a, b)[0] != '/'
  {
    assert PathJoin(a, b)[0] == a[0];
  }

  function NonEmpty(s: string): bool {
    |s| > 0
  }

  /** The non-empty components of a path, as `relpath` computes them. */
  function Components(p: string): (cs: seq<string>)
    ensures forall i :: 0 <= i < |cs| ==> |cs[i]| > 0 && '/' !in cs[i]
  {
    Filter(Split(p, '/'), NonEmpty)
  }

  /** The length of the longest common prefix of two component lists. */
  function CommonPrefixLength(a: seq<string>, b: seq<string>): (n: nat)
    ensures n <= |a| && n <= |b| && a[..n] == b[..n]
    ensures n < |a| && n < |b| ==> a[n] != b[n]
  {
    if |a| == 0 || |b| == 0 || a[0] != b[0] then 0
    else 1 + CommonPrefixLength(a[1..], b[1..])
  }

  function Repeat(s: string, n: nat): (r: seq<string>)
    ensures |r| == n && forall i :: 0 <= i < n ==> r[i] == s
  {
    if n == 0 then [] else [s] + Repeat(s, n - 1)
  }

  /** The relative component list `relpath` builds from the start's and
      the path's components: one `..` per start component past the common
      prefix, then the rest of the path. */
  function RelativeComponents(s: seq<string>, p: seq<string>): seq<string>
  {
    var i := CommonPrefixLength(s, p);
    Repeat("..", |s| - i) + p[i..]
  }

  /** `os.path.relpath(path, start)` for paths made absolute against `cwd`;
      `.` when the two name the same directory. */
  function Relpath(path: string, start: string, cwd: string): (r: string)
  {
    RelpathOf(Components(PathJoin(cwd, start)), Components(PathJoin(cwd, path)))
  }

  /** The relative path from the start's components to the path's. */
  function RelpathOf(s: seq<string>, p: seq<string>): string {
    var rel := RelativeComponents(s, p);
    if |rel| == 0 then "." else Join(rel, "/")
  }

  lemma RelativeComponentsOfDescendant(s: seq<string>, p: seq<string>)
    requires s < p
    requires forall k :: 0 <= k < |p| ==> |p[k]| > 0 && '/' !in p[k]
    ensures RelativeComponents(s, p) == p[|s|..]
    ensures Components(Join(p[|s|..], "/")) == p[|s|..]
  {
    CommonPrefixOfPrefix(s, p);
    assert Repeat("..", 0) == [];
    var rel := p[|s|..];
    assert forall k :: 0 <= k < |rel| ==> |rel[k]| > 0 && '/' !in rel[k] by {
      forall k | 0 <= k < |rel|
        ensures |rel[k]| > 0 && '/' !in rel[k]
      {
        assert rel[k] == p[|s| + k];
      }
    }
    ComponentsOfJoin(rel);
  }

  /** A prefix is its own common prefix with the longer list. */
  lemma CommonPrefixOfPrefix(s: seq<string>, p: seq<string>)
    requires s <= p
    ensures CommonPrefixLength(s, p) == |s|
  {
    assert forall j :: 0 <= j < |s| ==> s[j] == p[j];
  }

  /** The components of a join of proper components are those
      components. */
  lemma ComponentsOfJoin(rel: seq<string>)
    requires |rel| > 0
    requires forall k :: 0 <= k < |rel| ==> |rel[k]| > 0 && '/' !in rel[k]
    ensures Components(Join(rel, "/")) == rel
  {
    assert "/" == ['/'];
    SplitJoin(rel, '/');
    FilterAll(rel, NonEmpty);
  }

  /** A descendant's relative path, appended to the start directory's
      components, gives back the descendant's components. */
  lemma RelpathOfDescendant(path: string, start: string, cwd: string)
    requires Components(PathJoin(cwd, start)) < Components(PathJoin(cwd, path))
    ensures Components(PathJoin(cwd, start)) + Components(Relpath(path, start, cwd))
         == Components(PathJoin(cwd, path))
  {
    DescendantComponents(Components(PathJoin(cwd, start)), Components(PathJoin(cwd, path)));
  }

  lemma DescendantComponents(s: seq<string>, p: seq<string>)
    requires s < p
    requires forall k :: 0 <= k < |p| ==> |p[k]| > 0 && '/' !in p[k]
    ensures s + Components(RelpathOf(s, p)) == p
  {
    var tail := p[|s|..];
    assert Components(RelpathOf(s, p)) == tail by {
      RelativeComponentsOfDescendant(s, p);
      assert RelpathOf(s, p) == Join(tail, "/");
    }
    PrefixThenRest(s, p);
  }

  lemma PrefixThenRest<T>(s: seq<T>, p: seq<T>)
    requires s <= p
    ensures s + p[|s|..] == p
  {
  }

  /** `sep.join(parts)` starts with the first part's first character. */
  lemma JoinHead(parts: seq<string>, sep: string)
    requires |parts| > 0 && |parts[0]| > 0
    ensures |Join(parts, sep)| > 0 && Join(parts, sep)[0] == parts[0][0]
  {
  }

  /** Every relative component is non-empty and free of slashes. */
  lemma RelativeComponentsWellFormed(s: seq<string>, p: seq<string>)
    requires forall k :: 0 <= k < |p| ==> |p[k]| > 0 && '/' !in p[k]
    ensures forall k :: 0 <= k < |RelativeComponents(s, p)| ==>
              |RelativeComponents(s, p)[k]| > 0 && '/' !in RelativeComponents(s, p)[k]
  {
    var i := CommonPrefixLength(s, p);
    var ups := Repeat("..", |s| - i);
    var rel := ups + p[i..];
    forall k | 0 <= k < |rel|
      ensures |rel[k]| > 0 && '/' !in rel[k]
    {
      if k < |ups| {
        assert rel[k] == "..";
      } else {
        assert rel[k] == p[i + k - |ups|];
      }
    }
  }

  /** `relpath` never returns an empty or absolute path. */
  lemma RelpathNotAbsolute(path: string, start: string, cwd: string)
    ensures |Relpath(path, start, cwd)| > 0 && Relpath(path, start, cwd)[0] != '/'
  {
    var rel := RelativeComponents(Components(PathJoin(cwd, start)), Components(PathJoin(cwd, path)));
    if |rel| > 0 {
      RelativeComponentsWellFormed(Components(PathJoin(cwd, start)), Components(PathJoin(cwd, path)));
      assert rel[0][0] in rel[0];
      JoinHead(rel, "/");
    }
  }

  /** A path as `os.path.normpath` leaves an absolute one below `/`: a
      leading slash, no empty component, no trailing slash. */
  predicate NormalAbsolute(p: string) {
    |p| >= 2 && p[0] == '/' && p[|p| - 1] != '/'
    && forall i :: 0 <= i < |p| - 1 ==> !(p[i] == '/' && p[i + 1] == '/')
  }

  /** `a` is a directory strictly above `p`, other than `/` itself. */
  predicate IsDirAncestor(a: string, p: string) {
    1 < |a| < |p| && p[..|a|] == a && p[|a|] == '/'
  }

  /** `dirname` of a normalised absolute path: `/` for a top-level entry,
      otherwise the path up to its last slash, itself normalised. */
  lemma DirnameNormal(p: string)
    requires NormalAbsolute(p)
    ensures var k := RFind(p, '/');
      && 0 <= k < |p| - 1
      && (k == 0 ==> Dirname(p) == "/")
      && (k > 0 ==> Dirname(p) == p[..k] && NormalAbsolute(p[..k]))
  {
    var k := RFind(p, '/');
    assert p[0] == '/';
    if k > 0 {
      assert p[k - 1] != '/';
      DirnameAtSlash(p, k);
      PrefixNormal(p, k);
    } else {
      assert p[..1] == "/";
    }
  }

  lemma DirnameAtSlash(p: string, k: nat)
    requires k == RFind(p, '/') && 0 < k && p[k - 1] != '/'
    ensures Dirname(p) == p[..k]
  {
    var head := p[..k + 1];
    assert head[k - 1] == p[k - 1];
    assert !AllSlashes(head);
    var r := RStrip(head, '/');
    assert |r| == k;
  }

  /** A normalised path cut before one of its slashes is normalised. */
  lemma PrefixNormal(p: string, k: nat)
    requires NormalAbsolute(p) && 0 < k < |p| && p[k] == '/'
    ensures NormalAbsolute(p[..k])
  {
    assert p[k - 1] != '/';
    var q := p[..k];
    assert forall i :: 0 <= i < |q| ==> q[i] == p[i];
  }

  /** The directories above a normalised absolute path are its `dirname`
      (unless that is `/`) and the directories above that. */
  lemma DirAncestorsStep(a: string, p: string)
    requires NormalAbsolute(p)
    ensures Dirname(p) == "/" ==> !IsDirAncestor(a, p)
    ensures Dirname(p) != "/" ==>
              (IsDirAncestor(a, p) <==> a == Dirname(p) || IsDirAncestor(a, Dirname(p)))
  {
    DirnameNormal(p);
    var k := RFind(p, '/');
    if IsDirAncestor(a, p) {
      assert p[|a|] == '/';
      assert |a| <= k;
      if k == 0 {
        assert false;
      }
      if |a| < k {
        assert p[..k][..|a|] == a;
        assert p[..k][|a|] == '/';
      }
    }
    if k > 0 && IsDirAncestor(a, p[..k]) {
      assert p[..|a|] == p[..k][..|a|];
    }
  }
  /** The last slash of `a/c` is the one before `c`. */
  lemma RFindJoined(a: string, c: string)
    requires '/' !in c
    ensures RFind(a + "/" + c, '/') == |a|
  {
    var p := a + "/" + c;
    assert p[|a|] == '/';
    assert p[|a| + 1..] == c;
    forall i | |a| < i < |p|
      ensures p[i] != '/'
    {
      assert p[i] == p[|a| + 1..][i - |a| - 1];
    }
  }

  /** The basename of `a/c` is `c`. */
  lemma BasenameJoined(a: string, c: string)
    requires '/' !in c
    ensures Basename(a + "/" + c) == c
  {
    RFindJoined(a, c);
  }
}
