/** Merging JUnit XML reports (the later `merge_xunit`): the first report's
    suite receives the counters of every other report and their test
    cases, grouped by (classname, name). With `ignore_flaky`, a group whose
    attempts both passed and failed loses its failed attempts, and the
    counters lose what those attempts contributed. Parsing, floating-point
    times and writing the file are parameters or left out. */
module MergeXunit {
  import opened Wrappers
  import opened Strings
  import opened Xml
  import Seqs

  /** The exceptions that can end the merge or one file's processing. */
  datatype Raised = ValueError | TypeError | ParseError | AttributeError

  datatype Counters = Counters(errors: int, failures: int, tests: int, skipped: int)

  const Zero := Counters(0, 0, 0, 0)

  function Plus(a: Counters, b: Counters): Counters {
    Counters(a.errors + b.errors, a.failures + b.failures, a.tests + b.tests, a.skipped + b.skipped)
  }

  lemma PlusZero(a: Counters)
    ensures Plus(a, Zero) == a && Plus(Zero, a) == a
  {
  }

  lemma PlusAssoc(a: Counters, b: Counters, c: Counters)
    ensures Plus(Plus(a, b), c) == Plus(a, Plus(b, c))
  {
  }

  // ---------------------------------------------------------------------
  // Reading a suite's counters

  /** `int(_safe_attribute(n, a, 0))`: an absent attribute counts 0, a
      present one must parse as a decimal integer. */
  function IntAttribute(n: Node, a: string): (r: Result<int, Raised>)
    requires n.Element?
    ensures a !in n.attrs ==> r == Success(0)
    ensures a in n.attrs ==> (r.Success? <==> ParseInt(n.attrs[a]).Some?)
    ensures a in n.attrs && r.Success? ==> ParseInt(n.attrs[a]) == Some(r.value)
    ensures r.Failure? ==> r.error == ValueError
  {
    match Attribute(n, a)
    case None => Success(0)
    case Some(v) => if ParseInt(v).Some? then Success(ParseInt(v).value) else Failure(ValueError)
  }

  /** `float(_safe_attribute(n, a, "0.0").replace(',', ''))` raises only on
      a present value that `isFloat` rejects; the value itself is not
      modelled. */
  predicate TimeOk(n: Node, a: string, isFloat: string -> bool)
    requires n.Element?
  {
    a !in n.attrs || isFloat(n.attrs[a])
  }

  /** The first report's `skipped`, as written:
      `int(_safe_attribute(testsuite, 'skipped'), 0)`. The default is
      missing, so an absent attribute gives `int(None, 0)`, which raises
      `TypeError`, and a present one is read with base 0 (a `0x` or
      leading-zero prefix changes its base). */
  function SkippedAsWritten(n: Node): (r: Result<int, Raised>)
    requires n.Element?
    ensures "skipped" !in n.attrs ==> r == Failure(TypeError)
    ensures "skipped" in n.attrs ==> (r.Success? <==> ParseIntBase0(n.attrs["skipped"]).Some?)
    ensures "skipped" in n.attrs && r.Success? ==> ParseIntBase0(n.attrs["skipped"]) == Some(r.value)
    ensures "skipped" in n.attrs && r.Failure? ==> r.error == ValueError
  {
    match Attribute(n, "skipped")
    case None => Failure(TypeError)
    case Some(v) => if ParseIntBase0(v).Some? then Success(ParseIntBase0(v).value) else Failure(ValueError)
  }

  /** Base 0 reads what `str` writes for a count unchanged, but a leading
      zero makes the value octal and `0x` hexadecimal, where the other
      counters' plain `int` reads decimal or refuses. */
  lemma SkippedBase0Values(tag: string, attrs: map<string, string>, children: seq<Node>, k: nat)
    ensures SkippedAsWritten(Element(tag, attrs["skipped" := NatToString(k)], children)) == Success(k)
    ensures SkippedAsWritten(Element(tag, attrs["skipped" := "010"], children)) == Success(8)
    ensures IntAttribute(Element(tag, attrs["skipped" := "010"], children), "skipped") == Success(10)
    ensures SkippedAsWritten(Element(tag, attrs["skipped" := "0x10"], children)) == Success(16)
    ensures IntAttribute(Element(tag, attrs["skipped" := "0x10"], children), "skipped") == Failure(ValueError)
  {
    ParseIntBase0OfNatToString(k);
    OctalTen();
    HexTen();
  }

  /** A leading zero makes `int(x, 0)` read octal where `int(x)` reads
      decimal. */
  lemma OctalTen()
    ensures ParseIntBase0("010") == Some(8) && ParseInt("010") == Some(10)
  {
    assert Strip("010") == "010";
    assert "010"[..2] == "01" && "01"[..1] == "0" && "0"[..0] == "";
  }

  /** A `0x` prefix is hexadecimal to `int(x, 0)` and not a number to
      `int(x)`. */
  lemma HexTen()
    ensures ParseIntBase0("0x10") == Some(16) && ParseInt("0x10") == None
  {
    assert Strip("0x10") == "0x10";
    assert "0x10"[2..] == "10" && "10"[..1] == "1" && "1"[..0] == "";
    assert DigitValue("0x10"[1]) >= 10;
  }

  /** What a suite adds when every counter reads: `skipped` is read as
      `skippedRead` says. */
  predicate Readable(n: Node, isFloat: string -> bool, skippedRead: Result<int, Raised>)
    requires n.Element?
  {
    IntAttribute(n, "errors").Success? && IntAttribute(n, "failures").Success? && IntAttribute(n, "tests").Success?
    && TimeOk(n, "time", isFloat) && skippedRead.Success?
  }

  function Counts(n: Node, isFloat: string -> bool, skippedRead: Result<int, Raised>): Counters
    requires n.Element? && Readable(n, isFloat, skippedRead)
  {
    Counters(IntAttribute(n, "errors").value, IntAttribute(n, "failures").value, IntAttribute(n, "tests").value, skippedRead.value)
  }

  /** The five `+=` lines in order: errors, failures, tests, time, skipped.
      The first one that raises stops the reading, and what was added
      before it stays added. */
  function ReadSuite(c: Counters, n: Node, isFloat: string -> bool, skippedRead: Result<int, Raised>): (r: (Counters, Option<Raised>))
    requires n.Element?
    ensures r.1.None? <==> Readable(n, isFloat, skippedRead)
    ensures r.1.None? ==> r.0 == Plus(c, Counts(n, isFloat, skippedRead))
    ensures r.1.Some? ==> r.0.skipped == c.skipped
    ensures IntAttribute(n, "errors").Failure? ==> r == (c, Some(ValueError))
  {
    match IntAttribute(n, "errors")
    case Failure(e) => (c, Some(e))
    case Success(errors) =>
      var c1 := c.(errors := c.errors + errors);
      match IntAttribute(n, "failures")
      case Failure(e) => (c1, Some(e))
      case Success(failures) =>
        var c2 := c1.(failures := c1.failures + failures);
        match IntAttribute(n, "tests")
        case Failure(e) => (c2, Some(e))
        case Success(tests) =>
          var c3 := c2.(tests := c2.tests + tests);
          if !TimeOk(n, "time", isFloat) then (c3, Some(ValueError))
          else match skippedRead
            case Failure(e) => (c3, Some(e))
            case Success(skipped) => (c3.(skipped := c3.skipped + skipped), None)
  }

  // ---------------------------------------------------------------------
  // Grouping test cases by name

  /** `(classname, name)`, either of which may be absent. */
  datatype CaseName = CaseName(classname: Option<string>, name: Option<string>)

  function NameOf(t: Node): CaseName
    requires t.Element?
  {
    CaseName(Attribute(t, "classname"), Attribute(t, "name"))
  }

  datatype Group = Group(name: CaseName, tests: seq<Node>)

  /** The test cases of all groups, group by group. */
  function Flatten(gs: seq<Group>): seq<Node> {
    if |gs| == 0 then [] else gs[0].tests + Flatten(gs[1..])
  }

  /** Groups have distinct names, and each holds elements of its name. */
  predicate GroupsWellFormed(gs: seq<Group>) {
    && (forall i, j :: 0 <= i < j < |gs| ==> gs[i].name != gs[j].name)
    && (forall i, k :: 0 <= i < |gs| && 0 <= k < |gs[i].tests| ==> gs[i].tests[k].Element? && NameOf(gs[i].tests[k]) == gs[i].name)
  }

  lemma FlattenCons(g: Group, gs: seq<Group>)
    ensures Flatten([g] + gs) == g.tests + Flatten(gs)
  {
    assert ([g] + gs)[1..] == gs;
  }

  lemma FlattenAppend(gs: seq<Group>, g: Group)
    ensures Flatten(gs + [g]) == Flatten(gs) + g.tests
  {
    if |gs| > 0 {
      assert (gs + [g])[1..] == gs[1..] + [g];
      FlattenAppend(gs[1..], g);
    }
  }

  /** Replacing one group's cases changes the flattened cases by exactly
      those cases. */
  lemma {:induction false} FlattenUpdate(gs: seq<Group>, i: nat, g: Group)
    requires i < |gs|
    ensures multiset(Flatten(gs[i := g])) + multiset(gs[i].tests) == multiset(Flatten(gs)) + multiset(g.tests)
  {
    var u := gs[i := g];
    assert Flatten(gs) == gs[0].tests + Flatten(gs[1..]);
    assert Flatten(u) == u[0].tests + Flatten(u[1..]);
    if i > 0 {
      assert u[0] == gs[0] && gs[1..][i - 1] == gs[i];
      assert u[1..] == gs[1..][i - 1 := g];
      var v := gs[1..][i - 1 := g];
      FlattenUpdate(gs[1..], i - 1, g);
      assert multiset(Flatten(u)) == multiset(gs[0].tests) + multiset(Flatten(v));
      assert multiset(Flatten(gs)) == multiset(gs[0].tests) + multiset(Flatten(gs[1..]));
      Seqs.MultisetShift(multiset(gs[0].tests), multiset(Flatten(v)), multiset(gs[i].tests),
                         multiset(Flatten(gs[1..])), multiset(g.tests));
    } else {
      assert u[1..] == gs[1..];
    }
  }

  /** A group's cases are part of the flattened cases. */
  lemma {:induction false} FlattenPart(gs: seq<Group>, i: nat)
    requires i < |gs|
    ensures multiset(gs[i].tests) <= multiset(Flatten(gs))
  {
    if i > 0 {
      FlattenPart(gs[1..], i - 1);
    }
  }

  function HasName(k: CaseName): Group -> bool {
    (g: Group) => g.name == k
  }

  /** `name2tests[name].append(test_case)`: the case joins the group of its
      name, or opens a new group after the existing ones. The order of
      groups stands for the dictionary's iteration order. */
  function AddCase(gs: seq<Group>, t: Node): (r: seq<Group>)
    requires t.Element?
    ensures multiset(Flatten(r)) == multiset(Flatten(gs)) + multiset{t}
  {
    var i := Seqs.LastIndex(gs, HasName(NameOf(t)));
    if i >= 0 then
      var g := gs[i].(tests := gs[i].tests + [t]);
      FlattenUpdate(gs, i, g);
      assert multiset(g.tests) == multiset(gs[i].tests) + multiset{t};
      Seqs.MultisetCancel(multiset(Flatten(gs[i := g])), multiset(Flatten(gs)) + multiset{t}, multiset(gs[i].tests));
      gs[i := g]
    else
      FlattenAppend(gs, Group(NameOf(t), [t]));
      gs + [Group(NameOf(t), [t])]
  }

  /** Adding a case keeps the names distinct and every case in the group
      of its own name. */
  lemma GroupsAreElements(gs: seq<Group>)
    requires GroupsWellFormed(gs)
    ensures AllElementCases(gs)
  {
  }

  lemma AddCaseKeepsWellFormed(gs: seq<Group>, t: Node)
    requires t.Element? && GroupsWellFormed(gs)
    ensures GroupsWellFormed(AddCase(gs, t))
  {
    var i := Seqs.LastIndex(gs, HasName(NameOf(t)));
    var r := AddCase(gs, t);
    if i >= 0 {
      assert |r| == |gs|;
      assert forall j :: 0 <= j < |gs| ==> r[j].name == gs[j].name;
      forall j, k | 0 <= j < |r| && 0 <= k < |r[j].tests|
        ensures r[j].tests[k].Element? && NameOf(r[j].tests[k]) == r[j].name
      {
        if j == i && k == |gs[i].tests| {
          assert r[j].tests[k] == t;
        } else {
          assert r[j].tests[k] == gs[j].tests[k];
        }
      }
    } else {
      assert r == gs + [Group(NameOf(t), [t])];
      forall j | 0 <= j < |gs|
        ensures gs[j].name != NameOf(t)
      {
        assert !HasName(NameOf(t))(gs[j]);
      }
    }
  }

  function AddCases(gs: seq<Group>, ts: seq<Node>): (r: seq<Group>)
    requires forall k :: 0 <= k < |ts| ==> ts[k].Element?
    ensures multiset(Flatten(r)) == multiset(Flatten(gs)) + multiset(ts)
    decreases |ts|
  {
    if |ts| == 0 then gs
    else
      assert ts == [ts[0]] + ts[1..];
      AddCases(AddCase(gs, ts[0]), ts[1..])
  }

  lemma {:induction false} AddCasesKeepsWellFormed(gs: seq<Group>, ts: seq<Node>)
    requires forall k :: 0 <= k < |ts| ==> ts[k].Element?
    ensures GroupsWellFormed(gs) ==> GroupsWellFormed(AddCases(gs, ts))
    decreases |ts|
  {
    if |ts| > 0 && GroupsWellFormed(gs) {
      AddCaseKeepsWellFormed(gs, ts[0]);
      AddCasesKeepsWellFormed(AddCase(gs, ts[0]), ts[1..]);
    }
  }

  // ---------------------------------------------------------------------
  // The files after the first

  /** `[x for x in in_files if x != first_in]`. */
  function ToMerge(inFiles: seq<string>): (r: seq<string>)
    requires |inFiles| > 0
    ensures forall f :: f in r <==> f in inFiles && f != inFiles[0]
  {
    Seqs.Filter(inFiles, (x: string) => x != inFiles[0])
  }

  datatype State = State(counters: Counters, groups: seq<Group>)

  /** One iteration of the merge loop. A report that does not parse, or
      whose root is not an element, changes nothing; a counter that does
      not read stops the file with the earlier counters already added and
      none of its cases. */
  function MergeFile(st: State, doc: Option<Node>, isFloat: string -> bool): (r: State)
    ensures doc.None? || doc.value.Text? ==> r == st
    ensures doc.Some? && doc.value.Element? && Readable(doc.value, isFloat, IntAttribute(doc.value, "skipped")) ==>
              r.counters == Plus(st.counters, Counts(doc.value, isFloat, IntAttribute(doc.value, "skipped")))
              && multiset(Flatten(r.groups)) == multiset(Flatten(st.groups)) + multiset(ElementsByTag(doc.value, "testcase"))
    ensures doc.Some? && doc.value.Element? && !Readable(doc.value, isFloat, IntAttribute(doc.value, "skipped")) ==>
              r.groups == st.groups
    ensures GroupsWellFormed(st.groups) ==> GroupsWellFormed(r.groups)
  {
    match doc
    case None => st
    case Some(suite) =>
      if suite.Text? then st
      else
        var (c, raised) := ReadSuite(st.counters, suite, isFloat, IntAttribute(suite, "skipped"));
        if raised.Some? then State(c, st.groups)
        else
          AddCasesKeepsWellFormed(st.groups, ElementsByTag(suite, "testcase"));
          State(c, AddCases(st.groups, ElementsByTag(suite, "testcase")))
  }

  function MergeFiles(st: State, files: seq<string>, docs: string -> Option<Node>, isFloat: string -> bool): (r: State)
    ensures GroupsWellFormed(st.groups) ==> GroupsWellFormed(r.groups)
    decreases |files|
  {
    if |files| == 0 then st
    else MergeFiles(MergeFile(st, docs(files[0]), isFloat), files[1..], docs, isFloat)
  }

  /** Every report reads completely. */
  predicate AllReadable(files: seq<string>, docs: string -> Option<Node>, isFloat: string -> bool) {
    forall i :: 0 <= i < |files| ==>
      docs(files[i]).Some? && docs(files[i]).value.Element? && Readable(docs(files[i]).value, isFloat, IntAttribute(docs(files[i]).value, "skipped"))
  }

  /** The sum of the counters of readable reports. */
  function SumCounts(files: seq<string>, docs: string -> Option<Node>, isFloat: string -> bool): Counters
    requires AllReadable(files, docs, isFloat)
    decreases |files|
  {
    if |files| == 0 then Zero
    else
      var n := docs(files[0]).value;
      assert AllReadable(files[1..], docs, isFloat) by {
        assert forall i :: 1 <= i < |files| ==> files[i] == files[1..][i - 1];
      }
      Plus(Counts(n, isFloat, IntAttribute(n, "skipped")), SumCounts(files[1..], docs, isFloat))
  }

  /** Every test case of every report, in file order. */
  function AllCases(files: seq<string>, docs: string -> Option<Node>): seq<Node>
    decreases |files|
  {
    if |files| == 0 then []
    else
      (match docs(files[0]) case Some(n) => ElementsByTag(n, "testcase") case None => [])
      + AllCases(files[1..], docs)
  }

  /** The reports after the first still all read. */
  lemma AllReadableTail(files: seq<string>, docs: string -> Option<Node>, isFloat: string -> bool)
    requires |files| > 0 && AllReadable(files, docs, isFloat)
    ensures AllReadable(files[1..], docs, isFloat)
  {
    assert forall i :: 1 <= i < |files| ==> files[i] == files[1..][i - 1];
  }

  /** One step of the loop over readable reports, for the counters. */
  lemma MergeFilesStep(st: State, files: seq<string>, docs: string -> Option<Node>, isFloat: string -> bool)
    requires |files| > 0 && AllReadable(files, docs, isFloat)
    requires AllReadable(files[1..], docs, isFloat)
    ensures var st1 := MergeFile(st, docs(files[0]), isFloat);
            var n := docs(files[0]).value;
            && n.Element? && Readable(n, isFloat, IntAttribute(n, "skipped"))
            && MergeFiles(st, files, docs, isFloat) == MergeFiles(st1, files[1..], docs, isFloat)
            && st1.counters == Plus(st.counters, Counts(n, isFloat, IntAttribute(n, "skipped")))
            && SumCounts(files, docs, isFloat) == Plus(Counts(n, isFloat, IntAttribute(n, "skipped")), SumCounts(files[1..], docs, isFloat))
  {
  }

  /** When every report reads, the loop adds up all their counters. */
  lemma {:induction false} MergeFilesSums(st: State, files: seq<string>, docs: string -> Option<Node>, isFloat: string -> bool)
    requires AllReadable(files, docs, isFloat)
    ensures MergeFiles(st, files, docs, isFloat).counters == Plus(st.counters, SumCounts(files, docs, isFloat))
    decreases |files|
  {
    if |files| > 0 {
      AllReadableTail(files, docs, isFloat);
      var st1 := MergeFile(st, docs(files[0]), isFloat);
      MergeFilesStep(st, files, docs, isFloat);
      MergeFilesSums(st1, files[1..], docs, isFloat);
      var n := docs(files[0]).value;
      PlusAssoc(st.counters, Counts(n, isFloat, IntAttribute(n, "skipped")), SumCounts(files[1..], docs, isFloat));
    }
  }

  /** When every report reads, the loop collects all their cases. */
  lemma {:induction false} MergeFilesCases(st: State, files: seq<string>, docs: string -> Option<Node>, isFloat: string -> bool)
    requires AllReadable(files, docs, isFloat)
    ensures multiset(Flatten(MergeFiles(st, files, docs, isFloat).groups)) == multiset(Flatten(st.groups)) + multiset(AllCases(files, docs))
    decreases |files|
  {
    if |files| > 0 {
      AllReadableTail(files, docs, isFloat);
      var n := docs(files[0]).value;
      var st1 := MergeFile(st, docs(files[0]), isFloat);
      assert multiset(Flatten(st1.groups)) == multiset(Flatten(st.groups)) + multiset(ElementsByTag(n, "testcase"));
      assert AllCases(files, docs) == ElementsByTag(n, "testcase") + AllCases(files[1..], docs);
      MergeFilesCases(st1, files[1..], docs, isFloat);
    }
  }

  // ---------------------------------------------------------------------
  // Dropping the failed attempts of flaky tests

  /** A case failed (or was skipped) when it has an element child; text
      children do not count. */
  predicate Failed(t: Node) {
    HasElementChild(t)
  }

  predicate Passed(t: Node) {
    !Failed(t)
  }

  /** Which attempts of a mixed group survive, as written: only a case with
      no child nodes at all. */
  predicate KeepAsWritten(t: Node) {
    !HasChildNodes(t)
  }

  /** Which attempts of a mixed group survive, as intended: the passing
      ones. */
  predicate KeepPassing(t: Node) {
    Passed(t)
  }

  function IsElement(n: Node): bool {
    n.Element?
  }

  function IsTagged(tag: string): Node -> bool {
    (n: Node) => n.Element? && n.tag == tag
  }

  function Minus(a: Counters, b: Counters): Counters {
    Counters(a.errors - b.errors, a.failures - b.failures, a.tests - b.tests, a.skipped - b.skipped)
  }

  /** What a dropped case takes off the counters, child by child: each
      element child one test, an `<error>` one error, a `<failure>` one
      failure. An element child whose `time` does not read as a float
      raises. */
  function Debit(cs: seq<Node>, isFloat: string -> bool): (r: Result<Counters, Raised>)
    ensures r.Success? <==> forall i :: 0 <= i < |cs| && cs[i].Element? ==> TimeOk(cs[i], "time", isFloat)
    ensures r.Failure? ==> r.error == ValueError
    ensures r.Success? ==> r.value.tests == Seqs.Count(cs, IsElement) && r.value.skipped == 0
    ensures r.Success? ==> r.value.errors == Seqs.Count(cs, IsTagged("error"))
    ensures r.Success? ==> r.value.failures == Seqs.Count(cs, IsTagged("failure"))
    ensures r.Success? ==> r.value.errors + r.value.failures <= r.value.tests
  {
    if |cs| == 0 then Success(Zero)
    else
      assert forall i :: 1 <= i < |cs| ==> cs[i] == cs[1..][i - 1];
      var rest := Debit(cs[1..], isFloat);
      if cs[0].Text? then rest
      else if !TimeOk(cs[0], "time", isFloat) then Failure(ValueError)
      else if rest.Failure? then rest
      else
        var one := Counters(if cs[0].tag == "error" then 1 else 0, if cs[0].tag == "failure" then 1 else 0, 1, 0);
        Success(Plus(one, rest.value))
  }

  /** All cases of a group must be elements. */
  predicate ElementCases(ts: seq<Node>) {
    forall k :: 0 <= k < |ts| ==> ts[k].Element?
  }

  /** The second loop over a mixed group: cases `keep` accepts stay, in
      order; every other case is dropped and debited. */
  function FilterCases(ts: seq<Node>, keep: Node -> bool, isFloat: string -> bool): (r: Result<(seq<Node>, Counters), Raised>)
    requires ElementCases(ts)
    ensures r.Success? ==> r.value.0 == Seqs.Filter(ts, keep)
    ensures r.Success? ==> r.value.1.skipped == 0 && r.value.1.errors + r.value.1.failures <= r.value.1.tests
    ensures r.Failure? ==> r.error == ValueError
  {
    if |ts| == 0 then Success(([], Zero))
    else
      assert ElementCases(ts[1..]) by {
        assert forall k :: 1 <= k < |ts| ==> ts[k] == ts[1..][k - 1];
      }
      match FilterCases(ts[1..], keep, isFloat)
      case Failure(e) => Failure(e)
      case Success((kept, debit)) =>
        if keep(ts[0]) then Success(([ts[0]] + kept, debit))
        else
          match Debit(ts[0].children, isFloat)
          case Failure(e) => Failure(e)
          case Success(d) => Success((kept, Plus(d, debit)))
  }

  /** Every case `keep` rejects is a failed one. */
  predicate DropsOnlyFailed(ts: seq<Node>, keep: Node -> bool) {
    forall k :: 0 <= k < |ts| && !keep(ts[k]) ==> Failed(ts[k])
  }

  /** When only failed cases are dropped, the debit counts at least one
      test per dropped case. */
  lemma {:induction false} FilterCasesDebits(ts: seq<Node>, keep: Node -> bool, isFloat: string -> bool)
    requires ElementCases(ts)
    ensures var r := FilterCases(ts, keep, isFloat);
            r.Success? && DropsOnlyFailed(ts, keep) ==>
              r.value.1.tests >= |ts| - |r.value.0|
  {
    if |ts| > 0 && DropsOnlyFailed(ts, keep) {
      assert forall k :: 1 <= k < |ts| ==> ts[k] == ts[1..][k - 1];
      FilterCasesDebits(ts[1..], keep, isFloat);
      if !keep(ts[0]) {
        var d := Debit(ts[0].children, isFloat);
        if d.Success? {
          DebitOfFailed(ts[0], d.value);
        }
      }
    }
  }

  /** A failed case has an element child, so it is debited at least one
      test. */
  lemma DebitOfFailed(t: Node, d: Counters)
    requires t.Element? && d.tests == Seqs.Count(t.children, IsElement)
    ensures Failed(t) ==> d.tests >= 1
  {
    if Failed(t) {
      var i :| 0 <= i < |t.children| && t.children[i].Element?;
      assert IsElement(t.children[i]);
    }
  }

  /** Every attempt failed, or every attempt passed: such a group is left
      alone (an empty group counts as all failed). */
  predicate Uniform(ts: seq<Node>) {
    Seqs.All(ts, Failed) || Seqs.All(ts, Passed)
  }

  /** The first loop's classification, then the filtering of a mixed
      group. */
  function FlakyGroup(g: Group, keep: Node -> bool, isFloat: string -> bool): (r: Result<(Group, Counters), Raised>)
    requires ElementCases(g.tests)
    ensures r.Success? ==> r.value.0.name == g.name
    ensures Uniform(g.tests) ==> r == Success((g, Zero))
    ensures !Uniform(g.tests) && r.Success? ==> r.value.0.tests == Seqs.Filter(g.tests, keep)
    ensures r.Success? ==> r.value.1.skipped == 0 && r.value.1.errors + r.value.1.failures <= r.value.1.tests
    ensures r.Success? && DropsOnlyFailed(g.tests, keep) ==>
              r.value.1.tests >= |g.tests| - |r.value.0.tests|
    ensures r.Failure? ==> r.error == ValueError
  {
    if Uniform(g.tests) then Success((g, Zero))
    else
      match FilterCases(g.tests, keep, isFloat)
      case Failure(e) => Failure(e)
      case Success((kept, debit)) =>
        FilterCasesDebits(g.tests, keep, isFloat);
        Success((g.(tests := kept), debit))
  }

  predicate AllElementCases(gs: seq<Group>) {
    forall i :: 0 <= i < |gs| ==> ElementCases(gs[i].tests)
  }

  /** One group's result: the same name, the group itself when uniform,
      its cases filtered by `keep` when mixed. */
  predicate Shaped(g: Group, keep: Node -> bool, r: Group) {
    && r.name == g.name
    && (Uniform(g.tests) ==> r == g)
    && (!Uniform(g.tests) ==> r.tests == Seqs.Filter(g.tests, keep))
  }

  /** What the flaky pass promises of its result `rs` and its debit `d`:
      one group per input group under the same name, uniform groups kept
      whole, mixed groups filtered by `keep`; the debit has no skipped
      tests, never more errors and failures than tests, and, when only
      failed cases are dropped, at least one test per dropped case. */
  predicate FlakyOutcome(gs: seq<Group>, keep: Node -> bool, rs: seq<Group>, d: Counters) {
    && |rs| == |gs|
    && (forall i :: 0 <= i < |gs| ==> Shaped(gs[i], keep, rs[i]))
    && d.skipped == 0 && d.errors + d.failures <= d.tests
    && ((forall i :: 0 <= i < |gs| ==> DropsOnlyFailed(gs[i].tests, keep)) ==>
          d.tests >= |Flatten(gs)| - |Flatten(rs)|)
  }

  /** The outcome of the first group and that of the rest make the outcome
      of the whole list. */
  lemma FlakyOutcomeCons(gs: seq<Group>, keep: Node -> bool, isFloat: string -> bool, g: Group, d: Counters, rest: seq<Group>, debit: Counters)
    requires |gs| > 0 && ElementCases(gs[0].tests)
    requires FlakyGroup(gs[0], keep, isFloat) == Success((g, d))
    requires FlakyOutcome(gs[1..], keep, rest, debit)
    ensures FlakyOutcome(gs, keep, [g] + rest, Plus(d, debit))
  {
    FlakyShapeCons(gs, keep, g, rest);
    FlakyDebitCons(gs, keep, g, d, rest, debit);
  }

  lemma FlakyShapeCons(gs: seq<Group>, keep: Node -> bool, g: Group, rest: seq<Group>)
    requires |gs| > 0 && |rest| == |gs| - 1 && Shaped(gs[0], keep, g)
    requires forall i :: 0 <= i < |rest| ==> Shaped(gs[1..][i], keep, rest[i])
    ensures forall i :: 0 <= i < |gs| ==> Shaped(gs[i], keep, ([g] + rest)[i])
  {
    var rs := [g] + rest;
    var tail := gs[1..];
    forall i | 0 < i < |gs|
      ensures Shaped(gs[i], keep, rs[i])
    {
      assert gs[i] == tail[i - 1] && rs[i] == rest[i - 1];
    }
  }

  lemma FlakyDebitCons(gs: seq<Group>, keep: Node -> bool, g: Group, d: Counters, rest: seq<Group>, debit: Counters)
    requires |gs| > 0
    requires DropsOnlyFailed(gs[0].tests, keep) ==>
               d.tests >= |gs[0].tests| - |g.tests|
    requires (forall i :: 0 <= i < |gs[1..]| ==> DropsOnlyFailed(gs[1..][i].tests, keep)) ==>
               debit.tests >= |Flatten(gs[1..])| - |Flatten(rest)|
    ensures (forall i :: 0 <= i < |gs| ==> DropsOnlyFailed(gs[i].tests, keep)) ==>
              Plus(d, debit).tests >= |Flatten(gs)| - |Flatten([g] + rest)|
  {
    var tail := gs[1..];
    FlattenCons(g, rest);
    assert gs == [gs[0]] + tail;
    FlattenCons(gs[0], tail);
    assert |Flatten(gs)| - |Flatten([g] + rest)| == (|gs[0].tests| - |g.tests|) + (|Flatten(tail)| - |Flatten(rest)|);
    if forall i :: 0 <= i < |gs| ==> DropsOnlyFailed(gs[i].tests, keep) {
      forall i | 0 <= i < |tail|
        ensures DropsOnlyFailed(tail[i].tests, keep)
      {
        assert tail[i] == gs[i + 1];
      }
    }
  }

  /** The `ignore_flaky` pass over all groups; a time that does not read
      raises out of the whole merge. */
  function IgnoreFlaky(gs: seq<Group>, keep: Node -> bool, isFloat: string -> bool): (r: Result<(seq<Group>, Counters), Raised>)
    requires AllElementCases(gs)
    ensures r.Success? ==> FlakyOutcome(gs, keep, r.value.0, r.value.1)
    ensures r.Failure? ==> r.error == ValueError
  {
    if |gs| == 0 then Success(([], Zero))
    else
      match FlakyGroup(gs[0], keep, isFloat)
      case Failure(e) => Failure(e)
      case Success((g, d)) =>
        assert AllElementCases(gs[1..]) by {
          assert forall i :: 1 <= i < |gs| ==> gs[i] == gs[1..][i - 1];
        }
        match IgnoreFlaky(gs[1..], keep, isFloat)
        case Failure(e) => Failure(e)
        case Success((rest, debit)) =>
          FlakyOutcomeCons(gs, keep, isFloat, g, d, rest, debit);
          Success(([g] + rest, Plus(d, debit)))
  }

  /** With the intended rule, no passing attempt is ever dropped. */
  lemma PassingCasesKept(gs: seq<Group>, isFloat: string -> bool)
    requires AllElementCases(gs)
    ensures var r := IgnoreFlaky(gs, KeepPassing, isFloat);
            r.Success? ==> forall i, k :: 0 <= i < |gs| && 0 <= k < |gs[i].tests| && Passed(gs[i].tests[k]) ==>
              gs[i].tests[k] in r.value.0[i].tests
  {
    var r := IgnoreFlaky(gs, KeepPassing, isFloat);
    if r.Success? {
      forall i, k | 0 <= i < |gs| && 0 <= k < |gs[i].tests| && Passed(gs[i].tests[k])
        ensures gs[i].tests[k] in r.value.0[i].tests
      {
        if !Uniform(gs[i].tests) {
          assert KeepPassing(gs[i].tests[k]);
        }
      }
    }
  }

  /** With the intended rule, the `tests` counter loses at least one per
      dropped attempt. */
  lemma DroppedAttemptsDebited(gs: seq<Group>, isFloat: string -> bool)
    requires AllElementCases(gs)
    ensures var r := IgnoreFlaky(gs, KeepPassing, isFloat);
            r.Success? ==> r.value.1.tests >= |Flatten(gs)| - |Flatten(r.value.0)|
  {
  }

  /** A passing attempt whose only child is whitespace text. */
  function WhitespacePass(): Node {
    Element("testcase", map["name" := "t"], [Text("\n")])
  }

  /** A failed attempt of the same test. */
  function FailedAttempt(): Node {
    Element("testcase", map["name" := "t"], [Element("failure", map[], [])])
  }

  lemma ExampleClassification()
    ensures !HasElementChild(WhitespacePass()) && HasChildNodes(WhitespacePass())
    ensures HasElementChild(FailedAttempt())
    ensures NameOf(WhitespacePass()) == NameOf(FailedAttempt())
  {
    assert FailedAttempt().children[0].Element?;
  }

  lemma ExampleFailedDebit(isFloat: string -> bool)
    ensures Debit(FailedAttempt().children, isFloat) == Success(Counters(0, 1, 1, 0))
  {
    var cs := FailedAttempt().children;
    assert cs[1..] == [];
    assert IsTagged("failure")(cs[0]) && !IsTagged("error")(cs[0]) && IsElement(cs[0]);
  }

  lemma ExamplePassDebit(isFloat: string -> bool)
    ensures Debit(WhitespacePass().children, isFloat) == Success(Zero)
  {
    assert WhitespacePass().children[1..] == [];
  }

  lemma ExampleFilterFailed(keep: Node -> bool, isFloat: string -> bool)
    requires !keep(FailedAttempt())
    ensures FilterCases([FailedAttempt()], keep, isFloat) == Success(([], Counters(0, 1, 1, 0)))
  {
    ExampleFailedDebit(isFloat);
    assert [FailedAttempt()][1..] == [];
  }

  /** One step of the second loop: a kept case goes in front of what the
      rest keeps, a dropped one adds its debit. */
  lemma FilterCasesStep(ts: seq<Node>, keep: Node -> bool, isFloat: string -> bool, kept: seq<Node>, debit: Counters, d: Counters)
    requires |ts| > 0 && ElementCases(ts) && ElementCases(ts[1..])
    requires FilterCases(ts[1..], keep, isFloat) == Success((kept, debit))
    requires !keep(ts[0]) ==> Debit(ts[0].children, isFloat) == Success(d)
    ensures keep(ts[0]) ==> FilterCases(ts, keep, isFloat) == Success(([ts[0]] + kept, debit))
    ensures !keep(ts[0]) ==> FilterCases(ts, keep, isFloat) == Success((kept, Plus(d, debit)))
  {
  }

  /** A pair whose second case is dropped with debit `c`: a kept first
      case stays alone. */
  lemma FilterPairKept(ts: seq<Node>, keep: Node -> bool, isFloat: string -> bool, c: Counters)
    requires |ts| == 2 && ElementCases(ts) && ElementCases(ts[1..]) && keep(ts[0])
    requires FilterCases(ts[1..], keep, isFloat) == Success(([], c))
    ensures FilterCases(ts, keep, isFloat) == Success(([ts[0]], c))
  {
    FilterCasesStep(ts, keep, isFloat, [], c, Zero);
    assert [ts[0]] + [] == [ts[0]];
  }

  /** A pair whose second case is dropped with debit `c`: a dropped first
      case without debit leaves nothing and the same debit. */
  lemma FilterPairDropped(ts: seq<Node>, keep: Node -> bool, isFloat: string -> bool, c: Counters)
    requires |ts| == 2 && ElementCases(ts) && ElementCases(ts[1..]) && !keep(ts[0])
    requires Debit(ts[0].children, isFloat) == Success(Zero)
    requires FilterCases(ts[1..], keep, isFloat) == Success(([], c))
    ensures FilterCases(ts, keep, isFloat) == Success(([], c))
  {
    FilterCasesStep(ts, keep, isFloat, [], c, Zero);
    PlusZero(c);
  }

  /** As written, both attempts of the pair are dropped. */
  lemma ExampleFilterAsWritten(isFloat: string -> bool)
    ensures FilterCases([WhitespacePass(), FailedAttempt()], KeepAsWritten, isFloat) == Success(([], Counters(0, 1, 1, 0)))
  {
    ExampleClassification();
    ExampleFilterFailed(KeepAsWritten, isFloat);
    ExamplePassDebit(isFloat);
    AsWrittenPairDropped(WhitespacePass(), FailedAttempt(), isFloat, Counters(0, 1, 1, 0));
  }

  /** As written, an attempt with child nodes but no debit, followed by a
      dropped one, leaves nothing. */
  lemma AsWrittenPairDropped(p: Node, f: Node, isFloat: string -> bool, c: Counters)
    requires p.Element? && f.Element? && HasChildNodes(p)
    requires Debit(p.children, isFloat) == Success(Zero)
    requires FilterCases([f], KeepAsWritten, isFloat) == Success(([], c))
    ensures FilterCases([p, f], KeepAsWritten, isFloat) == Success(([], c))
  {
    var ts := [p, f];
    assert ts[0] == p && ts[1..] == [f];
    assert ElementCases(ts) && ElementCases(ts[1..]) && !KeepAsWritten(ts[0]);
    FilterPairDropped(ts, KeepAsWritten, isFloat, c);
  }

  /** With the intended rule, a passing attempt followed by a dropped one
      stays alone. */
  lemma PassingPairKept(p: Node, f: Node, isFloat: string -> bool, c: Counters)
    requires p.Element? && f.Element? && Passed(p)
    requires FilterCases([f], KeepPassing, isFloat) == Success(([], c))
    ensures FilterCases([p, f], KeepPassing, isFloat) == Success(([p], c))
  {
    var ts := [p, f];
    assert ts[1..] == [f];
    FilterPairKept(ts, KeepPassing, isFloat, c);
  }

  /** With the intended rule, the passing attempt of the pair stays. */
  lemma ExampleFilterPassing(isFloat: string -> bool)
    ensures FilterCases([WhitespacePass(), FailedAttempt()], KeepPassing, isFloat) == Success(([WhitespacePass()], Counters(0, 1, 1, 0)))
  {
    ExampleClassification();
    ExampleFilterFailed(KeepPassing, isFloat);
    PassingPairKept(WhitespacePass(), FailedAttempt(), isFloat, Counters(0, 1, 1, 0));
  }

  lemma ExampleMixed()
    ensures !Uniform([WhitespacePass(), FailedAttempt()])
  {
    var ts := [WhitespacePass(), FailedAttempt()];
    ExampleClassification();
    assert !Failed(ts[0]) && !Passed(ts[1]);
  }

  /** A mixed group is filtered. */
  lemma FlakyGroupMixed(name: CaseName, ts: seq<Node>, keep: Node -> bool, isFloat: string -> bool, kept: seq<Node>, d: Counters)
    requires ElementCases(ts) && !Uniform(ts)
    requires FilterCases(ts, keep, isFloat) == Success((kept, d))
    ensures FlakyGroup(Group(name, ts), keep, isFloat) == Success((Group(name, kept), d))
  {
  }

  /** A single group's outcome is the whole pass's outcome. */
  lemma IgnoreFlakyOne(g: Group, keep: Node -> bool, isFloat: string -> bool, g': Group, d: Counters)
    requires ElementCases(g.tests)
    requires FlakyGroup(g, keep, isFloat) == Success((g', d))
    ensures IgnoreFlaky([g], keep, isFloat) == Success(([g'], d))
  {
    assert [g][1..] == [] && [g][0] == g;
    assert IgnoreFlaky([], keep, isFloat) == Success(([], Zero));
    IgnoreFlakyCons([g], keep, isFloat, g', d, [], Zero);
    assert [g'] + [] == [g'];
    PlusZero(d);
  }

  /** The pass over a list is its first group's outcome followed by the
      pass over the rest. */
  lemma IgnoreFlakyCons(gs: seq<Group>, keep: Node -> bool, isFloat: string -> bool, g': Group, d: Counters,
                        rest: seq<Group>, debit: Counters)
    requires AllElementCases(gs) && |gs| > 0 && AllElementCases(gs[1..])
    requires FlakyGroup(gs[0], keep, isFloat) == Success((g', d))
    requires IgnoreFlaky(gs[1..], keep, isFloat) == Success((rest, debit))
    ensures IgnoreFlaky(gs, keep, isFloat) == Success(([g'] + rest, Plus(d, debit)))
  {
  }

  /** The as-written filter drops a passing attempt that carries whitespace
      text: both attempts of a flaky test vanish while the counters lose
      only the failed one. The intended filter keeps the passing attempt. */
  lemma WhitespacePassDropped(isFloat: string -> bool)
    ensures var gs := [Group(NameOf(WhitespacePass()), [WhitespacePass(), FailedAttempt()])];
            && IgnoreFlaky(gs, KeepAsWritten, isFloat) == Success(([Group(NameOf(WhitespacePass()), [])], Counters(0, 1, 1, 0)))
            && IgnoreFlaky(gs, KeepPassing, isFloat) == Success(([Group(NameOf(WhitespacePass()), [WhitespacePass()])], Counters(0, 1, 1, 0)))
  {
    var p, f := WhitespacePass(), FailedAttempt();
    var name := NameOf(p);
    ExampleClassification();
    ExampleMixed();
    ExampleFilterAsWritten(isFloat);
    FlakyGroupMixed(name, [p, f], KeepAsWritten, isFloat, [], Counters(0, 1, 1, 0));
    IgnoreFlakyOne(Group(name, [p, f]), KeepAsWritten, isFloat, Group(name, []), Counters(0, 1, 1, 0));
    ExampleFilterPassing(isFloat);
    FlakyGroupMixed(name, [p, f], KeepPassing, isFloat, [p], Counters(0, 1, 1, 0));
    IgnoreFlakyOne(Group(name, [p, f]), KeepPassing, isFloat, Group(name, [p]), Counters(0, 1, 1, 0));
  }

  // ---------------------------------------------------------------------
  // Writing back and the whole merge

  /** `_safe_set_attribute` for the five counters: each overwrites its
      attribute only where the suite already has one. The float `time` is
      written as `timeText`. */
  function WriteBack(n: Node, c: Counters, timeText: string): (r: Node)
    requires n.Element?
    ensures r.Element? && r.tag == n.tag && r.children == n.children && r.attrs.Keys == n.attrs.Keys
    ensures "errors" in n.attrs ==> r.attrs["errors"] == IntToString(c.errors)
    ensures "failures" in n.attrs ==> r.attrs["failures"] == IntToString(c.failures)
    ensures "tests" in n.attrs ==> r.attrs["tests"] == IntToString(c.tests)
    ensures "time" in n.attrs ==> r.attrs["time"] == timeText
    ensures "skipped" in n.attrs ==> r.attrs["skipped"] == IntToString(c.skipped)
    ensures forall a :: a in n.attrs && a !in {"errors", "failures", "tests", "time", "skipped"} ==> r.attrs[a] == n.attrs[a]
  {
    var n1 := SetIfPresent(n, "errors", IntToString(c.errors));
    var n2 := SetIfPresent(n1, "failures", IntToString(c.failures));
    var n3 := SetIfPresent(n2, "tests", IntToString(c.tests));
    var n4 := SetIfPresent(n3, "time", timeText);
    SetIfPresent(n4, "skipped", IntToString(c.skipped))
  }

  /** The merged cases are appended to the first suite, group by group,
      then the counters are written back. */
  function Output(suite: Node, c: Counters, gs: seq<Group>, timeText: string): (r: Node)
    requires suite.Element?
    ensures r == WriteBack(suite.(children := suite.children + Flatten(gs)), c, timeText)
    ensures r.Element? && r.tag == suite.tag && r.attrs.Keys == suite.attrs.Keys
    ensures r.children == suite.children + Flatten(gs)
  {
    WriteBack(suite.(children := suite.children + Flatten(gs)), c, timeText)
  }

  /** How the first suite's `skipped` is read: as written, or with the
      same default 0 as every other counter. */
  function FirstSkipped(suite: Node, asWritten: bool): Result<int, Raised>
    requires suite.Element?
  {
    if asWritten then SkippedAsWritten(suite) else IntAttribute(suite, "skipped")
  }

  /** The loop over the other reports, the optional flaky pass and the
      write-back, once the first suite has read as `first`. */
  function MergeInto(suite: Node, first: Counters, files: seq<string>, docs: string -> Option<Node>, isFloat: string -> bool,
                     ignoreFlaky: bool, timeText: string, keep: Node -> bool): (r: Result<Node, Raised>)
    requires suite.Element?
    ensures r.Success? ==> r.value.Element? && r.value.tag == suite.tag && r.value.attrs.Keys == suite.attrs.Keys
    ensures r.Success? ==> |r.value.children| >= |suite.children| && r.value.children[..|suite.children|] == suite.children
    ensures !ignoreFlaky ==> r.Success?
    ensures r.Failure? ==> r.error == ValueError
  {
    var st := MergeFiles(State(first, []), files, docs, isFloat);
    GroupsAreElements(st.groups);
    var flaky := if ignoreFlaky then IgnoreFlaky(st.groups, keep, isFloat) else Success((st.groups, Zero));
    match flaky
    case Failure(e) => Failure(e)
    case Success((gs, debit)) =>
      var out := Output(suite, Minus(st.counters, debit), gs, timeText);
      assert out.children[..|suite.children|] == suite.children;
      Success(out)
  }

  /** The first suite's counters; the first exception raised while reading
      them ends the merge. */
  function FirstCounters(suite: Node, isFloat: string -> bool, asWritten: bool): (r: Result<Counters, Raised>)
    requires suite.Element?
    ensures r.Success? <==> Readable(suite, isFloat, FirstSkipped(suite, asWritten))
    ensures r.Success? ==> r.value == Counts(suite, isFloat, FirstSkipped(suite, asWritten))
  {
    var (first, raised) := ReadSuite(Zero, suite, isFloat, FirstSkipped(suite, asWritten));
    if raised.Some? then Failure(raised.value)
    else
      PlusZero(Counts(suite, isFloat, FirstSkipped(suite, asWritten)));
      Success(first)
  }

  function KeepRule(asWritten: bool): Node -> bool {
    if asWritten then KeepAsWritten else KeepPassing
  }

  /** The merge once the first report's root is the element `suite`: its
      counters must all read, with `skipped` read as `asWritten` says. */
  function MergeSuite(suite: Node, inFiles: seq<string>, docs: string -> Option<Node>, isFloat: string -> bool,
                      ignoreFlaky: bool, timeText: string, asWritten: bool): (r: Result<Node, Raised>)
    requires suite.Element? && |inFiles| > 0
    ensures !Readable(suite, isFloat, FirstSkipped(suite, asWritten)) ==> r.Failure?
    ensures r.Success? ==> r.value.Element? && r.value.tag == suite.tag && r.value.attrs.Keys == suite.attrs.Keys
    ensures r.Success? ==> |r.value.children| >= |suite.children| && r.value.children[..|suite.children|] == suite.children
  {
    match FirstCounters(suite, isFloat, asWritten)
    case Failure(e) => Failure(e)
    case Success(first) => MergeInto(suite, first, ToMerge(inFiles), docs, isFloat, ignoreFlaky, timeText, KeepRule(asWritten))
  }

  /** `merge_xunit(in_files, out_file, ignore_flaky)`, returning the merged
      root instead of writing it (`None` for an empty list). The first
      report must parse and have an element root; the other reports may
      fail on their own. `asWritten` selects the source's `skipped` reading
      and flaky filter; `false` selects the intended ones. */
  function MergeWith(inFiles: seq<string>, docs: string -> Option<Node>, isFloat: string -> bool,
                     ignoreFlaky: bool, timeText: string, asWritten: bool): (r: Result<Option<Node>, Raised>)
    ensures |inFiles| == 0 ==> r == Success(None)
    ensures |inFiles| > 0 && docs(inFiles[0]).None? ==> r == Failure(ParseError)
    ensures |inFiles| > 0 && docs(inFiles[0]).Some? && docs(inFiles[0]).value.Text? ==> r == Failure(AttributeError)
    ensures r.Success? && |inFiles| > 0 ==> r.value.Some? && docs(inFiles[0]).Some? && docs(inFiles[0]).value.Element?
  {
    if |inFiles| == 0 then Success(None)
    else match docs(inFiles[0])
      case None => Failure(ParseError)
      case Some(suite) =>
        if suite.Text? then Failure(AttributeError)
        else
          match MergeSuite(suite, inFiles, docs, isFloat, ignoreFlaky, timeText, asWritten)
          case Failure(e) => Failure(e)
          case Success(out) => Success(Some(out))
  }

  /** The merge with the intended `skipped` default and flaky filter. */
  function Merge(inFiles: seq<string>, docs: string -> Option<Node>, isFloat: string -> bool,
                 ignoreFlaky: bool, timeText: string): (r: Result<Option<Node>, Raised>)
    ensures |inFiles| == 0 ==> r == Success(None)
    ensures |inFiles| > 0 && docs(inFiles[0]).Some? && docs(inFiles[0]).value.Element? ==>
              r == (match MergeSuite(docs(inFiles[0]).value, inFiles, docs, isFloat, ignoreFlaky, timeText, false)
                    case Failure(e) => Failure(e)
                    case Success(out) => Success(Some(out)))
  {
    MergeWith(inFiles, docs, isFloat, ignoreFlaky, timeText, false)
  }

  /** Without `ignore_flaky` nothing is dropped: the suite receives the
      loop's counters and every grouped case. */
  lemma MergeIntoPlain(suite: Node, first: Counters, files: seq<string>, docs: string -> Option<Node>, isFloat: string -> bool,
                       timeText: string, keep: Node -> bool)
    requires suite.Element?
    ensures var st := MergeFiles(State(first, []), files, docs, isFloat);
            MergeInto(suite, first, files, docs, isFloat, false, timeText, keep) == Success(Output(suite, st.counters, st.groups, timeText))
  {
    var st := MergeFiles(State(first, []), files, docs, isFloat);
    assert Minus(st.counters, Zero) == st.counters;
  }

  /** Every report parses and reads completely. */
  predicate AllReports(inFiles: seq<string>, docs: string -> Option<Node>, isFloat: string -> bool) {
    && |inFiles| > 0 && docs(inFiles[0]).Some? && docs(inFiles[0]).value.Element?
    && Readable(docs(inFiles[0]).value, isFloat, IntAttribute(docs(inFiles[0]).value, "skipped"))
    && AllReadable(ToMerge(inFiles), docs, isFloat)
  }

  /** The counters every report contributes, first one included. */
  function Total(inFiles: seq<string>, docs: string -> Option<Node>, isFloat: string -> bool): Counters
    requires AllReports(inFiles, docs, isFloat)
  {
    var suite := docs(inFiles[0]).value;
    Plus(Counts(suite, isFloat, IntAttribute(suite, "skipped")), SumCounts(ToMerge(inFiles), docs, isFloat))
  }

  /** The first suite written back after the loop, with nothing dropped. */
  function Merged(inFiles: seq<string>, docs: string -> Option<Node>, isFloat: string -> bool, timeText: string): Node
    requires AllReports(inFiles, docs, isFloat)
  {
    var suite := docs(inFiles[0]).value;
    var st := MergeFiles(State(Counts(suite, isFloat, IntAttribute(suite, "skipped")), []), ToMerge(inFiles), docs, isFloat);
    Output(suite, st.counters, st.groups, timeText)
  }

  lemma MergeIsMerged(inFiles: seq<string>, docs: string -> Option<Node>, isFloat: string -> bool, timeText: string)
    requires AllReports(inFiles, docs, isFloat)
    ensures Merge(inFiles, docs, isFloat, false, timeText) == Success(Some(Merged(inFiles, docs, isFloat, timeText)))
  {
    var suite := docs(inFiles[0]).value;
    var first := Counts(suite, isFloat, IntAttribute(suite, "skipped"));
    assert FirstCounters(suite, isFloat, false) == Success(first);
    MergeIntoPlain(suite, first, ToMerge(inFiles), docs, isFloat, timeText, KeepRule(false));
  }

  /** Without `ignore_flaky`, when every report reads, each counter the
      first suite carries becomes the sum over the first report and every
      other report. */
  lemma MergeSums(inFiles: seq<string>, docs: string -> Option<Node>, isFloat: string -> bool, timeText: string)
    requires AllReports(inFiles, docs, isFloat)
    ensures Merge(inFiles, docs, isFloat, false, timeText) == Success(Some(Merged(inFiles, docs, isFloat, timeText)))
    ensures var suite := docs(inFiles[0]).value;
            var out := Merged(inFiles, docs, isFloat, timeText);
            var total := Total(inFiles, docs, isFloat);
            && out.Element? && out.attrs.Keys == suite.attrs.Keys
            && ("errors" in suite.attrs ==> out.attrs["errors"] == IntToString(total.errors))
            && ("failures" in suite.attrs ==> out.attrs["failures"] == IntToString(total.failures))
            && ("tests" in suite.attrs ==> out.attrs["tests"] == IntToString(total.tests))
            && ("skipped" in suite.attrs ==> out.attrs["skipped"] == IntToString(total.skipped))
  {
    var suite := docs(inFiles[0]).value;
    MergeIsMerged(inFiles, docs, isFloat, timeText);
    MergeFilesSums(State(Counts(suite, isFloat, IntAttribute(suite, "skipped")), []), ToMerge(inFiles), docs, isFloat);
  }

  /** Without `ignore_flaky`, when every report reads, the first suite keeps
      its children and gains exactly the other reports' cases. */
  lemma MergeCollectsCases(inFiles: seq<string>, docs: string -> Option<Node>, isFloat: string -> bool, timeText: string)
    requires AllReports(inFiles, docs, isFloat)
    ensures Merge(inFiles, docs, isFloat, false, timeText) == Success(Some(Merged(inFiles, docs, isFloat, timeText)))
    ensures multiset(Merged(inFiles, docs, isFloat, timeText).children) ==
              multiset(docs(inFiles[0]).value.children) + multiset(AllCases(ToMerge(inFiles), docs))
  {
    var suite := docs(inFiles[0]).value;
    var st0 := State(Counts(suite, isFloat, IntAttribute(suite, "skipped")), []);
    var st := MergeFiles(st0, ToMerge(inFiles), docs, isFloat);
    MergeIsMerged(inFiles, docs, isFloat, timeText);
    MergeFilesCases(st0, ToMerge(inFiles), docs, isFloat);
    assert Flatten(st0.groups) == [];
    OutputCases(suite, st.counters, st.groups, timeText, AllCases(ToMerge(inFiles), docs));
  }

  lemma OutputCases(suite: Node, c: Counters, gs: seq<Group>, timeText: string, cases: seq<Node>)
    requires suite.Element? && multiset(Flatten(gs)) == multiset([]) + multiset(cases)
    ensures multiset(Output(suite, c, gs, timeText).children) == multiset(suite.children) + multiset(cases)
  {
    assert multiset([]) + multiset(cases) == multiset(cases);
  }

  /** A written counter reads back as the number it was set to. */
  lemma WrittenCounterReads(suite: Node, c: Counters, gs: seq<Group>, timeText: string, a: string)
    requires suite.Element? && a in suite.attrs && a in {"errors", "failures", "tests", "skipped"}
    ensures var out := Output(suite, c, gs, timeText);
            IntAttribute(out, a) == Success(if a == "errors" then c.errors else if a == "failures" then c.failures
                                            else if a == "tests" then c.tests else c.skipped)
  {
    ParseIntOfIntToString(c.errors);
    ParseIntOfIntToString(c.failures);
    ParseIntOfIntToString(c.tests);
    ParseIntOfIntToString(c.skipped);
  }

  /** As written, a first report that reads except for a missing `skipped`
      attribute ends the merge with `TypeError`; with the default 0 it
      contributes no skipped tests and the merge goes on. */
  lemma MissingSkippedRaises(inFiles: seq<string>, docs: string -> Option<Node>, isFloat: string -> bool, ignoreFlaky: bool, timeText: string)
    requires |inFiles| > 0 && docs(inFiles[0]).Some? && docs(inFiles[0]).value.Element?
    requires "skipped" !in docs(inFiles[0]).value.attrs
    requires Readable(docs(inFiles[0]).value, isFloat, Success(0))
    ensures MergeWith(inFiles, docs, isFloat, ignoreFlaky, timeText, true) == Failure(TypeError)
    ensures FirstCounters(docs(inFiles[0]).value, isFloat, false).Success?
    ensures FirstCounters(docs(inFiles[0]).value, isFloat, false).value.skipped == 0
    ensures !ignoreFlaky ==> Merge(inFiles, docs, isFloat, ignoreFlaky, timeText).Success?
  {
    var suite := docs(inFiles[0]).value;
    assert FirstSkipped(suite, true) == Failure(TypeError);
    assert ReadSuite(Zero, suite, isFloat, Failure(TypeError)).1 == Some(TypeError);
  }
}
