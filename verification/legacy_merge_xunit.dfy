/** The legacy package's `merge_xunit`: the same counter sums as the later
    version, but every attribute is required (an absent one raises) and the
    other reports' cases are appended to the first suite in file order,
    with no grouping and no flaky filter. */
module LegacyMergeXunit {
  import opened Wrappers
  import opened Strings
  import opened Xml
  import MergeXunit
  import Seqs

  type Counters = MergeXunit.Counters
  type Raised = MergeXunit.Raised

  /** `int(_safe_attribute(n, a))`: an absent attribute gives `int(None)`,
      which raises `TypeError`. */
  function RequiredInt(n: Node, a: string): (r: Result<int, Raised>)
    requires n.Element?
    ensures a !in n.attrs ==> r == Failure(MergeXunit.TypeError)
    ensures a in n.attrs ==> r == MergeXunit.IntAttribute(n, a)
  {
    if a in n.attrs then MergeXunit.IntAttribute(n, a) else Failure(MergeXunit.TypeError)
  }

  /** `float(_safe_attribute(n, 'time').replace(',', ''))`: an absent
      attribute raises `AttributeError` (`None` has no `replace`). */
  function RequiredTime(n: Node, isFloat: string -> bool): (r: Option<Raised>)
    requires n.Element?
    ensures r.None? <==> "time" in n.attrs && isFloat(n.attrs["time"])
    ensures "time" !in n.attrs ==> r == Some(MergeXunit.AttributeError)
  {
    if "time" !in n.attrs then Some(MergeXunit.AttributeError)
    else if isFloat(n.attrs["time"]) then None
    else Some(MergeXunit.ValueError)
  }

  /** A suite all five of whose counters are present and read. */
  predicate Readable(n: Node, isFloat: string -> bool)
    requires n.Element?
  {
    && RequiredInt(n, "errors").Success? && RequiredInt(n, "failures").Success? && RequiredInt(n, "tests").Success?
    && RequiredTime(n, isFloat).None? && RequiredInt(n, "skipped").Success?
  }

  function Counts(n: Node, isFloat: string -> bool): Counters
    requires n.Element? && Readable(n, isFloat)
  {
    MergeXunit.Counters(RequiredInt(n, "errors").value, RequiredInt(n, "failures").value,
                        RequiredInt(n, "tests").value, RequiredInt(n, "skipped").value)
  }

  /** The five `+=` lines in order; the first that raises stops the file
      with what was added before it kept. */
  function ReadSuite(c: Counters, n: Node, isFloat: string -> bool): (r: (Counters, Option<Raised>))
    requires n.Element?
    ensures r.1.None? <==> Readable(n, isFloat)
    ensures r.1.None? ==> r.0 == MergeXunit.Plus(c, Counts(n, isFloat))
    ensures r.1.Some? ==> r.0.skipped == c.skipped
  {
    match RequiredInt(n, "errors")
    case Failure(e) => (c, Some(e))
    case Success(errors) =>
      var c1 := c.(errors := c.errors + errors);
      match RequiredInt(n, "failures")
      case Failure(e) => (c1, Some(e))
      case Success(failures) =>
        var c2 := c1.(failures := c1.failures + failures);
        match RequiredInt(n, "tests")
        case Failure(e) => (c2, Some(e))
        case Success(tests) =>
          var c3 := c2.(tests := c2.tests + tests);
          match RequiredTime(n, isFloat)
          case Some(e) => (c3, Some(e))
          case None =>
            match RequiredInt(n, "skipped")
            case Failure(e) => (c3, Some(e))
            case Success(skipped) => (c3.(skipped := c3.skipped + skipped), None)
  }

  datatype State = State(counters: Counters, cases: seq<Node>)

  /** One iteration of the loop: a report that does not parse or whose root
      is not an element changes nothing; one whose counters stop partway
      keeps the counters read so far and adds no case; otherwise its cases
      are appended. */
  function MergeFile(st: State, doc: Option<Node>, isFloat: string -> bool): (r: State)
    ensures doc.None? || doc.value.Text? ==> r == st
    ensures doc.Some? && doc.value.Element? && Readable(doc.value, isFloat) ==>
              r == State(MergeXunit.Plus(st.counters, Counts(doc.value, isFloat)), st.cases + ElementsByTag(doc.value, "testcase"))
    ensures doc.Some? && doc.value.Element? && !Readable(doc.value, isFloat) ==> r.cases == st.cases
  {
    match doc
    case None => st
    case Some(suite) =>
      if suite.Text? then st
      else
        var (c, raised) := ReadSuite(st.counters, suite, isFloat);
        if raised.Some? then State(c, st.cases)
        else State(c, st.cases + ElementsByTag(suite, "testcase"))
  }

  function MergeFiles(st: State, files: seq<string>, docs: string -> Option<Node>, isFloat: string -> bool): (r: State)
    ensures |r.cases| >= |st.cases| && r.cases[..|st.cases|] == st.cases
    decreases |files|
  {
    if |files| == 0 then st
    else
      var st1 := MergeFile(st, docs(files[0]), isFloat);
      var r := MergeFiles(st1, files[1..], docs, isFloat);
      assert r.cases[..|st.cases|] == r.cases[..|st1.cases|][..|st.cases|];
      r
  }

  /** Every report reads completely. */
  predicate AllReadable(files: seq<string>, docs: string -> Option<Node>, isFloat: string -> bool) {
    forall i :: 0 <= i < |files| ==>
      docs(files[i]).Some? && docs(files[i]).value.Element? && Readable(docs(files[i]).value, isFloat)
  }

  lemma AllReadableTail(files: seq<string>, docs: string -> Option<Node>, isFloat: string -> bool)
    requires |files| > 0 && AllReadable(files, docs, isFloat)
    ensures AllReadable(files[1..], docs, isFloat)
  {
    assert forall i :: 1 <= i < |files| ==> files[i] == files[1..][i - 1];
  }

  /** A suite the legacy code reads completely is one the later code reads
      to the same counters. */
  lemma ReadableAgrees(n: Node, isFloat: string -> bool)
    requires n.Element? && Readable(n, isFloat)
    ensures MergeXunit.Readable(n, isFloat, MergeXunit.IntAttribute(n, "skipped"))
    ensures MergeXunit.Counts(n, isFloat, MergeXunit.IntAttribute(n, "skipped")) == Counts(n, isFloat)
  {
  }

  lemma AllReadableAgrees(files: seq<string>, docs: string -> Option<Node>, isFloat: string -> bool)
    requires AllReadable(files, docs, isFloat)
    ensures MergeXunit.AllReadable(files, docs, isFloat)
  {
    forall i | 0 <= i < |files|
      ensures docs(files[i]).Some? && docs(files[i]).value.Element?
      ensures MergeXunit.Readable(docs(files[i]).value, isFloat, MergeXunit.IntAttribute(docs(files[i]).value, "skipped"))
    {
      ReadableAgrees(docs(files[i]).value, isFloat);
    }
  }

  /** When every report reads, the loop sums their counters (the same sums
      as the later code) and appends all their cases in file order. */
  lemma {:induction false} MergeFilesSums(st: State, files: seq<string>, docs: string -> Option<Node>, isFloat: string -> bool)
    requires AllReadable(files, docs, isFloat)
    ensures MergeXunit.AllReadable(files, docs, isFloat)
    ensures MergeFiles(st, files, docs, isFloat) ==
              State(MergeXunit.Plus(st.counters, MergeXunit.SumCounts(files, docs, isFloat)), st.cases + MergeXunit.AllCases(files, docs))
    decreases |files|
  {
    AllReadableAgrees(files, docs, isFloat);
    if |files| == 0 {
      assert st.cases + [] == st.cases;
      MergeXunit.PlusZero(st.counters);
    } else {
      AllReadableTail(files, docs, isFloat);
      var st1 := MergeFile(st, docs(files[0]), isFloat);
      MergeFilesSums(st1, files[1..], docs, isFloat);
      MergeFilesSumsStep(st, files, docs, isFloat);
    }
  }

  /** One report of the loop: its counters and cases join the running
      state in the same way they join the sums. */
  lemma MergeFilesSumsStep(st: State, files: seq<string>, docs: string -> Option<Node>, isFloat: string -> bool)
    requires |files| > 0 && AllReadable(files, docs, isFloat)
    requires MergeXunit.AllReadable(files, docs, isFloat) && MergeXunit.AllReadable(files[1..], docs, isFloat)
    ensures var st1 := MergeFile(st, docs(files[0]), isFloat);
            && MergeFiles(st, files, docs, isFloat) == MergeFiles(st1, files[1..], docs, isFloat)
            && MergeXunit.Plus(st1.counters, MergeXunit.SumCounts(files[1..], docs, isFloat))
               == MergeXunit.Plus(st.counters, MergeXunit.SumCounts(files, docs, isFloat))
            && st1.cases + MergeXunit.AllCases(files[1..], docs) == st.cases + MergeXunit.AllCases(files, docs)
  {
    CountersStep(st, files, docs, isFloat);
    CasesStep(st, files, docs, isFloat);
  }

  lemma CountersStep(st: State, files: seq<string>, docs: string -> Option<Node>, isFloat: string -> bool)
    requires |files| > 0 && AllReadable(files, docs, isFloat)
    requires MergeXunit.AllReadable(files, docs, isFloat) && MergeXunit.AllReadable(files[1..], docs, isFloat)
    ensures var st1 := MergeFile(st, docs(files[0]), isFloat);
            MergeXunit.Plus(st1.counters, MergeXunit.SumCounts(files[1..], docs, isFloat))
            == MergeXunit.Plus(st.counters, MergeXunit.SumCounts(files, docs, isFloat))
  {
    var n := docs(files[0]).value;
    ReadableAgrees(n, isFloat);
    MergeXunit.MergeFilesStep(MergeXunit.State(st.counters, []), files, docs, isFloat);
    MergeXunit.PlusAssoc(st.counters, Counts(n, isFloat), MergeXunit.SumCounts(files[1..], docs, isFloat));
  }

  lemma CasesStep(st: State, files: seq<string>, docs: string -> Option<Node>, isFloat: string -> bool)
    requires |files| > 0 && AllReadable(files, docs, isFloat)
    ensures var st1 := MergeFile(st, docs(files[0]), isFloat);
            st1.cases + MergeXunit.AllCases(files[1..], docs) == st.cases + MergeXunit.AllCases(files, docs)
  {
    var n := docs(files[0]).value;
    var tc := ElementsByTag(n, "testcase");
    var restCases := MergeXunit.AllCases(files[1..], docs);
    assert MergeFile(st, docs(files[0]), isFloat).cases == st.cases + tc;
    assert MergeXunit.AllCases(files, docs) == tc + restCases;
    Seqs.AppendAssoc(st.cases, tc, restCases);
  }

  /** `merge_xunit(in_files, out_file)`, returning the merged root (`None`
      for an empty list). The first report must parse, have an element root
      and carry all five counters. */
  function Merge(inFiles: seq<string>, docs: string -> Option<Node>, isFloat: string -> bool, timeText: string): (r: Result<Option<Node>, Raised>)
    ensures |inFiles| == 0 ==> r == Success(None)
    ensures |inFiles| > 0 && docs(inFiles[0]).None? ==> r == Failure(MergeXunit.ParseError)
    ensures |inFiles| > 0 && docs(inFiles[0]).Some? && docs(inFiles[0]).value.Text? ==> r == Failure(MergeXunit.AttributeError)
    ensures (|inFiles| > 0 && docs(inFiles[0]).Some? && docs(inFiles[0]).value.Element? && !Readable(docs(inFiles[0]).value, isFloat)) ==>
              r.Failure?
    ensures |inFiles| > 0 && r.Success? ==>
              var suite := docs(inFiles[0]).value;
              && suite.Element? && r.value.Some? && r.value.value.Element? && r.value.value.attrs.Keys == suite.attrs.Keys
              && |r.value.value.children| >= |suite.children| && r.value.value.children[..|suite.children|] == suite.children
  {
    if |inFiles| == 0 then Success(None)
    else match docs(inFiles[0])
      case None => Failure(MergeXunit.ParseError)
      case Some(suite) =>
        if suite.Text? then Failure(MergeXunit.AttributeError)
        else
          var (first, raised) := ReadSuite(MergeXunit.Zero, suite, isFloat);
          if raised.Some? then Failure(raised.value)
          else
            var st := MergeFiles(State(first, suite.children), MergeXunit.ToMerge(inFiles), docs, isFloat);
            Success(Some(MergeXunit.WriteBack(suite.(children := st.cases), st.counters, timeText)))
  }

  /** When every report reads, the legacy merge writes the total counters
      back and appends every other report's cases in file order. */
  lemma MergeAllReadable(inFiles: seq<string>, docs: string -> Option<Node>, isFloat: string -> bool, timeText: string)
    requires |inFiles| > 0 && docs(inFiles[0]).Some? && docs(inFiles[0]).value.Element?
    requires Readable(docs(inFiles[0]).value, isFloat)
    requires AllReadable(MergeXunit.ToMerge(inFiles), docs, isFloat)
    ensures MergeXunit.AllReports(inFiles, docs, isFloat)
    ensures var suite := docs(inFiles[0]).value;
            Merge(inFiles, docs, isFloat, timeText) ==
              Success(Some(MergeXunit.WriteBack(suite.(children := suite.children + MergeXunit.AllCases(MergeXunit.ToMerge(inFiles), docs)),
                                                MergeXunit.Total(inFiles, docs, isFloat), timeText)))
  {
    var suite := docs(inFiles[0]).value;
    var files := MergeXunit.ToMerge(inFiles);
    ReadableAgrees(suite, isFloat);
    MergeXunit.PlusZero(Counts(suite, isFloat));
    MergeFilesSums(State(Counts(suite, isFloat), suite.children), files, docs, isFloat);
  }

  /** The later code's merge of the same reports, without `ignore_flaky`,
      written out the same way (its cases come group by group). */
  lemma LaterMergeAllReadable(inFiles: seq<string>, docs: string -> Option<Node>, isFloat: string -> bool, timeText: string)
    requires MergeXunit.AllReports(inFiles, docs, isFloat)
    ensures var suite := docs(inFiles[0]).value;
            var st := MergeXunit.MergeFiles(MergeXunit.State(MergeXunit.Counts(suite, isFloat, MergeXunit.IntAttribute(suite, "skipped")), []),
                                            MergeXunit.ToMerge(inFiles), docs, isFloat);
            MergeXunit.Merged(inFiles, docs, isFloat, timeText) ==
              MergeXunit.WriteBack(suite.(children := suite.children + MergeXunit.Flatten(st.groups)), MergeXunit.Total(inFiles, docs, isFloat), timeText)
  {
    var suite := docs(inFiles[0]).value;
    MergeXunit.MergeFilesSums(MergeXunit.State(MergeXunit.Counts(suite, isFloat, MergeXunit.IntAttribute(suite, "skipped")), []),
                              MergeXunit.ToMerge(inFiles), docs, isFloat);
  }

  /** Writing back depends only on the attributes, not on the children. */
  lemma WriteBackAttrs(n: Node, m: Node, c: Counters, timeText: string)
    requires n.Element? && m.Element? && n.attrs == m.attrs
    ensures MergeXunit.WriteBack(n, c, timeText).attrs == MergeXunit.WriteBack(m, c, timeText).attrs
  {
  }

  /** When every report carries all five counters and they read, the legacy
      merge and the later one (without `ignore_flaky`) write the same
      attributes and the same cases; only the order of the appended cases
      differs (file order against grouped order). */
  lemma LegacyAgrees(inFiles: seq<string>, docs: string -> Option<Node>, isFloat: string -> bool, timeText: string)
    requires |inFiles| > 0 && docs(inFiles[0]).Some? && docs(inFiles[0]).value.Element?
    requires Readable(docs(inFiles[0]).value, isFloat)
    requires AllReadable(MergeXunit.ToMerge(inFiles), docs, isFloat)
    ensures MergeXunit.AllReports(inFiles, docs, isFloat)
    ensures Merge(inFiles, docs, isFloat, timeText).Success? && Merge(inFiles, docs, isFloat, timeText).value.Some?
    ensures MergeXunit.Merge(inFiles, docs, isFloat, false, timeText) == Success(Some(MergeXunit.Merged(inFiles, docs, isFloat, timeText)))
    ensures var legacy := Merge(inFiles, docs, isFloat, timeText).value.value;
            var later := MergeXunit.Merged(inFiles, docs, isFloat, timeText);
            && legacy.attrs == later.attrs
            && multiset(legacy.children) == multiset(later.children)
  {
    var suite := docs(inFiles[0]).value;
    var files := MergeXunit.ToMerge(inFiles);
    var cases := MergeXunit.AllCases(files, docs);
    MergeAllReadable(inFiles, docs, isFloat, timeText);
    LaterMergeAllReadable(inFiles, docs, isFloat, timeText);
    MergeXunit.MergeCollectsCases(inFiles, docs, isFloat, timeText);
    var st := MergeXunit.MergeFiles(MergeXunit.State(MergeXunit.Counts(suite, isFloat, MergeXunit.IntAttribute(suite, "skipped")), []), files, docs, isFloat);
    var total := MergeXunit.Total(inFiles, docs, isFloat);
    WriteBackAttrs(suite.(children := suite.children + cases), suite.(children := suite.children + MergeXunit.Flatten(st.groups)), total, timeText);
  }

  /** A later report that lacks only `skipped` still has its other counters
      added, but none of its cases; the later code adds it whole with a
      skipped count of 0. */
  lemma MissingSkippedPartial(st: State, gst: MergeXunit.State, n: Node, isFloat: string -> bool)
    requires n.Element? && "skipped" !in n.attrs
    requires RequiredInt(n, "errors").Success? && RequiredInt(n, "failures").Success? && RequiredInt(n, "tests").Success?
    requires RequiredTime(n, isFloat).None?
    ensures var r := MergeFile(st, Some(n), isFloat);
            && r.cases == st.cases
            && r.counters == MergeXunit.Counters(st.counters.errors + MergeXunit.IntAttribute(n, "errors").value,
                                                st.counters.failures + MergeXunit.IntAttribute(n, "failures").value,
                                                st.counters.tests + MergeXunit.IntAttribute(n, "tests").value,
                                                st.counters.skipped)
    ensures var g := MergeXunit.MergeFile(gst, Some(n), isFloat);
            && MergeXunit.Readable(n, isFloat, MergeXunit.IntAttribute(n, "skipped"))
            && g.counters.skipped == gst.counters.skipped
            && multiset(MergeXunit.Flatten(g.groups)) == multiset(MergeXunit.Flatten(gst.groups)) + multiset(ElementsByTag(n, "testcase"))
  {
    MissingSkippedLegacy(st, n, isFloat);
    MissingSkippedLater(gst, n, isFloat);
  }

  lemma MissingSkippedLegacy(st: State, n: Node, isFloat: string -> bool)
    requires n.Element? && "skipped" !in n.attrs
    requires RequiredInt(n, "errors").Success? && RequiredInt(n, "failures").Success? && RequiredInt(n, "tests").Success?
    requires RequiredTime(n, isFloat).None?
    ensures var r := MergeFile(st, Some(n), isFloat);
            && r.cases == st.cases
            && r.counters == MergeXunit.Counters(st.counters.errors + MergeXunit.IntAttribute(n, "errors").value,
                                                st.counters.failures + MergeXunit.IntAttribute(n, "failures").value,
                                                st.counters.tests + MergeXunit.IntAttribute(n, "tests").value,
                                                st.counters.skipped)
  {
  }

  lemma MissingSkippedLater(gst: MergeXunit.State, n: Node, isFloat: string -> bool)
    requires n.Element? && "skipped" !in n.attrs
    requires RequiredInt(n, "errors").Success? && RequiredInt(n, "failures").Success? && RequiredInt(n, "tests").Success?
    requires RequiredTime(n, isFloat).None?
    ensures var g := MergeXunit.MergeFile(gst, Some(n), isFloat);
            && MergeXunit.Readable(n, isFloat, MergeXunit.IntAttribute(n, "skipped"))
            && g.counters.skipped == gst.counters.skipped
            && multiset(MergeXunit.Flatten(g.groups)) == multiset(MergeXunit.Flatten(gst.groups)) + multiset(ElementsByTag(n, "testcase"))
  {
  }
}
