/** Pulling the failure summary of one test out of a JUnit XML report, and
    the two line-consuming helpers of the same file. A regular-expression
    match iterator is modelled as the sequence of lines it still yields,
    and a regular expression as a predicate on lines. */
module FailureSummary {
  import opened Wrappers
  import opened Strings
  import opened Xml
  import Seqs

  // ---------------------------------------------------------------------
  // Consuming lines

  /** `consume_rest`: every remaining line, in order; nothing is left. */
  function ConsumeRest(lines: seq<string>): (r: (seq<string>, seq<string>))
    ensures r.0 + r.1 == lines && |r.1| == 0
  {
    (lines, [])
  }

  /** `consume_until`: the lines before the first one `endRe` matches; that
      line is consumed and dropped. Without a match every line is taken. */
  function ConsumeUntil(lines: seq<string>, endRe: string -> bool): (r: (seq<string>, seq<string>))
    ensures |r.0| <= |lines| && r.0 == lines[..|r.0|]
    ensures forall i :: 0 <= i < |r.0| ==> !endRe(r.0[i])
    ensures |r.0| < |lines| ==> endRe(lines[|r.0|]) && r.1 == lines[|r.0| + 1..]
    ensures |r.0| == |lines| ==> r.1 == []
  {
    if |lines| == 0 then ([], [])
    else if endRe(lines[0]) then ([], lines[1..])
    else
      var (taken, rest) := ConsumeUntil(lines[1..], endRe);
      ([lines[0]] + taken, rest)
  }

  /** What `consume_until` takes, the matching line and what it leaves make
      up the input; without a match it takes everything. */
  lemma ConsumeUntilSplits(lines: seq<string>, endRe: string -> bool)
    ensures var r := ConsumeUntil(lines, endRe);
            (exists i :: 0 <= i < |lines| && endRe(lines[i])) ==> |r.0| < |lines| && r.0 + [lines[|r.0|]] + r.1 == lines
    ensures var r := ConsumeUntil(lines, endRe);
            (forall i :: 0 <= i < |lines| ==> !endRe(lines[i])) ==> r.0 == lines && r.1 == []
  {
    var r := ConsumeUntil(lines, endRe);
    var n := |r.0|;
    if i :| 0 <= i < |lines| && endRe(lines[i]) {
      assert n < |lines|;
      assert lines == lines[..n] + [lines[n]] + lines[n + 1..];
    }
    if n < |lines| {
      assert endRe(lines[n]);
    }
  }

  // ---------------------------------------------------------------------
  // The failure summary

  /** `(msg, st, stdout, stderr)`, each possibly `None`. */
  datatype Summary = Summary(msg: Option<string>, st: Option<string>, stdout: Option<string>, stderr: Option<string>)

  const NoSummary := Summary(None, None, None, None)

  datatype Error = ParseError | ValueError

  /** `x = case.find(tag); if x is not None: x = x.text`. */
  function ChildText(c: Node, tag: string): Option<string>
    requires c.Element?
  {
    match FindChild(c, tag)
    case None => None
    case Some(x) => LeadingText(x)
  }

  /** `case.get('name') == case_name`. */
  function Matches(caseName: string): Node -> bool {
    (c: Node) => c.Element? && Attribute(c, "name") == Some(caseName)
  }

  /** A matching case that carries an `<error>` or a `<failure>`. */
  function Reports(caseName: string): Node -> bool {
    (c: Node) => Matches(caseName)(c) && (FindChild(c, "error").Some? || FindChild(c, "failure").Some?)
  }

  /** The message and stack trace a reporting case gives: its `<failure>`
      (the `type` attribute and the text) when it has one, else its
      `<error>` (the `message` attribute and the text). */
  function Outcome(c: Node): (Option<string>, Option<string>)
    requires c.Element?
  {
    match FindChild(c, "failure")
    case Some(f) => (Attribute(f, "type"), LeadingText(f))
    case None =>
      match FindChild(c, "error")
      case Some(e) => (Attribute(e, "message"), LeadingText(e))
      case None => (None, None)
  }

  /** One pass of the loop body. */
  function Visit(s: Summary, c: Node, caseName: string): (r: Summary)
    ensures !Matches(caseName)(c) ==> r == s
    ensures Matches(caseName)(c) ==> r.stdout == ChildText(c, "system-out") && r.stderr == ChildText(c, "system-err")
    ensures Reports(caseName)(c) ==> (r.msg, r.st) == Outcome(c)
    ensures !Reports(caseName)(c) ==> r.msg == s.msg && r.st == s.st
  {
    if !Matches(caseName)(c) then s
    else
      var err := FindChild(c, "error");
      var (msg1, st1) := if err.Some? then (Attribute(err.value, "message"), LeadingText(err.value)) else (s.msg, s.st);
      var fail := FindChild(c, "failure");
      var (msg2, st2) := if fail.Some? then (Attribute(fail.value, "type"), LeadingText(fail.value)) else (msg1, st1);
      Summary(msg2, st2, ChildText(c, "system-out"), ChildText(c, "system-err"))
  }

  /** The loop over the suite's cases in document order. */
  function VisitAll(s: Summary, cases: seq<Node>, caseName: string): Summary
    decreases |cases|
  {
    if |cases| == 0 then s
    else Visit(VisitAll(s, cases[..|cases| - 1], caseName), cases[|cases| - 1], caseName)
  }

  /** The loop's result, stated without the loop: `stdout` and `stderr`
      come from the last matching case, the message and stack trace from
      the last matching case that has an error or a failure, and whatever
      no case provides keeps its starting value. */
  lemma {:induction false} VisitAllLast(s: Summary, cases: seq<Node>, caseName: string)
    ensures var r := VisitAll(s, cases, caseName);
            var k := Seqs.LastIndex(cases, Matches(caseName));
            var j := Seqs.LastIndex(cases, Reports(caseName));
            && (k < 0 ==> r.stdout == s.stdout && r.stderr == s.stderr)
            && (k >= 0 ==> cases[k].Element? && r.stdout == ChildText(cases[k], "system-out") && r.stderr == ChildText(cases[k], "system-err"))
            && (j < 0 ==> r.msg == s.msg && r.st == s.st)
            && (j >= 0 ==> cases[j].Element? && (r.msg, r.st) == Outcome(cases[j]))
    decreases |cases|
  {
    if |cases| > 0 {
      var init := cases[..|cases| - 1];
      VisitAllLast(s, init, caseName);
      assert cases == init + [cases[|cases| - 1]];
    }
  }

  /** `extract_failure_summary(log_text, name)`, with the parsed report in
      place of its text (`None` when it does not parse; the parser always
      yields an element root). */
  function Extract(doc: Option<Node>, name: string): (r: Result<Summary, Error>)
    requires doc.Some? ==> doc.value.Element?
    ensures doc.None? ==> r == Failure(ParseError)
    ensures doc.Some? && |Split(name, '#')| != 2 ==> r == Failure(ValueError)
    ensures doc.Some? && |Split(name, '#')| == 2 ==> r.Success?
    ensures r.Success? ==> r.value == VisitAll(NoSummary, SuiteCases(doc.value), Split(name, '#')[1])
  {
    match doc
    case None => Failure(ParseError)
    case Some(root) =>
      var parts := Split(name, '#');
      if |parts| != 2 then Failure(ValueError)
      else Success(VisitAll(NoSummary, SuiteCases(root), parts[1]))
  }

  /** The root when it is a `testsuite`, else its first `testsuite` child. */
  function Suite(root: Node): (r: Option<Node>)
    requires root.Element?
    ensures root.tag == "testsuite" ==> r == Some(root)
    ensures root.tag != "testsuite" ==> r == FindChild(root, "testsuite")
    ensures r.Some? ==> r.value.Element? && r.value.tag == "testsuite"
  {
    if root.tag == "testsuite" then Some(root) else FindChild(root, "testsuite")
  }

  /** `suite.getiterator("testcase")`, or nothing without a suite. */
  function SuiteCases(root: Node): (r: seq<Node>)
    requires root.Element?
    ensures Suite(root).None? ==> r == []
    ensures forall i :: 0 <= i < |r| ==> r[i].Element? && r[i].tag == "testcase"
  {
    match Suite(root)
    case None => []
    case Some(suite) => ElementsByTag(suite, "testcase")
  }

  /** With no case of that name the summary is all `None`; otherwise the
      last matching case decides `stdout` and `stderr`, and the last
      matching case with an error or failure decides the message and stack
      trace, a failure overriding an error. */
  lemma ExtractSelects(doc: Option<Node>, name: string)
    requires doc.Some? && doc.value.Element? && |Split(name, '#')| == 2
    ensures var r := Extract(doc, name).value;
            var cases := SuiteCases(doc.value);
            var caseName := Split(name, '#')[1];
            var k := Seqs.LastIndex(cases, Matches(caseName));
            var j := Seqs.LastIndex(cases, Reports(caseName));
            && (k < 0 ==> r == NoSummary)
            && (k >= 0 ==> r.stdout == ChildText(cases[k], "system-out") && r.stderr == ChildText(cases[k], "system-err"))
            && (j < 0 ==> r.msg.None? && r.st.None?)
            && (j >= 0 ==> (r.msg, r.st) == Outcome(cases[j]))
  {
    var cases := SuiteCases(doc.value);
    var caseName := Split(name, '#')[1];
    VisitAllLast(NoSummary, cases, caseName);
  }

  /** A case with both children reports its failure. */
  lemma FailureOverridesError(c: Node)
    requires c.Element? && FindChild(c, "failure").Some? && FindChild(c, "error").Some?
    ensures Outcome(c) == (Attribute(FindChild(c, "failure").value, "type"), LeadingText(FindChild(c, "failure").value))
  {
  }

  /** The name splits into exactly two parts iff it holds exactly one `#`:
      the suite before it and the case after it. */
  lemma SplitName(name: string)
    ensures |Split(name, '#')| == 2 <==> '#' in name && '#' !in name[IndexOf(name, '#') + 1..]
    ensures |Split(name, '#')| == 2 ==>
              var k := IndexOf(name, '#');
              Split(name, '#') == [name[..k], name[k + 1..]]
  {
    if '#' in name {
      var k := IndexOf(name, '#');
      var rest := name[k + 1..];
      assert Split(name, '#') == [name[..k]] + Split(rest, '#');
      if '#' in rest {
        assert |Split(rest, '#')| >= 2 by {
          var k2 := IndexOf(rest, '#');
          assert Split(rest, '#') == [rest[..k2]] + Split(rest[k2 + 1..], '#');
        }
      }
    }
  }
}
