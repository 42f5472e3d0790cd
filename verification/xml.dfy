/** An XML document as the test-report code sees it: elements with a tag,
    attributes and ordered children, and text nodes. Parsing and writing
    are not modelled; a parsed document is its root node. */
module Xml {
  import opened Wrappers

  datatype Node =
    | Element(tag: string, attrs: map<string, string>, children: seq<Node>)
    | Text(content: string)

  /** `node.getAttribute(a)` when present: the attribute's value, if any. */
  function Attribute(n: Node, a: string): (v: Option<string>)
    requires n.Element?
    ensures v.Some? <==> a in n.attrs
    ensures v.Some? ==> v.value == n.attrs[a]
  {
    if a in n.attrs then Some(n.attrs[a]) else None
  }

  /** Overwrites an attribute only if the element already has it. */
  function SetIfPresent(n: Node, a: string, v: string): (r: Node)
    requires n.Element?
    ensures r.Element? && r.tag == n.tag && r.children == n.children
    ensures r.attrs.Keys == n.attrs.Keys
    ensures a in n.attrs ==> r.attrs[a] == v
    ensures forall b :: b in n.attrs && b != a ==> r.attrs[b] == n.attrs[b]
  {
    if a in n.attrs then n.(attrs := n.attrs[a := v]) else n
  }

  /** `hasChildNodes()`: any child at all, text included. */
  predicate HasChildNodes(n: Node) {
    n.Element? && |n.children| > 0
  }

  /** Some child is an element (text children do not count). */
  predicate HasElementChild(n: Node) {
    n.Element? && exists i :: 0 <= i < |n.children| && n.children[i].Element?
  }

  /** An element child implies some child node; the converse fails for a
      node whose children are all text. */
  lemma ElementChildIsChild(n: Node)
    ensures HasElementChild(n) ==> HasChildNodes(n)
    ensures n.Element? && |n.children| > 0 && (forall i :: 0 <= i < |n.children| ==> n.children[i].Text?) ==>
              HasChildNodes(n) && !HasElementChild(n)
  {
  }

  /** `getElementsByTagName(tag)`: every element with that tag in document
      order, the node itself first. */
  function ElementsByTag(n: Node, tag: string): (r: seq<Node>)
    ensures forall i :: 0 <= i < |r| ==> r[i].Element? && r[i].tag == tag
    decreases n, 1
  {
    match n
    case Text(_) => []
    case Element(t, _, cs) => (if t == tag then [n] else []) + ElementsByTagAll(cs, tag)
  }

  function ElementsByTagAll(ns: seq<Node>, tag: string): (r: seq<Node>)
    ensures forall i :: 0 <= i < |r| ==> r[i].Element? && r[i].tag == tag
    decreases ns, 0
  {
    if |ns| == 0 then []
    else ElementsByTag(ns[0], tag) + ElementsByTagAll(ns[1..], tag)
  }

  /** A flat suite (no element nests inside a `tag` element's children other
      than through them) lists exactly its children with that tag. */
  lemma {:induction false} ElementsOfLeaves(ns: seq<Node>, tag: string)
    requires forall i :: 0 <= i < |ns| ==> ns[i].Element? && |ns[i].children| == 0
    ensures |ElementsByTagAll(ns, tag)| <= |ns|
    ensures forall i :: 0 <= i < |ns| && ns[i].tag == tag ==> ns[i] in ElementsByTagAll(ns, tag)
  {
    if |ns| > 0 {
      ElementsOfLeaves(ns[1..], tag);
      assert ElementsByTagAll(ns[0].children, tag) == [];
      forall i | 1 <= i < |ns| && ns[i].tag == tag
        ensures ns[i] in ElementsByTagAll(ns, tag)
      {
        assert ns[i] == ns[1..][i - 1];
      }
    }
  }

  /** The first child element with the given tag (ElementTree's `find`). */
  function FindChild(n: Node, tag: string): (r: Option<Node>)
    requires n.Element?
    ensures r.Some? ==> r.value in n.children && r.value.Element? && r.value.tag == tag
    ensures r.None? <==> forall i :: 0 <= i < |n.children| ==> !(n.children[i].Element? && n.children[i].tag == tag)
  {
    FirstWithTag(n.children, tag)
  }

  function FirstWithTag(ns: seq<Node>, tag: string): (r: Option<Node>)
    ensures r.Some? ==> r.value in ns && r.value.Element? && r.value.tag == tag
    ensures r.None? <==> forall i :: 0 <= i < |ns| ==> !(ns[i].Element? && ns[i].tag == tag)
  {
    if |ns| == 0 then None
    else if ns[0].Element? && ns[0].tag == tag then Some(ns[0])
    else
      assert forall i :: 1 <= i < |ns| ==> ns[i] == ns[1..][i - 1];
      FirstWithTag(ns[1..], tag)
  }

  /** ElementTree's `.text`: the text before the first child element. */
  function LeadingText(n: Node): (t: Option<string>)
    requires n.Element?
    ensures t.Some? ==> |n.children| > 0 && n.children[0] == Text(t.value)
  {
    if |n.children| > 0 && n.children[0].Text? then Some(n.children[0].content) else None
  }
}
