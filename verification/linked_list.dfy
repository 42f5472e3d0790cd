/** The singly linked list fixture of the multi-module test project: a Java
    `Node` with an `int` value and a `next` reference, the in-place
    `reverse`, `printList`, and the helpers its unit test uses. The heap
    list is tied to its abstract contents by a ghost sequence of nodes. */
module LinkedListReversal {
  import opened Strings

  /** Java's 32-bit `int`. */
  type Int32 = x: int | -0x8000_0000 <= x < 0x8000_0000

  /** `Integer.MIN_VALUE` and `Integer.MAX_VALUE`. */
  const IntMin: Int32 := -0x8000_0000
  const IntMax: Int32 := 0x7fff_ffff

  class Node {
    var value: Int32
    var next: Node?

    constructor (value: Int32)
      ensures this.value == value && next == null
    {
      this.value := value;
      next := null;
    }
  }

  /** The successor of node `i` in a chain: the next node, or null after
      the last one. */
  function Succ(nodes: seq<Node>, i: nat): (r: Node?)
    requires i < |nodes|
    ensures r == null <==> i == |nodes| - 1
  {
    if i + 1 < |nodes| then nodes[i + 1] else null
  }

  /** `nodes` is exactly the chain reached from `head`: pairwise distinct,
      and each node's `next` is its successor in the chain. */
  ghost predicate IsList(head: Node?, nodes: seq<Node>)
    reads nodes
  {
    head == (if |nodes| == 0 then null else nodes[0])
    && (forall i :: 0 <= i < |nodes| ==> nodes[i].next == Succ(nodes, i))
    && (forall i, j :: 0 <= i < j < |nodes| ==> nodes[i] != nodes[j])
  }

  /** The values stored along a chain of nodes. */
  ghost function Values(nodes: seq<Node>): (vs: seq<Int32>)
    reads nodes
    ensures |vs| == |nodes|
    ensures forall i :: 0 <= i < |nodes| ==> vs[i] == nodes[i].value
  {
    if |nodes| == 0 then [] else [nodes[0].value] + Values(nodes[1..])
  }

  /** The reverse of a sequence. */
  function Rev<T>(s: seq<T>): (r: seq<T>)
    ensures |r| == |s|
    ensures forall i :: 0 <= i < |s| ==> r[i] == s[|s| - 1 - i]
  {
    if |s| == 0 then [] else Rev(s[1..]) + [s[0]]
  }

  /** Reversal is its own inverse. */
  lemma RevRev<T>(s: seq<T>)
    ensures Rev(Rev(s)) == s
  {
  }

  /** Non-decreasing from head to tail: what `isAscending` checks. */
  predicate Ascending(vs: seq<int>) {
    forall i :: 0 <= i < |vs| - 1 ==> vs[i] <= vs[i + 1]
  }

  /** Non-increasing from head to tail: what `isDescending` checks. */
  predicate Descending(vs: seq<int>) {
    forall i :: 0 <= i < |vs| - 1 ==> vs[i] >= vs[i + 1]
  }

  /** Reversing an ascending list gives a descending one, and back. */
  lemma AscendingRev(vs: seq<int>)
    ensures Ascending(vs) <==> Descending(Rev(vs))
  {
    if Descending(Rev(vs)) {
      forall i | 0 <= i < |vs| - 1
        ensures vs[i] <= vs[i + 1]
      {
        var j := |vs| - 2 - i;
        assert Rev(vs)[j] == vs[i + 1] && Rev(vs)[j + 1] == vs[i];
      }
    }
  }

  /** The `next` field of node `i` once the first `k` nodes have been
      relinked: those point backwards, the rest still point forwards. */
  function NextAfter(nodes: seq<Node>, k: nat, i: nat): Node?
    requires i < |nodes|
  {
    if i < k then (if i == 0 then null else nodes[i - 1]) else Succ(nodes, i)
  }

  /** A fully relinked chain, read from its last node, is the reversed chain. */
  lemma RelinkedIsReversed(nodes: seq<Node>)
    requires |nodes| > 0
    requires forall i :: 0 <= i < |nodes| ==> nodes[i].next == NextAfter(nodes, |nodes|, i)
    requires forall i, j :: 0 <= i < j < |nodes| ==> nodes[i] != nodes[j]
    ensures IsList(nodes[|nodes| - 1], Rev(nodes))
  {
    var r := Rev(nodes);
    forall i | 0 <= i < |r|
      ensures r[i].next == Succ(r, i)
    {
      assert r[i] == nodes[|nodes| - 1 - i];
      assert nodes[|nodes| - 1 - i].next == NextAfter(nodes, |nodes|, |nodes| - 1 - i);
    }
  }

  /** A chain whose head is null or has no successor has at most one node. */
  lemma AtMostOneNode(head: Node?, nodes: seq<Node>)
    requires IsList(head, nodes)
    requires head == null || head.next == null
    ensures |nodes| <= 1
  {
    if head != null {
      assert nodes[0].next == Succ(nodes, 0);
    }
  }

  /** `reverse(head)`: relinks the chain in place and returns the old tail.
      Empty and one-node lists come back unchanged. */
  method Reverse(head: Node?, ghost nodes: seq<Node>) returns (newHead: Node?)
    requires IsList(head, nodes)
    modifies nodes
    ensures IsList(newHead, Rev(nodes))
    ensures Values(Rev(nodes)) == Rev(old(Values(nodes)))
  {
    ghost var vs := Values(nodes);
    if head == null || head.next == null {
      AtMostOneNode(head, nodes);
      assert Rev(nodes) == nodes;
      return head;
    }
    var prev: Node? := null;
    var cur: Node? := head;
    ghost var k := 0;
    while cur != null
      invariant 0 <= k <= |nodes|
      invariant prev == (if k == 0 then null else nodes[k - 1])
      invariant cur == (if k < |nodes| then nodes[k] else null)
      invariant forall i :: 0 <= i < |nodes| ==> nodes[i].next == NextAfter(nodes, k, i)
      invariant forall i :: 0 <= i < |nodes| ==> nodes[i].value == vs[i]
      decreases |nodes| - k
    {
      var next := cur.next;
      cur.next := prev;
      prev := cur;
      cur := next;
      k := k + 1;
    }
    newHead := prev;
    RelinkedIsReversed(nodes);
    ValuesRev(nodes, vs);
  }

  /** The values along a reversed chain are the chain's values reversed. */
  lemma ValuesRev(nodes: seq<Node>, vs: seq<Int32>)
    requires |vs| == |nodes| && forall i :: 0 <= i < |nodes| ==> nodes[i].value == vs[i]
    ensures Values(Rev(nodes)) == Rev(vs)
  {
  }

  /** `countNodes(head)`: the number of nodes in the chain. */
  method CountNodes(head: Node?, ghost nodes: seq<Node>) returns (count: int)
    requires IsList(head, nodes)
    ensures count == |nodes|
  {
    count := 0;
    var cur := head;
    while cur != null
      invariant 0 <= count <= |nodes|
      invariant cur == (if count < |nodes| then nodes[count] else null)
      decreases |nodes| - count
    {
      assert cur.next == Succ(nodes, count);
      count := count + 1;
      cur := cur.next;
    }
  }

  /** `isAscending(head)`: starting from `Integer.MIN_VALUE`, fails at the
      first value smaller than its predecessor. */
  method IsAscending(head: Node?, ghost nodes: seq<Node>) returns (ok: bool)
    requires IsList(head, nodes)
    ensures ok <==> Ascending(Values(nodes))
  {
    ghost var vs := Values(nodes);
    var last: Int32 := IntMin;
    var cur := head;
    ghost var k := 0;
    while cur != null
      invariant 0 <= k <= |nodes|
      invariant cur == (if k < |nodes| then nodes[k] else null)
      invariant last == (if k == 0 then IntMin else vs[k - 1])
      invariant forall j :: 0 <= j < k - 1 ==> vs[j] <= vs[j + 1]
      decreases |nodes| - k
    {
      assert cur.value == vs[k] && cur.next == Succ(nodes, k);
      if last > cur.value {
        assert k > 0 && vs[k - 1] > vs[k];
        return false;
      }
      last := cur.value;
      cur := cur.next;
      k := k + 1;
    }
    return true;
  }

  /** `isDescending(head)`: starting from `Integer.MAX_VALUE`, fails at the
      first value larger than its predecessor. */
  method IsDescending(head: Node?, ghost nodes: seq<Node>) returns (ok: bool)
    requires IsList(head, nodes)
    ensures ok <==> Descending(Values(nodes))
  {
    ghost var vs := Values(nodes);
    var last: Int32 := IntMax;
    var cur := head;
    ghost var k := 0;
    while cur != null
      invariant 0 <= k <= |nodes|
      invariant cur == (if k < |nodes| then nodes[k] else null)
      invariant last == (if k == 0 then IntMax else vs[k - 1])
      invariant forall j :: 0 <= j < k - 1 ==> vs[j] >= vs[j + 1]
      decreases |nodes| - k
    {
      assert cur.value == vs[k] && cur.next == Succ(nodes, k);
      if last < cur.value {
        assert k > 0 && vs[k - 1] < vs[k];
        return false;
      }
      last := cur.value;
      cur := cur.next;
      k := k + 1;
    }
    return true;
  }

  /** The text `printList` writes: each value followed by ` -> `, then
      `null` and a line break. */
  function Rendered(vs: seq<int>): (out: string)
    ensures EndsWith(out, "null\n")
  {
    if |vs| == 0 then "null\n" else IntToString(vs[0]) + " -> " + Rendered(vs[1..])
  }

  /** `printList(head)`, with the standard output returned as a string. */
  method PrintList(head: Node?, ghost nodes: seq<Node>) returns (out: string)
    requires IsList(head, nodes)
    ensures out == Rendered(Values(nodes))
  {
    ghost var vs := Values(nodes);
    var prefix := "";
    var cur := head;
    ghost var k := 0;
    while cur != null
      invariant 0 <= k <= |nodes|
      invariant cur == (if k < |nodes| then nodes[k] else null)
      invariant prefix + Rendered(vs[k..]) == Rendered(vs)
      decreases |nodes| - k
    {
      assert cur.value == vs[k] && cur.next == Succ(nodes, k);
      assert vs[k..][1..] == vs[k + 1..];
      prefix := prefix + IntToString(cur.value) + " -> ";
      cur := cur.next;
      k := k + 1;
    }
    out := prefix + "null\n";
  }

  /** A node linked in front of a chain it is not part of heads the longer chain. */
  lemma ConsIsList(n: Node, nodes: seq<Node>)
    requires IsList(n.next, nodes) && n !in nodes
    ensures IsList(n, [n] + nodes)
  {
    var r := [n] + nodes;
    assert forall j :: 1 <= j < |r| ==> r[j] == nodes[j - 1];
  }

  /** `createList()`: prepends fresh nodes valued 10, 9, ..., 1, giving the
      list 1 .. 10. */
  method CreateList() returns (head: Node?, ghost nodes: seq<Node>)
    ensures IsList(head, nodes)
    ensures |nodes| == 10 && forall j :: 0 <= j < 10 ==> Values(nodes)[j] == j + 1
    ensures forall j :: 0 <= j < |nodes| ==> fresh(nodes[j])
  {
    head := null;
    nodes := [];
    var i := 10;
    while i >= 1
      invariant 0 <= i <= 10
      invariant |nodes| == 10 - i
      invariant IsList(head, nodes)
      invariant forall j :: 0 <= j < |nodes| ==> nodes[j].value == i + 1 + j
      invariant forall j :: 0 <= j < |nodes| ==> fresh(nodes[j])
    {
      var newHead := new Node(i);
      newHead.next := head;
      head := newHead;
      ConsIsList(newHead, nodes);
      nodes := [newHead] + nodes;
      i := i - 1;
    }
  }

  /** The values `createList` builds, 1 .. 10, are ascending and their
      reversal descending. */
  lemma CreatedOrder(vs: seq<int>)
    requires |vs| == 10 && forall j :: 0 <= j < 10 ==> vs[j] == j + 1
    ensures Ascending(vs) && Descending(Rev(vs))
  {
    AscendingRev(vs);
  }

  /** The first half of `testReversal`: the created list is ascending and
      its values, reversed, are descending. */
  method CreateChecked() returns (list: Node?, ghost nodes: seq<Node>, asc: bool, count: int)
    ensures IsList(list, nodes) && forall j :: 0 <= j < |nodes| ==> fresh(nodes[j])
    ensures asc && count == |nodes| && Descending(Rev(Values(nodes)))
  {
    list, nodes := CreateList();
    CreatedOrder(Values(nodes));
    asc := IsAscending(list, nodes);
    count := CountNodes(list, nodes);
  }

  /** `testReversal`: the created list is ascending, and after reversal it
      is descending with as many nodes as before. */
  method TestReversal() returns (passed: bool)
    ensures passed
  {
    var list, nodes, asc, count := CreateChecked();
    ghost var vs := Values(nodes);
    list := Reverse(list, nodes);
    assert Descending(Values(Rev(nodes))) by {
      assert Values(Rev(nodes)) == Rev(vs);
    }
    var desc := IsDescending(list, Rev(nodes));
    var after := CountNodes(list, Rev(nodes));
    passed := asc && desc && count == after;
  }
}
