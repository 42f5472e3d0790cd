/** Python's `any`, `all`, `len([x for x in s if p(x)])` and list
    comprehensions over sequences, with their meaning stated by quantifiers. */
module Seqs {

  /** Python's `all(p(x) for x in s)`: true on the empty sequence. */
  function All<T>(s: seq<T>, p: T -> bool): (r: bool)
    ensures r <==> forall i :: 0 <= i < |s| ==> p(s[i])
  {
    if |s| == 0 then true else p(s[0]) && All(s[1..], p)
  }

  /** Python's `any(p(x) for x in s)`: false on the empty sequence. */
  function Any<T>(s: seq<T>, p: T -> bool): (r: bool)
    ensures r <==> exists i :: 0 <= i < |s| && p(s[i])
  {
    if |s| == 0 then false else p(s[0]) || Any(s[1..], p)
  }

  /** The position of the last element satisfying `p`, or -1 when none
      does. */
  function LastIndex<T>(s: seq<T>, p: T -> bool): (k: int)
    ensures -1 <= k < |s|
    ensures k >= 0 ==> p(s[k])
    ensures forall i :: k < i < |s| ==> !p(s[i])
  {
    if |s| == 0 then -1 else if p(s[|s| - 1]) then |s| - 1 else LastIndex(s[..|s| - 1], p)
  }

  /** An element satisfying `p` with none after it is the last one. */
  lemma LastIndexOf<T>(a: seq<T>, x: T, b: seq<T>, p: T -> bool)
    requires p(x)
    requires forall j :: 0 <= j < |b| ==> !p(b[j])
    ensures LastIndex(a + [x] + b, p) == |a|
  {
    var s := a + [x] + b;
    var k := LastIndex(s, p);
    assert s[|a|] == x;
    forall j | |a| < j < |s|
      ensures !p(s[j])
    {
      assert s[j] == b[j - |a| - 1];
    }
  }

  /** The last position in `[x] + s` is one past that in `s`, or else 0
      when only `x` qualifies. */
  lemma LastIndexCons<T>(x: T, s: seq<T>, p: T -> bool)
    ensures LastIndex([x] + s, p) ==
      (if LastIndex(s, p) >= 0 then LastIndex(s, p) + 1 else if p(x) then 0 else -1)
  {
    var t := [x] + s;
    assert forall i :: 0 <= i < |s| ==> t[i + 1] == s[i];
    assert t[0] == x;
  }

  /** `LastIndexCons` read from a non-empty sequence: the last position is
      found in the tail, or else at the head. */
  lemma LastIndexTail<T>(s: seq<T>, p: T -> bool)
    requires |s| > 0
    ensures var j := LastIndex(s[1..], p);
      && LastIndex(s, p) == (if j >= 0 then j + 1 else if p(s[0]) then 0 else -1)
      && (j >= 0 ==> s[j + 1] == s[1..][j])
  {
    LastIndexCons(s[0], s[1..], p);
    assert [s[0]] + s[1..] == s;
  }

  /** The number of elements of `s` satisfying `p`. */
  function Count<T>(s: seq<T>, p: T -> bool): (n: nat)
    ensures n <= |s|
    ensures n == 0 <==> forall i :: 0 <= i < |s| ==> !p(s[i])
    ensures n == |s| <==> forall i :: 0 <= i < |s| ==> p(s[i])
  {
    if |s| == 0 then 0 else (if p(s[0]) then 1 else 0) + Count(s[1..], p)
  }

  /** `[x for x in s if p(x)]`: the elements satisfying `p`, in order. */
  function Filter<T>(s: seq<T>, p: T -> bool): (r: seq<T>)
    ensures |r| == Count(s, p)
    ensures forall i :: 0 <= i < |r| ==> p(r[i]) && r[i] in s
    ensures forall i :: 0 <= i < |s| && p(s[i]) ==> s[i] in r
  {
    if |s| == 0 then [] else (if p(s[0]) then [s[0]] else []) + Filter(s[1..], p)
  }

  /** One step of the filter: the head is kept when it satisfies the
      predicate. */
  lemma FilterCons<T>(s: seq<T>, p: T -> bool)
    requires |s| > 0
    ensures Filter(s, p) == (if p(s[0]) then [s[0]] else []) + Filter(s[1..], p)
  {
  }

  /** Counting distributes over concatenation. */
  lemma {:induction false} CountAppend<T>(a: seq<T>, b: seq<T>, p: T -> bool)
    ensures Count(a + b, p) == Count(a, p) + Count(b, p)
  {
    if |a| == 0 {
      assert a + b == b;
    } else {
      assert (a + b)[1..] == a[1..] + b;
      CountAppend(a[1..], b, p);
    }
  }

  /** Filtering distributes over concatenation. */
  lemma {:induction false} FilterAppend<T>(a: seq<T>, b: seq<T>, p: T -> bool)
    ensures Filter(a + b, p) == Filter(a, p) + Filter(b, p)
  {
    if |a| == 0 {
      assert a + b == b;
    } else {
      assert (a + b)[1..] == a[1..] + b;
      FilterAppend(a[1..], b, p);
    }
  }

  /** A predicate implied by another counts at least as many elements. */
  lemma {:induction false} CountMonotone<T>(s: seq<T>, p: T -> bool, q: T -> bool)
    requires forall i :: 0 <= i < |s| ==> p(s[i]) ==> q(s[i])
    ensures Count(s, p) <= Count(s, q)
  {
    if |s| > 0 {
      CountMonotone(s[1..], p, q);
    }
  }

  /** Two predicates that never hold together count their union exactly. */
  lemma {:induction false} CountDisjointUnion<T>(s: seq<T>, p: T -> bool, q: T -> bool, pq: T -> bool)
    requires forall i :: 0 <= i < |s| ==> (pq(s[i]) <==> p(s[i]) || q(s[i]))
    requires forall i :: 0 <= i < |s| ==> !(p(s[i]) && q(s[i]))
    ensures Count(s, pq) == Count(s, p) + Count(s, q)
  {
    if |s| > 0 {
      CountDisjointUnion(s[1..], p, q, pq);
    }
  }

  /** Counting depends only on the multiset of elements. */
  lemma {:induction false} CountPermutation<T>(a: seq<T>, b: seq<T>, p: T -> bool)
    requires multiset(a) == multiset(b)
    ensures Count(a, p) == Count(b, p)
  {
    if |a| > 0 {
      var x := a[0];
      assert x in multiset(b);
      var k :| 0 <= k < |b| && b[k] == x;
      assert b == b[..k] + [x] + b[k + 1..];
      var rest := b[..k] + b[k + 1..];
      assert multiset(rest) == multiset(b) - multiset{x} by {
        assert multiset(b) == multiset(b[..k]) + multiset{x} + multiset(b[k + 1..]);
      }
      assert a == [x] + a[1..];
      assert multiset(a[1..]) == multiset(a) - multiset{x};
      CountPermutation(a[1..], rest, p);
      CountAppend(b[..k], b[k + 1..], p);
      CountAppend(b[..k] + [x], b[k + 1..], p);
      CountAppend(b[..k], [x], p);
    } else {
      assert |b| == |multiset(b)| == 0;
    }
  }

  /** Rotating a sequence keeps its count. */
  lemma CountRotation<T>(s: seq<T>, r: nat, p: T -> bool)
    requires r <= |s|
    ensures Count(s[r..] + s[..r], p) == Count(s, p)
  {
    var a, b := s[..r], s[r..];
    assert a + b == s;
    CountAppend(b, a, p);
    CountAppend(a, b, p);
  }

  /** Where the elements of each part sit in a concatenation. */
  lemma AppendIndex<T>(a: seq<T>, b: seq<T>)
    ensures forall i :: 0 <= i < |a| ==> (a + b)[i] == a[i]
    ensures forall i :: 0 <= i < |b| ==> (a + b)[|a| + i] == b[i]
  {
  }

  /** A property holds of every element exactly when it holds of the head
      and of every element of the tail. */
  lemma AllCons<T>(s: seq<T>, p: T -> bool)
    requires |s| > 0
    ensures (forall k :: 0 <= k < |s| ==> p(s[k])) <==> p(s[0]) && forall k :: 0 <= k < |s[1..]| ==> p(s[1..][k])
  {
    assert forall k :: 1 <= k < |s| ==> s[k] == s[1..][k - 1];
  }

  /** Concatenation is associative (stated for use inside larger proofs). */
  lemma AppendAssoc<T>(a: seq<T>, b: seq<T>, c: seq<T>)
    ensures (a + b) + c == a + (b + c)
  {
  }

  /** Adding the same multiset to both sides of an equation keeps it. */
  lemma MultisetShift<T>(a: multiset<T>, b: multiset<T>, c: multiset<T>, d: multiset<T>, e: multiset<T>)
    requires b + c == d + e
    ensures a + b + c == a + d + e
  {
    assert a + b + c == a + (b + c);
    assert a + d + e == a + (d + e);
  }

  /** No element occurs twice. */
  predicate Distinct<T(==)>(s: seq<T>) {
    forall i, j :: 0 <= i < j < |s| ==> s[i] != s[j]
  }

  /** In a sequence without repeats every element occurs exactly once. */
  lemma {:induction false} DistinctCountOne<T>(s: seq<T>, a: int)
    requires Distinct(s) && 0 <= a < |s|
    ensures multiset(s)[s[a]] == 1
  {
    assert s == s[..a] + [s[a]] + s[a + 1..];
    var suffix := s[a + 1..];
    forall y | 0 <= y < |suffix|
      ensures suffix[y] != s[a]
    {
      assert suffix[y] == s[a + 1 + y];
    }
    assert s[a] !in s[..a] && s[a] !in suffix;
  }

  /** A rearrangement of a sequence without repeats has none either. */
  lemma PermutationDistinct<T>(s: seq<T>, t: seq<T>, i: int, j: int)
    requires multiset(t) == multiset(s) && Distinct(s)
    requires 0 <= i < j < |t|
    ensures t[i] != t[j]
  {
    assert t[j] in multiset(s);
    var a :| 0 <= a < |s| && s[a] == t[j];
    DistinctCountOne(s, a);
    var front := t[..j];
    assert t == front + [t[j]] + t[j + 1..];
    assert multiset(t)[t[j]] == multiset(front)[t[j]] + 1 + multiset(t[j + 1..])[t[j]];
    assert multiset(front)[t[j]] == 0;
    assert front[i] == t[i] && t[i] in multiset(front);
  }

  /** Filtering keeps a sequence free of repeats. */
  lemma {:induction false} FilterDistinct<T>(s: seq<T>, p: T -> bool)
    requires Distinct(s)
    ensures Distinct(Filter(s, p))
  {
    if |s| > 0 {
      FilterDistinct(s[1..], p);
      var rest := Filter(s[1..], p);
      assert s[0] !in s[1..] by {
        forall i | 0 <= i < |s[1..]|
          ensures s[1..][i] != s[0]
        {
          assert s[1..][i] == s[i + 1];
        }
      }
      assert s[0] !in rest;
    }
  }

  /** A filter every element passes keeps the whole sequence. */
  lemma {:induction false} FilterAll<T>(s: seq<T>, p: T -> bool)
    requires forall i :: 0 <= i < |s| ==> p(s[i])
    ensures Filter(s, p) == s
  {
    if |s| > 0 {
      FilterAll(s[1..], p);
    }
  }

  /** Filtering twice is filtering once by the conjunction. */
  lemma {:induction false} FilterFilter<T>(s: seq<T>, p: T -> bool, q: T -> bool, pq: T -> bool)
    requires forall i :: 0 <= i < |s| ==> (pq(s[i]) <==> p(s[i]) && q(s[i]))
    ensures Filter(Filter(s, p), q) == Filter(s, pq)
  {
    if |s| > 0 {
      FilterFilter(s[1..], p, q, pq);
      FilterAppend(if p(s[0]) then [s[0]] else [], Filter(s[1..], p), q);
    }
  }

  /** `[f(x) for x in s]`. */
  function Map<T, U>(s: seq<T>, f: T -> U): (r: seq<U>)
    ensures |r| == |s| && forall i :: 0 <= i < |s| ==> r[i] == f(s[i])
  {
    if |s| == 0 then [] else [f(s[0])] + Map(s[1..], f)
  }

  /** Mapping distributes over concatenation. */
  lemma MapAppend<T, U>(a: seq<T>, b: seq<T>, f: T -> U)
    ensures Map(a + b, f) == Map(a, f) + Map(b, f)
  {
    assert forall i :: 0 <= i < |a| + |b| ==> (a + b)[i] == if i < |a| then a[i] else b[i - |a|];
  }

  /** Nothing passes a filter that keeps nothing. */
  lemma {:induction false} FilterEmpty<T>(s: seq<T>, p: T -> bool)
    requires |Filter(s, p)| == 0
    ensures forall i :: 0 <= i < |s| ==> !p(s[i])
  {
    if |s| > 0 {
      FilterEmpty(s[1..], p);
      assert forall i :: 1 <= i < |s| ==> s[i] == s[1..][i - 1];
    }
  }

  /** A member of the filtered sequence is a member that passes. */
  lemma FilterMember<T>(s: seq<T>, p: T -> bool, x: T)
    requires x in Filter(s, p)
    ensures x in s && p(x)
  {
    var i :| 0 <= i < |Filter(s, p)| && Filter(s, p)[i] == x;
  }

  /** The image of a member is in the mapped sequence. */
  lemma MapMember<T, U>(s: seq<T>, f: T -> U, x: T)
    requires x in s
    ensures f(x) in Map(s, f)
  {
    var i :| 0 <= i < |s| && s[i] == x;
    assert Map(s, f)[i] == f(x);
  }

  /** Every element of the mapped sequence is the image of a member. */
  lemma MapPreimage<T, U>(s: seq<T>, f: T -> U, y: U)
    requires y in Map(s, f)
    ensures exists x :: x in s && f(x) == y
  {
    var i :| 0 <= i < |Map(s, f)| && Map(s, f)[i] == y;
    assert s[i] in s;
  }

  /** Filters that agree on every element give the same result. */
  lemma {:induction false} FilterExt<T>(s: seq<T>, p: T -> bool, q: T -> bool)
    requires forall i :: 0 <= i < |s| ==> p(s[i]) == q(s[i])
    ensures Filter(s, p) == Filter(s, q)
  {
    if |s| > 0 {
      FilterExt(s[1..], p, q);
    }
  }

  /** A predicate that holds at no two positions counts at most one. */
  lemma {:induction false} CountAtMostOne<T>(s: seq<T>, p: T -> bool)
    requires forall i, j :: 0 <= i < j < |s| && p(s[i]) ==> !p(s[j])
    ensures Count(s, p) <= 1
  {
    if |s| > 0 {
      if p(s[0]) {
        assert forall i :: 0 <= i < |s[1..]| ==> !p(s[1..][i]) by {
          forall i | 0 <= i < |s[1..]|
            ensures !p(s[1..][i])
          {
            assert s[1..][i] == s[i + 1];
          }
        }
      } else {
        CountAtMostOne(s[1..], p);
      }
    }
  }

  /** Multiset addition cancels. */
  lemma MultisetCancel<T>(a: multiset<T>, b: multiset<T>, x: multiset<T>)
    requires a + x == b + x
    ensures a == b
  {
    forall e
      ensures a[e] == b[e]
    {
      assert (a + x)[e] == (b + x)[e];
    }
  }
}
