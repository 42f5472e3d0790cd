/** Python's `sorted(pairs, key=lambda p: p[1], reverse=True)` on
    (item, key) pairs: a stable sort by the integer key, largest first,
    keeping pairs with equal keys in their original order. Modelled as an
    insertion sort. */
module Sorting {
  import Seqs

  predicate SortedDesc<T>(s: seq<(T, int)>) {
    forall i, j :: 0 <= i < j < |s| ==> s[i].1 >= s[j].1
  }

  /** The pairs whose key is `k`, in order. */
  function WithKey<T>(s: seq<(T, int)>, k: int): (r: seq<(T, int)>)
    ensures |r| <= |s|
  {
    if |s| == 0 then [] else (if s[0].1 == k then [s[0]] else []) + WithKey(s[1..], k)
  }

  lemma {:induction false} WithKeyAppend<T>(a: seq<(T, int)>, b: seq<(T, int)>, k: int)
    ensures WithKey(a + b, k) == WithKey(a, k) + WithKey(b, k)
  {
    if |a| > 0 {
      assert (a + b)[1..] == a[1..] + b;
      WithKeyAppend(a[1..], b, k);
    } else {
      assert a + b == b;
    }
  }

  lemma {:induction false} WithKeyNone<T>(s: seq<(T, int)>, k: int)
    requires forall i :: 0 <= i < |s| ==> s[i].1 != k
    ensures WithKey(s, k) == []
  {
    if |s| > 0 {
      WithKeyNone(s[1..], k);
    }
  }

  /** Every pair of key `k` is among the pairs `WithKey` selects, and
      only pairs of the sequence are. */
  lemma {:induction false} WithKeyMembers<T>(s: seq<(T, int)>, k: int)
    ensures forall x :: x in WithKey(s, k) <==> x in s && x.1 == k
  {
    if |s| > 0 {
      WithKeyMembers(s[1..], k);
      assert s == [s[0]] + s[1..];
    }
  }

  /** A selected pair sits at some position of the sequence. */
  lemma {:induction false} WithKeyIndex<T>(s: seq<(T, int)>, k: int, q: int) returns (m: int)
    requires 0 <= q < |WithKey(s, k)|
    ensures 0 <= m < |s| && s[m] == WithKey(s, k)[q]
  {
    var head: seq<(T, int)> := if s[0].1 == k then [s[0]] else [];
    assert WithKey(s, k) == head + WithKey(s[1..], k);
    if |head| == 1 && q == 0 {
      m := 0;
    } else {
      var m' := WithKeyIndex(s[1..], k, q - |head|);
      m := m' + 1;
    }
  }

  /** Two pairs of equal key keep their relative order among the pairs
      of that key. */
  lemma {:induction false} WithKeyPair<T>(t: seq<(T, int)>, i: int, j: int) returns (p: int, q: int)
    requires 0 <= i < j < |t| && t[i].1 == t[j].1
    ensures 0 <= p < q < |WithKey(t, t[i].1)|
    ensures WithKey(t, t[i].1)[p] == t[i] && WithKey(t, t[i].1)[q] == t[j]
  {
    var k := t[i].1;
    var head: seq<(T, int)> := if t[0].1 == k then [t[0]] else [];
    assert WithKey(t, k) == head + WithKey(t[1..], k);
    assert t[1..][j - 1] == t[j];
    if i == 0 {
      WithKeyMembers(t[1..], k);
      assert t[j] in WithKey(t[1..], k);
      var q' :| 0 <= q' < |WithKey(t[1..], k)| && WithKey(t[1..], k)[q'] == t[j];
      p, q := 0, q' + 1;
    } else {
      assert t[1..][i - 1] == t[i];
      var p', q' := WithKeyPair(t[1..], i - 1, j - 1);
      p, q := p' + |head|, q' + |head|;
    }
  }

  /** Selecting the pairs of one key keeps any order the items were in. */
  lemma {:induction false} WithKeyOrdered<T>(s: seq<(T, int)>, k: int, before: (T, T) -> bool)
    requires forall i, j :: 0 <= i < j < |s| ==> before(s[i].0, s[j].0)
    ensures forall i, j :: 0 <= i < j < |WithKey(s, k)| ==> before(WithKey(s, k)[i].0, WithKey(s, k)[j].0)
  {
    if |s| > 0 {
      var rest := WithKey(s[1..], k);
      assert forall i, j :: 0 <= i < j < |s[1..]| ==> s[1..][i] == s[i + 1] && s[1..][j] == s[j + 1];
      WithKeyOrdered(s[1..], k, before);
      if s[0].1 == k {
        var w := WithKey(s, k);
        assert w == [s[0]] + rest;
        forall i, j | 0 <= i < j < |w|
          ensures before(w[i].0, w[j].0)
        {
          if i == 0 {
            assert w[j] == rest[j - 1];
            HeadBefore(s, k, before, j - 1);
          } else {
            assert w[i] == rest[i - 1] && w[j] == rest[j - 1];
          }
        }
      }
    }
  }

  /** The first pair comes before every later pair of key `k`. */
  lemma HeadBefore<T>(s: seq<(T, int)>, k: int, before: (T, T) -> bool, q: int)
    requires |s| > 0 && forall i, j :: 0 <= i < j < |s| ==> before(s[i].0, s[j].0)
    requires 0 <= q < |WithKey(s[1..], k)|
    ensures before(s[0].0, WithKey(s[1..], k)[q].0)
  {
    var m := WithKeyIndex(s[1..], k, q);
    assert s[m + 1] == s[1..][m];
  }

  /** A rearrangement that keeps the pairs of every key in their order
      keeps any two pairs of equal key in the order of the original. */
  lemma StableTies<T>(s: seq<(T, int)>, t: seq<(T, int)>, before: (T, T) -> bool)
    requires forall k :: WithKey(t, k) == WithKey(s, k)
    requires forall i, j :: 0 <= i < j < |s| ==> before(s[i].0, s[j].0)
    ensures forall i, j :: 0 <= i < j < |t| && t[i].1 == t[j].1 ==> before(t[i].0, t[j].0)
  {
    forall i, j | 0 <= i < j < |t| && t[i].1 == t[j].1
      ensures before(t[i].0, t[j].0)
    {
      var p, q := WithKeyPair(t, i, j);
      WithKeyOrdered(s, t[i].1, before);
      assert WithKey(t, t[i].1) == WithKey(s, t[i].1);
    }
  }

  /** The items of the pairs, keys dropped. */
  function Items<T>(ps: seq<(T, int)>): (ts: seq<T>)
    ensures |ts| == |ps|
    ensures forall i :: 0 <= i < |ps| ==> ts[i] == ps[i].0
  {
    if |ps| == 0 then [] else [ps[0].0] + Items(ps[1..])
  }

  lemma ItemsSnoc<T>(s: seq<(T, int)>)
    requires |s| > 0
    ensures Items(s) == Items(s[..|s| - 1]) + [s[|s| - 1].0]
  {
    var a := Items(s);
    var b := Items(s[..|s| - 1]) + [s[|s| - 1].0];
    assert |a| == |b|;
    forall i | 0 <= i < |a|
      ensures a[i] == b[i]
    {
    }
  }

  /** Inserts `x` after every pair whose key is at least `x`'s. */
  function InsertDesc<T>(s: seq<(T, int)>, x: (T, int)): (r: seq<(T, int)>)
    ensures multiset(r) == multiset(s) + multiset{x}
    ensures |r| == |s| + 1
  {
    if |s| == 0 then [x]
    else if s[0].1 >= x.1 then
      assert s == [s[0]] + s[1..];
      [s[0]] + InsertDesc(s[1..], x)
    else [x] + s
  }

  lemma {:induction false} InsertDescSorted<T>(s: seq<(T, int)>, x: (T, int))
    requires SortedDesc(s)
    ensures SortedDesc(InsertDesc(s, x))
  {
    if |s| > 0 && s[0].1 >= x.1 {
      InsertDescSorted(s[1..], x);
      var r := InsertDesc(s, x);
      forall i, j | 0 <= i < j < |r|
        ensures r[i].1 >= r[j].1
      {
        if i == 0 {
          assert r[j] in multiset(InsertDesc(s[1..], x));
          assert r[j] in multiset(s[1..]) + multiset{x};
        }
      }
    }
  }

  /** Filtering the insertion by one key: `x` lands after every pair of its
      key already present. */
  lemma {:induction false} InsertDescStable<T>(s: seq<(T, int)>, x: (T, int), k: int)
    requires SortedDesc(s)
    ensures WithKey(InsertDesc(s, x), k) == WithKey(s, k) + WithKey([x], k)
  {
    if |s| == 0 {
      assert InsertDesc(s, x) == [x];
    } else if s[0].1 >= x.1 {
      var tail := InsertDesc(s[1..], x);
      SortedTail(s);
      InsertDescStable(s[1..], x, k);
      assert WithKey(InsertDesc(s, x), k) == WithKey([s[0]], k) + WithKey(tail, k) by {
        assert InsertDesc(s, x) == [s[0]] + tail;
        WithKeyAppend([s[0]], tail, k);
      }
      assert WithKey(s, k) == WithKey([s[0]], k) + WithKey(s[1..], k) by {
        assert s == [s[0]] + s[1..];
        WithKeyAppend([s[0]], s[1..], k);
      }
      Seqs.AppendAssoc(WithKey([s[0]], k), WithKey(s[1..], k), WithKey([x], k));
    } else {
      assert WithKey(InsertDesc(s, x), k) == WithKey([x], k) + WithKey(s, k) by {
        assert InsertDesc(s, x) == [x] + s;
        WithKeyAppend([x], s, k);
      }
      WithKeySingle(x, k);
      if x.1 == k {
        assert forall i :: 0 <= i < |s| ==> s[i].1 != k;
        WithKeyNone(s, k);
      }
    }
  }

  lemma WithKeySingle<T>(x: (T, int), k: int)
    ensures WithKey([x], k) == if x.1 == k then [x] else []
  {
    assert [x][1..] == [];
  }

  lemma SortedTail<T>(s: seq<(T, int)>)
    requires SortedDesc(s) && |s| > 0
    ensures SortedDesc(s[1..])
  {
    forall i, j | 0 <= i < j < |s[1..]|
      ensures s[1..][i].1 >= s[1..][j].1
    {
      assert s[1..][i] == s[i + 1] && s[1..][j] == s[j + 1];
    }
  }

  /** `sorted(s, key=lambda p: p[1], reverse=True)`. */
  function SortDesc<T>(s: seq<(T, int)>): (r: seq<(T, int)>)
    ensures multiset(r) == multiset(s)
    ensures |r| == |s|
  {
    if |s| == 0 then []
    else
      assert s == s[..|s| - 1] + [s[|s| - 1]];
      InsertDesc(SortDesc(s[..|s| - 1]), s[|s| - 1])
  }

  /** The result is ordered by key, largest first, and pairs of equal key
      keep their relative order. */
  lemma {:induction false} SortDescCorrect<T>(s: seq<(T, int)>)
    ensures SortedDesc(SortDesc(s))
    ensures forall k :: WithKey(SortDesc(s), k) == WithKey(s, k)
  {
    if |s| > 0 {
      var init := s[..|s| - 1];
      var x := s[|s| - 1];
      SortDescCorrect(init);
      assert SortDesc(s) == InsertDesc(SortDesc(init), x);
      InsertDescSorted(SortDesc(init), x);
      forall k
        ensures WithKey(SortDesc(s), k) == WithKey(s, k)
      {
        SortDescStableStep(s, k);
      }
    }
  }

  /** One insertion step keeps each key's pairs in order, given that the
      sort of the front does. */
  lemma SortDescStableStep<T>(s: seq<(T, int)>, k: int)
    requires |s| > 0 && SortedDesc(SortDesc(s[..|s| - 1]))
    requires WithKey(SortDesc(s[..|s| - 1]), k) == WithKey(s[..|s| - 1], k)
    ensures WithKey(SortDesc(s), k) == WithKey(s, k)
  {
    var init, x := s[..|s| - 1], s[|s| - 1];
    assert SortDesc(s) == InsertDesc(SortDesc(init), x);
    InsertDescStable(SortDesc(init), x, k);
    assert s == init + [x];
    WithKeyAppend(init, [x], k);
  }

  /** Inserting a pair adds its item to the items. */
  lemma {:induction false} ItemsInsertDesc<T>(s: seq<(T, int)>, x: (T, int))
    ensures multiset(Items(InsertDesc(s, x))) == multiset(Items(s)) + multiset{x.0}
  {
    if |s| > 0 {
      if s[0].1 >= x.1 {
        var rest := InsertDesc(s[1..], x);
        assert multiset(Items(rest)) == multiset(Items(s[1..])) + multiset{x.0} by {
          ItemsInsertDesc(s[1..], x);
        }
        assert Items(InsertDesc(s, x)) == [s[0].0] + Items(rest) by {
          assert ([s[0]] + rest)[1..] == rest;
        }
        assert Items(s) == [s[0].0] + Items(s[1..]);
      } else {
        assert Items(InsertDesc(s, x)) == [x.0] + Items(s) by {
          assert ([x] + s)[1..] == s;
        }
      }
    }
  }

  /** Sorting the pairs rearranges their items. */
  lemma {:induction false} ItemsSortDesc<T>(s: seq<(T, int)>)
    ensures multiset(Items(SortDesc(s))) == multiset(Items(s))
  {
    if |s| > 0 {
      var init := s[..|s| - 1];
      var x := s[|s| - 1];
      assert multiset(Items(SortDesc(init))) == multiset(Items(init)) by {
        ItemsSortDesc(init);
      }
      ItemsSnoc(s);
      assert multiset(Items(SortDesc(s))) == multiset(Items(SortDesc(init))) + multiset{x.0} by {
        assert SortDesc(s) == InsertDesc(SortDesc(init), x);
        ItemsInsertDesc(SortDesc(init), x);
      }
    }
  }

  /** A pair whose key is at most every key of a sorted sequence goes to
      its end. */
  lemma {:induction false} InsertDescLast<T>(s: seq<(T, int)>, x: (T, int))
    requires forall i :: 0 <= i < |s| ==> s[i].1 >= x.1
    ensures InsertDesc(s, x) == s + [x]
  {
    if |s| > 0 {
      InsertDescLast(s[1..], x);
      assert s == [s[0]] + s[1..];
    }
  }

  /** Sorting an already sorted sequence leaves it as it is. */
  lemma {:induction false} SortDescSorted<T>(s: seq<(T, int)>)
    requires SortedDesc(s)
    ensures SortDesc(s) == s
  {
    if |s| > 0 {
      var init := s[..|s| - 1];
      var x := s[|s| - 1];
      assert SortedDesc(init);
      SortDescSorted(init);
      InsertDescLast(init, x);
      assert init + [x] == s;
    }
  }

  /** Sorting a sorted prefix together with more pairs is sorting it all at
      once. */
  lemma {:induction false} SortDescAgain<T>(a: seq<(T, int)>, b: seq<(T, int)>)
    ensures SortDesc(SortDesc(a) + b) == SortDesc(a + b)
    decreases |b|
  {
    if |b| == 0 {
      assert SortDesc(a) + b == SortDesc(a) && a + b == a;
      SortDescCorrect(a);
      SortDescSorted(SortDesc(a));
    } else {
      var b0 := b[..|b| - 1];
      var y := b[|b| - 1];
      SortDescAgain(a, b0);
      assert SortDesc(SortDesc(a) + b) == InsertDesc(SortDesc(SortDesc(a) + b0), y) by {
        SnocSplit(SortDesc(a), b);
        SortDescSnoc(SortDesc(a) + b0, y);
      }
      assert SortDesc(a + b) == InsertDesc(SortDesc(a + b0), y) by {
        SnocSplit(a, b);
        SortDescSnoc(a + b0, y);
      }
    }
  }

  /** Appending a non-empty sequence is appending its front, then its
      last element. */
  lemma SnocSplit<T>(a: seq<T>, b: seq<T>)
    requires |b| > 0
    ensures a + b == (a + b[..|b| - 1]) + [b[|b| - 1]]
  {
  }

  lemma SortDescSnoc<T>(s: seq<(T, int)>, y: (T, int))
    ensures SortDesc(s + [y]) == InsertDesc(SortDesc(s), y)
  {
    assert (s + [y])[..|s|] == s;
  }
}
