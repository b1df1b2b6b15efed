/** Sorting by an integer key, the model of Python's `sorted` and of a pandas
    `sort_values`. Insertion from the back keeps equal keys in input order. */
module Sorting {

  ghost predicate SortedBy<T>(s: seq<T>, key: T -> int)
  {
    forall i, j :: 0 <= i < j < |s| ==> key(s[i]) <= key(s[j])
  }

  /** `s` with `x` inserted after the last element whose key is at most `x`'s. */
  function InsertBy<T(==)>(x: T, s: seq<T>, key: T -> int): (r: seq<T>)
    requires SortedBy(s, key)
    ensures SortedBy(r, key)
    ensures multiset(r) == multiset(s) + multiset{x}
    ensures |r| == |s| + 1
  {
    if s == [] || key(s[|s| - 1]) <= key(x) then
      AppendMaximal(s, x, key);
      s + [x]
    else
      var p, last := s[..|s| - 1], s[|s| - 1];
      assert s == p + [last];
      var q := InsertBy(x, p, key);
      InsertedBelow(x, p, last, q, key);
      AppendMaximal(q, last, key);
      q + [last]
  }

  lemma AppendMaximal<T>(s: seq<T>, x: T, key: T -> int)
    requires SortedBy(s, key)
    requires forall i :: 0 <= i < |s| ==> key(s[i]) <= key(x)
    ensures SortedBy(s + [x], key)
  {
  }

  /** Every element of `q`, which holds `p` and `x`, has a key at most `last`'s. */
  lemma InsertedBelow<T>(x: T, p: seq<T>, last: T, q: seq<T>, key: T -> int)
    requires SortedBy(p + [last], key) && key(x) < key(last)
    requires multiset(q) == multiset(p) + multiset{x}
    ensures forall i :: 0 <= i < |q| ==> key(q[i]) <= key(last)
  {
    forall i | 0 <= i < |q|
      ensures key(q[i]) <= key(last)
    {
      assert q[i] in multiset(q);
      if q[i] != x {
        assert q[i] in multiset(p);
        var k :| 0 <= k < |p| && p[k] == q[i];
        assert (p + [last])[k] == q[i] && (p + [last])[|p|] == last;
      }
    }
  }

  /** The elements of `s` in ascending order of `key`. */
  function SortBy<T(==)>(s: seq<T>, key: T -> int): (r: seq<T>)
    ensures SortedBy(r, key)
    ensures |r| == |s|
  {
    if s == [] then []
    else
      var p, last := s[..|s| - 1], s[|s| - 1];
      assert s == p + [last];
      InsertBy(last, SortBy(p, key), key)
  }

  /** Sorting only reorders: the result is a permutation of the input. */
  lemma {:induction false} SortByPermutes<T>(s: seq<T>, key: T -> int)
    ensures multiset(SortBy(s, key)) == multiset(s)
  {
    if s != [] {
      var p := s[..|s| - 1];
      SortByPermutes(p, key);
      assert s == p + [s[|s| - 1]];
    }
  }

  /** Sorting an already sorted sequence changes nothing. */
  lemma {:induction false} SortBySorted<T>(s: seq<T>, key: T -> int)
    requires SortedBy(s, key)
    ensures SortBy(s, key) == s
  {
    if s != [] {
      var p, last := s[..|s| - 1], s[|s| - 1];
      assert s == p + [last];
      PrefixSorted(p, last, key);
      SortBySorted(p, key);
      assert SortBy(s, key) == InsertBy(last, p, key);
    }
  }

  /** An element below every key of a sorted sequence goes to its front. */
  lemma {:induction false} InsertBySmallest<T>(x: T, s: seq<T>, key: T -> int)
    requires SortedBy(s, key)
    requires forall i :: 0 <= i < |s| ==> key(x) < key(s[i])
    ensures InsertBy(x, s, key) == [x] + s
  {
    if s != [] {
      var p, last := s[..|s| - 1], s[|s| - 1];
      assert s == p + [last];
      PrefixSorted(p, last, key);
      assert key(x) < key(last);
      assert InsertBy(x, s, key) == InsertBy(x, p, key) + [last];
      assert forall i :: 0 <= i < |p| ==> p[i] == s[i];
      InsertBySmallest(x, p, key);
      assert [x] + s == ([x] + p) + [last];
    }
  }

  lemma PrefixSorted<T>(p: seq<T>, last: T, key: T -> int)
    requires SortedBy(p + [last], key)
    ensures SortedBy(p, key)
  {
    forall i, j | 0 <= i < j < |p|
      ensures key(p[i]) <= key(p[j])
    {
      assert p[i] == (p + [last])[i] && p[j] == (p + [last])[j];
    }
  }

  /** A sorted sequence followed by an element below all of it sorts to that element first. */
  lemma SortBySmallestLast<T>(s: seq<T>, x: T, key: T -> int)
    requires SortedBy(s, key)
    requires forall i :: 0 <= i < |s| ==> key(x) < key(s[i])
    ensures SortBy(s + [x], key) == [x] + s
  {
    assert (s + [x])[..|s|] == s;
    SortBySorted(s, key);
    InsertBySmallest(x, s, key);
  }
}
