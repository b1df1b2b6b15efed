/** Order-preserving selection from a sequence: the model of a boolean-mask
    row filter `table[mask]`, which keeps the rows whose mask entry is true,
    in their original order and unchanged. */
module Sequences {

  /** The elements of `s` for which `keep` holds, in their original order. */
  function Filter<T(==)>(keep: T -> bool, s: seq<T>): (r: seq<T>)
    ensures |r| <= |s|
    ensures forall x :: x in r ==> x in s && keep(x)
  {
    if s == [] then []
    else Filter(keep, s[..|s| - 1]) + (if keep(s[|s| - 1]) then [s[|s| - 1]] else [])
  }

  /** The positions of `s` whose element satisfies `keep`, ascending. */
  function KeptIndices<T>(keep: T -> bool, s: seq<T>): seq<int>
  {
    if s == [] then []
    else KeptIndices(keep, s[..|s| - 1]) + (if keep(s[|s| - 1]) then [|s| - 1] else [])
  }

  ghost predicate StrictlyIncreasing(a: seq<int>)
  {
    forall j, k :: 0 <= j < k < |a| ==> a[j] < a[k]
  }

  /** `r` is `s` read at the strictly increasing positions `idx`, and `idx`
      holds exactly the positions of `s` whose element satisfies `keep`. */
  ghost predicate SelectionAt<T>(r: seq<T>, s: seq<T>, keep: T -> bool, idx: seq<int>)
  {
    && |idx| == |r|
    && StrictlyIncreasing(idx)
    && (forall j :: 0 <= j < |idx| ==> 0 <= idx[j] < |s| && r[j] == s[idx[j]])
    && (forall i :: 0 <= i < |s| ==> (keep(s[i]) <==> i in idx))
  }

  /** `r` is exactly the subsequence of `s` made of the elements that satisfy
      `keep`, in their original order, each one unchanged. */
  ghost predicate IsSelection<T>(r: seq<T>, s: seq<T>, keep: T -> bool)
  {
    exists idx :: SelectionAt(r, s, keep, idx)
  }

  lemma {:induction false} FilterSelectsAt<T>(keep: T -> bool, s: seq<T>)
    ensures SelectionAt(Filter(keep, s), s, keep, KeptIndices(keep, s))
  {
    if s != [] {
      var p := s[..|s| - 1];
      FilterSelectsAt(keep, p);
      assert forall i :: 0 <= i < |p| ==> s[i] == p[i];
    }
  }

  /** A mask filter keeps exactly the matching elements, in order. */
  lemma FilterSelects<T>(keep: T -> bool, s: seq<T>)
    ensures IsSelection(Filter(keep, s), s, keep)
  {
    FilterSelectsAt(keep, s);
  }

  lemma SharedElementsNonEmpty(a: seq<int>, b: seq<int>)
    requires forall x :: x in a <==> x in b
    ensures a != [] ==> b != []
  {
    if a != [] {
      var y := a[0];
      assert y in a;
      assert y in b;
    }
  }

  /** Past a shared first element, the elements of `a` are elements of `b`'s tail. */
  lemma TailInTail(a: seq<int>, b: seq<int>)
    requires StrictlyIncreasing(b)
    requires a != [] && b != [] && a[0] == b[0]
    requires StrictlyIncreasing(a)
    requires forall x :: x in a ==> x in b
    ensures forall x :: x in a[1..] ==> x in b[1..]
  {
    forall x | x in a[1..]
      ensures x in b[1..]
    {
      var k :| 0 <= k < |a[1..]| && a[1..][k] == x;
      assert a[k + 1] == x && x in a;
      var m :| 0 <= m < |b| && b[m] == x;
      assert b[1..][m - 1] == x;
    }
  }

  /** Two strictly increasing sequences with the same elements are equal. */
  lemma {:induction false} StrictlyIncreasingUnique(a: seq<int>, b: seq<int>)
    requires StrictlyIncreasing(a) && StrictlyIncreasing(b)
    requires forall x :: x in a <==> x in b
    ensures a == b
  {
    SharedElementsNonEmpty(a, b);
    SharedElementsNonEmpty(b, a);
    if a != [] {
      assert a[0] in a && b[0] in b;
      assert a[0] == b[0] by {
        var m :| 0 <= m < |b| && b[m] == a[0];
        var n :| 0 <= n < |a| && a[n] == b[0];
        assert b[0] <= b[m] && a[0] <= a[n];
      }
      TailInTail(a, b);
      TailInTail(b, a);
      StrictlyIncreasingUnique(a[1..], b[1..]);
      assert a == [a[0]] + a[1..] && b == [b[0]] + b[1..];
    }
  }

  /** The selection of `s` by `keep` is unique: the characterization pins down one sequence. */
  lemma SelectionUnique<T>(r1: seq<T>, r2: seq<T>, s: seq<T>, keep: T -> bool)
    requires IsSelection(r1, s, keep) && IsSelection(r2, s, keep)
    ensures r1 == r2
  {
    var idx1 :| SelectionAt(r1, s, keep, idx1);
    var idx2 :| SelectionAt(r2, s, keep, idx2);
    SelectionIndicesAgree(r1, r2, s, keep, idx1, idx2);
    StrictlyIncreasingUnique(idx1, idx2);
    assert forall j :: 0 <= j < |r1| ==> r1[j] == s[idx1[j]] == r2[j];
  }

  /** Two selections of `s` by `keep` pick the same positions. */
  lemma SelectionIndicesAgree<T>(r1: seq<T>, r2: seq<T>, s: seq<T>, keep: T -> bool, idx1: seq<int>, idx2: seq<int>)
    requires SelectionAt(r1, s, keep, idx1) && SelectionAt(r2, s, keep, idx2)
    ensures forall x :: x in idx1 <==> x in idx2
  {
    forall x
      ensures x in idx1 <==> x in idx2
    {
      if x in idx1 {
        var j :| 0 <= j < |idx1| && idx1[j] == x;
        assert keep(s[x]);
      }
      if x in idx2 {
        var j :| 0 <= j < |idx2| && idx2[j] == x;
        assert keep(s[x]);
      }
    }
  }

  /** A filter whose predicate no element meets yields the empty sequence. */
  lemma FilterNone<T>(keep: T -> bool, s: seq<T>)
    requires forall x :: x in s ==> !keep(x)
    ensures Filter(keep, s) == []
  {
  }

  /** A filter whose predicate every element meets yields the sequence itself. */
  lemma {:induction false} FilterAll<T>(keep: T -> bool, s: seq<T>)
    requires forall i :: 0 <= i < |s| ==> keep(s[i])
    ensures Filter(keep, s) == s
  {
    if s != [] {
      var p, last := s[..|s| - 1], s[|s| - 1];
      assert s == p + [last];
      assert forall i :: 0 <= i < |p| ==> p[i] == s[i];
      FilterAll(keep, p);
    }
  }

  /** Filtering by `f` and then by `g` is filtering once by their conjunction `h`. */
  lemma {:induction false} FilterFilter<T>(f: T -> bool, g: T -> bool, h: T -> bool, s: seq<T>)
    requires forall x :: h(x) == (f(x) && g(x))
    ensures Filter(g, Filter(f, s)) == Filter(h, s)
  {
    if s != [] {
      var p, last := s[..|s| - 1], s[|s| - 1];
      FilterFilter(f, g, h, p);
      var fp := Filter(f, p);
      if f(last) {
        assert Filter(f, s) == fp + [last];
        assert (fp + [last])[..|fp + [last]| - 1] == fp;
      } else {
        assert Filter(f, s) == fp;
      }
    }
  }

  /** A rejected first element leaves no trace in the filter. */
  lemma {:induction false} FilterRejectedHead<T>(keep: T -> bool, x: T, s: seq<T>)
    requires !keep(x)
    ensures Filter(keep, [x] + s) == Filter(keep, s)
  {
    if s != [] {
      var p := s[..|s| - 1];
      var last := s[|s| - 1];
      FilterRejectedHead(keep, x, p);
      var xs := [x] + s;
      assert xs[..|xs| - 1] == [x] + p && xs[|xs| - 1] == last;
      assert Filter(keep, xs) == Filter(keep, [x] + p) + (if keep(last) then [last] else []);
    }
  }
}
