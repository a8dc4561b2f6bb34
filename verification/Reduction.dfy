/** Dropping from a sorted list everything that an element kept before covers. */
module Reduction {
  import opened Sorting

  predicate CoveredByOne<T>(covers: (T, T) -> bool, roots: seq<T>, x: T) {
    exists i :: 0 <= i < |roots| && covers(roots[i], x)
  }

  /** The elements kept among the first `k`. */
  function Reduce<T>(covers: (T, T) -> bool, sorted: seq<T>, k: nat): seq<T>
    requires k <= |sorted|
  {
    if k == 0 then []
    else
      var roots := Reduce(covers, sorted, k - 1);
      if CoveredByOne(covers, roots, sorted[k - 1]) then roots else roots + [sorted[k - 1]]
  }

  function Roots<T>(covers: (T, T) -> bool, sorted: seq<T>): seq<T> {
    Reduce(covers, sorted, |sorted|)
  }

  /** Covering is a preorder on these elements, and what covers comes first in the sort order. */
  ghost predicate Lawful<T>(covers: (T, T) -> bool, le: (T, T) -> bool, elements: set<T>) {
    && (forall x :: x in elements ==> covers(x, x))
    && (forall x, y, z :: x in elements && y in elements && z in elements && covers(x, y) && covers(y, z) ==> covers(x, z))
    && (forall x, y :: x in elements && y in elements && covers(x, y) ==> le(x, y) && (le(y, x) ==> covers(y, x)))
  }

  ghost predicate Usable<T>(covers: (T, T) -> bool, le: (T, T) -> bool, sorted: seq<T>) {
    Sorted(le, sorted) && Lawful(covers, le, set x | x in sorted)
  }

  lemma {:induction false} ReduceKeeps<T(!new)>(covers: (T, T) -> bool, sorted: seq<T>, k: nat)
    requires k <= |sorted| && forall x :: x in sorted ==> covers(x, x)
    ensures forall i :: 0 <= i < k ==> CoveredByOne(covers, Reduce(covers, sorted, k), sorted[i])
    ensures forall i, j :: 0 <= i < j < |Reduce(covers, sorted, k)| ==> !covers(Reduce(covers, sorted, k)[i], Reduce(covers, sorted, k)[j])
  {
    if k > 0 {
      ReduceKeeps(covers, sorted, k - 1);
      var before, roots, x := Reduce(covers, sorted, k - 1), Reduce(covers, sorted, k), sorted[k - 1];
      forall i | 0 <= i < k ensures CoveredByOne(covers, roots, sorted[i]) {
        if i < k - 1 {
          var m :| 0 <= m < |before| && covers(before[m], sorted[i]);
          assert roots[m] == before[m];
        } else if !CoveredByOne(covers, before, x) {
          assert x in sorted && roots[|before|] == x;
        }
      }
    }
  }

  lemma {:induction false} ReduceIsSubsequence<T(!new)>(covers: (T, T) -> bool, le: (T, T) -> bool, sorted: seq<T>, k: nat)
    requires k <= |sorted| && Sorted(le, sorted)
    ensures forall r :: r in Reduce(covers, sorted, k) ==> r in sorted[..k]
    ensures Sorted(le, Reduce(covers, sorted, k))
  {
    if k > 0 {
      ReduceIsSubsequence(covers, le, sorted, k - 1);
      var before, x := Reduce(covers, sorted, k - 1), sorted[k - 1];
      assert sorted[..k] == sorted[..k - 1] + [x];
      forall i | 0 <= i < |before| ensures le(before[i], x) {
        assert before[i] in sorted[..k - 1];
        var m :| 0 <= m < k - 1 && sorted[..k - 1][m] == before[i];
        assert sorted[m] == before[i];
      }
    }
  }

  /** The roots cover every element, and none of them covers another. */
  lemma RootsCoverAndAreApart<T(!new)>(covers: (T, T) -> bool, le: (T, T) -> bool, sorted: seq<T>)
    requires Usable(covers, le, sorted)
    ensures forall r :: r in Roots(covers, sorted) ==> r in sorted
    ensures forall x :: x in sorted ==> CoveredByOne(covers, Roots(covers, sorted), x)
    ensures forall i, j :: 0 <= i < |Roots(covers, sorted)| && 0 <= j < |Roots(covers, sorted)| && i != j ==>
              !covers(Roots(covers, sorted)[i], Roots(covers, sorted)[j])
    ensures Sorted(le, Roots(covers, sorted))
  {
    var roots := Roots(covers, sorted);
    assert forall x :: x in sorted ==> x in set y | y in sorted;
    ReduceKeeps(covers, sorted, |sorted|);
    ReduceIsSubsequence(covers, le, sorted, |sorted|);
    assert sorted[..|sorted|] == sorted;
    forall x | x in sorted ensures CoveredByOne(covers, roots, x) {
      var i :| 0 <= i < |sorted| && sorted[i] == x;
    }
    forall i, j | 0 <= i < |roots| && 0 <= j < |roots| && i != j ensures !covers(roots[i], roots[j]) {
      if j < i {
        assert le(roots[j], roots[i]) && !covers(roots[j], roots[i]);
        assert roots[i] in roots && roots[j] in roots;
      }
    }
  }

  /** An element covers at most one root. */
  lemma RootAboveIsItself<T(!new)>(covers: (T, T) -> bool, le: (T, T) -> bool, sorted: seq<T>, c: T, i: nat, j: nat)
    requires Usable(covers, le, sorted) && c in sorted
    requires i < |Roots(covers, sorted)| && j < |Roots(covers, sorted)|
    requires covers(c, Roots(covers, sorted)[i]) && covers(c, Roots(covers, sorted)[j])
    ensures i == j
  {
    var roots := Roots(covers, sorted);
    RootsCoverAndAreApart(covers, le, sorted);
    var m :| 0 <= m < |roots| && covers(roots[m], c);
    var elements := set x | x in sorted;
    assert roots[m] in roots && roots[i] in roots && roots[j] in roots;
    assert roots[m] in elements && roots[i] in elements && roots[j] in elements && c in elements;
    assert covers(roots[m], roots[i]) && covers(roots[m], roots[j]);
  }

  ghost predicate CoveredFrom<T>(covers: (T, T) -> bool, cover: set<T>, x: T) {
    exists c :: c in cover && covers(c, x)
  }

  lemma {:induction false} PigeonHole<T(!new)>(covers: (T, T) -> bool, le: (T, T) -> bool, sorted: seq<T>, cover: set<T>, k: nat)
    requires Usable(covers, le, sorted) && k <= |Roots(covers, sorted)|
    requires forall c :: c in cover ==> c in sorted
    requires forall i :: 0 <= i < k ==> CoveredFrom(covers, cover, Roots(covers, sorted)[i])
    ensures |cover| >= k
  {
    var roots := Roots(covers, sorted);
    if k > 0 {
      var c :| c in cover && covers(c, roots[k - 1]);
      forall i | 0 <= i < k - 1 ensures CoveredFrom(covers, cover - {c}, roots[i]) {
        var d :| d in cover && covers(d, roots[i]);
        if d == c {
          RootAboveIsItself(covers, le, sorted, c, i, k - 1);
        }
        assert d in cover - {c};
      }
      PigeonHole(covers, le, sorted, cover - {c}, k - 1);
    }
  }

  /** No selection of elements that covers all of them is smaller. */
  lemma RootsAreFewest<T(!new)>(covers: (T, T) -> bool, le: (T, T) -> bool, sorted: seq<T>, cover: set<T>)
    requires Usable(covers, le, sorted)
    requires forall c :: c in cover ==> c in sorted
    requires forall x :: x in sorted ==> CoveredFrom(covers, cover, x)
    ensures |Roots(covers, sorted)| <= |cover|
  {
    var roots := Roots(covers, sorted);
    RootsCoverAndAreApart(covers, le, sorted);
    forall i | 0 <= i < |roots| ensures CoveredFrom(covers, cover, roots[i]) {
      assert roots[i] in roots;
      assert roots[i] in sorted;
    }
    PigeonHole(covers, le, sorted, cover, |roots|);
  }
}
