/**
 Following `next_offset` through pages that come from separate requests. Each request pages through a feed of its own:
 the database may put tied rows in another order every time.
 */
module Paging {
  import opened Sorting

  const MAX_LIMIT := 100

  ghost predicate Limits(limitAt: nat -> nat) {
    forall offset :: 1 <= limitAt(offset) <= MAX_LIMIT
  }

  ghost predicate AllOfLength<T>(feedAt: nat -> seq<T>, total: nat) {
    forall offset :: |feedAt(offset)| == total
  }

  /** What a client collects from `offset` on, when the request at each offset pages through `feedAt(offset)`. */
  ghost function Collect<T>(feedAt: nat -> seq<T>, total: nat, offset: nat, limitAt: nat -> nat): seq<T>
    requires Limits(limitAt) && AllOfLength(feedAt, total)
    decreases total - offset
  {
    var page := Slice(feedAt(offset), offset, limitAt(offset));
    if offset + |page| < total then page + Collect(feedAt, total, offset + |page|, limitAt) else page
  }

  /** With the same feed at every offset, the client collects the rest of it, whatever the limits. */
  lemma {:induction false} CollectsTheFeed<T>(feedAt: nat -> seq<T>, feed: seq<T>, offset: nat, limitAt: nat -> nat)
    requires Limits(limitAt) && AllOfLength(feedAt, |feed|) && offset <= |feed| && forall o :: feedAt(o) == feed
    ensures Collect(feedAt, |feed|, offset, limitAt) == feed[offset..]
    decreases |feed| - offset
  {
    var page := Slice(feedAt(offset), offset, limitAt(offset));
    if offset + |page| < |feed| {
      CollectsTheFeed(feedAt, feed, offset + |page|, limitAt);
    }
  }

  /** With one row a page, the row at each offset comes from the feed of that offset. */
  lemma {:induction false} CollectsOneByOne<T>(feedAt: nat -> seq<T>, total: nat, offset: nat, limitAt: nat -> nat)
    requires Limits(limitAt) && AllOfLength(feedAt, total) && offset <= total && forall o :: limitAt(o) == 1
    ensures |Collect(feedAt, total, offset, limitAt)| == total - offset
    ensures forall i :: offset <= i < total ==> Collect(feedAt, total, offset, limitAt)[i - offset] == feedAt(i)[i]
    decreases total - offset
  {
    if offset < total {
      assert Slice(feedAt(offset), offset, 1) == [feedAt(offset)[offset]];
      if offset + 1 < total {
        CollectsOneByOne(feedAt, total, offset + 1, limitAt);
      }
    }
  }

  ghost predicate Family<T>(allowed: seq<T> -> bool, total: nat, feedAt: nat -> seq<T>) {
    AllOfLength(feedAt, total) && forall offset :: allowed(feedAt(offset))
  }

  ghost predicate CollectsExactly<T>(feedAt: nat -> seq<T>, total: nat, limitAt: nat -> nat, shown: multiset<T>)
    requires Limits(limitAt) && AllOfLength(feedAt, total)
  {
    multiset(Collect(feedAt, total, 0, limitAt)) == shown
  }

  /** Whatever feeds the requests meet and whatever the limits: the client collects each row exactly once. */
  ghost predicate AlwaysOnce<T(!new)>(allowed: seq<T> -> bool, total: nat, shown: multiset<T>) {
    forall feedAt: nat -> seq<T>, limitAt: nat -> nat :: Family(allowed, total, feedAt) && Limits(limitAt) ==>
      CollectsExactly(feedAt, total, limitAt, shown)
  }

  ghost predicate Determined<T(!new)>(allowed: seq<T> -> bool) {
    forall f, g :: allowed(f) && allowed(g) ==> f == g
  }

  lemma SwapOneIn<T>(f: seq<T>, p: nat, x: T)
    requires p < |f| && x != f[p]
    ensures multiset(f[p := x]) != multiset(f)
  {
    assert f == f[..p] + [f[p]] + f[p + 1..];
    assert f[p := x] == f[..p] + [x] + f[p + 1..];
    assert multiset(f)[x] == multiset(f[..p])[x] + multiset(f[p + 1..])[x];
  }

  /** A client that gets the row at `p` from another feed. */
  function Spliced<T>(f: seq<T>, g: seq<T>, p: nat): nat -> seq<T> {
    (o: nat) => if o == p then g else f
  }

  function OneRow(): nat -> nat {
    (o: nat) => 1
  }

  lemma CollectsSpliced<T>(f: seq<T>, g: seq<T>, p: nat)
    requires |f| == |g| && p < |f|
    ensures AllOfLength(Spliced(f, g, p), |f|) && Limits(OneRow())
    ensures Collect(Spliced(f, g, p), |f|, 0, OneRow()) == f[p := g[p]]
  {
    CollectsDiagonal(Spliced(f, g, p), |f|, OneRow());
  }

  lemma CollectsDiagonal<T>(feedAt: nat -> seq<T>, total: nat, limitAt: nat -> nat)
    requires Limits(limitAt) && AllOfLength(feedAt, total) && forall o :: limitAt(o) == 1
    ensures |Collect(feedAt, total, 0, limitAt)| == total
    ensures forall i :: 0 <= i < total ==> Collect(feedAt, total, 0, limitAt)[i] == feedAt(i)[i]
  {
    CollectsOneByOne(feedAt, total, 0, limitAt);
    var collected := Collect(feedAt, total, 0, limitAt);
    forall i | 0 <= i < total ensures collected[i] == feedAt(i)[i] {
      assert collected[i - 0] == feedAt(i)[i];
    }
  }

  /** Two different feeds of the same length: a client that gets one of its pages from the other collects a row wrongly. */
  lemma DifferentFeedsMislead<T(!new)>(allowed: seq<T> -> bool, total: nat, shown: multiset<T>, f: seq<T>, g: seq<T>)
    requires allowed(f) && allowed(g) && |f| == |g| == total && multiset(f) == shown && f != g
    ensures !AlwaysOnce(allowed, total, shown)
  {
    var p :| 0 <= p < total && f[p] != g[p];
    CollectsSpliced(f, g, p);
    SwapOneIn(f, p, g[p]);
    var feedAt: nat -> seq<T> := Spliced(f, g, p);
    assert Family(allowed, total, feedAt) && Limits(OneRow()) && !CollectsExactly(feedAt, total, OneRow(), shown);
  }

  /** A client always collects each row exactly once if and only if all requests meet the same feed. */
  lemma AlwaysOnceIffDetermined<T(!new)>(allowed: seq<T> -> bool, total: nat, shown: multiset<T>)
    requires forall f :: allowed(f) ==> |f| == total && multiset(f) == shown
    ensures AlwaysOnce(allowed, total, shown) <==> Determined(allowed)
  {
    if Determined(allowed) {
      forall feedAt: nat -> seq<T>, limitAt: nat -> nat | Family(allowed, total, feedAt) && Limits(limitAt)
        ensures CollectsExactly(feedAt, total, limitAt, shown)
      {
        var feed := feedAt(0);
        forall o ensures feedAt(o) == feed {
        }
        CollectsTheFeed(feedAt, feed, 0, limitAt);
        assert feed[0..] == feed;
      }
    } else {
      var f, g :| allowed(f) && allowed(g) && f != g;
      DifferentFeedsMislead(allowed, total, shown, f, g);
    }
  }

  // ---- Which feeds a request can meet ----

  /** The merge of a sorted arrangement of `xs` with the elements of `ys` in any order. */
  ghost predicate MayMerge<T(!new)>(le: (T, T) -> bool, xs: seq<T>, ys: seq<T>, feed: seq<T>) {
    exists d, m :: Merges(le, xs, ys, d, m, feed)
  }

  ghost predicate Merges<T>(le: (T, T) -> bool, xs: seq<T>, ys: seq<T>, d: seq<T>, m: seq<T>, feed: seq<T>) {
    multiset(d) == multiset(xs) && Sorted(le, d) && multiset(m) == multiset(ys) && feed == Sort(le, d + m)
  }

  function Filter<T>(p: T -> bool, s: seq<T>): seq<T> {
    if s == [] then [] else (if p(s[0]) then [s[0]] else []) + Filter(p, s[1..])
  }

  lemma {:induction false} FilterNone<T>(p: T -> bool, s: seq<T>)
    requires forall x :: x in s ==> !p(x)
    ensures Filter(p, s) == []
  {
    if s != [] {
      FilterNone(p, s[1..]);
    }
  }

  lemma {:induction false} FilterAll<T>(p: T -> bool, s: seq<T>)
    requires forall x :: x in s ==> p(x)
    ensures Filter(p, s) == s
  {
    if s != [] {
      FilterAll(p, s[1..]);
      assert s == [s[0]] + s[1..];
    }
  }

  lemma FilterCons<T>(p: T -> bool, x: T, s: seq<T>)
    ensures Filter(p, [x] + s) == (if p(x) then [x] else []) + Filter(p, s)
  {
    assert ([x] + s)[1..] == s;
  }

  /** A merge keeps both streams. */
  lemma {:induction false} FilterMerge<T>(p: T -> bool, le: (T, T) -> bool, s: seq<T>, t: seq<T>)
    requires (forall x :: x in s ==> p(x)) && (forall x :: x in t ==> !p(x))
    ensures Filter(p, Merge(le, s, t)) == s
    decreases |s| + |t|
  {
    if s == [] {
      FilterNone(p, t);
    } else if t == [] {
      FilterAll(p, s);
    } else if le(s[0], t[0]) {
      FilterMerge(p, le, s[1..], t);
      FilterCons(p, s[0], Merge(le, s[1..], t));
      assert s == [s[0]] + s[1..];
    } else {
      FilterMerge(p, le, s, t[1..]);
      FilterCons(p, t[0], Merge(le, s, t[1..]));
      assert t[0] in t;
    }
  }

  lemma {:induction false} FilterMergeOther<T>(p: T -> bool, le: (T, T) -> bool, s: seq<T>, t: seq<T>)
    requires (forall x :: x in s ==> !p(x)) && (forall x :: x in t ==> p(x))
    ensures Filter(p, Merge(le, s, t)) == t
    decreases |s| + |t|
  {
    if s == [] {
      FilterAll(p, t);
    } else if t == [] {
      FilterNone(p, s);
    } else if le(s[0], t[0]) {
      FilterMergeOther(p, le, s[1..], t);
      FilterCons(p, s[0], Merge(le, s[1..], t));
      assert s[0] in s;
    } else {
      FilterMergeOther(p, le, s, t[1..]);
      FilterCons(p, t[0], Merge(le, s, t[1..]));
      assert t == [t[0]] + t[1..];
    }
  }

  lemma SameMembers<T>(s: seq<T>, t: seq<T>)
    requires multiset(s) == multiset(t)
    ensures forall x :: x in s <==> x in t
  {
    forall x ensures x in s <==> x in t {
      assert x in s <==> x in multiset(s);
      assert x in t <==> x in multiset(t);
    }
  }

  /** Two tied elements of a sorted list change places. */
  lemma TiesChangePlaces<T(!new)>(le: (T, T) -> bool, s: seq<T>, i: nat, j: nat)
    requires TotalPreorder(le) && Sorted(le, s) && i < j < |s| && le(s[j], s[i])
    ensures var t := s[i := s[j]][j := s[i]];
            Sorted(le, t) && multiset(t) == multiset(s)
  {
    var t := s[i := s[j]][j := s[i]];
    SwapKeepsElements(s, i, j);
    forall k, m | 0 <= k < m < |t| ensures le(t[k], t[m]) {
      TiedPair(le, s, i, j, k, m);
    }
  }

  lemma SwapKeepsElements<T>(s: seq<T>, i: nat, j: nat)
    requires i < j < |s|
    ensures multiset(s[i := s[j]][j := s[i]]) == multiset(s)
  {
    var before, between, after := s[..i], s[i + 1..j], s[j + 1..];
    assert s == before + [s[i]] + between + [s[j]] + after;
    assert s[i := s[j]][j := s[i]] == before + [s[j]] + between + [s[i]] + after;
  }

  lemma TiedPair<T(!new)>(le: (T, T) -> bool, s: seq<T>, i: nat, j: nat, k: nat, m: nat)
    requires TotalPreorder(le) && Sorted(le, s) && i < j < |s| && le(s[j], s[i]) && k < m < |s|
    ensures le(s[i := s[j]][j := s[i]][k], s[i := s[j]][j := s[i]][m])
  {
    var t := s[i := s[j]][j := s[i]];
    assert le(t[k], s[k]) by {
      assert k == i ==> t[k] == s[j];
      assert k == j ==> t[k] == s[i];
      assert le(s[k], s[k]);
    }
    assert le(s[m], t[m]) by {
      assert le(s[m], s[m]);
    }
    assert le(s[k], s[m]);
  }

  /** With a tie there are two sorted arrangements. */
  lemma TieHasTwoArrangements<T(!new)>(le: (T, T) -> bool, xs: seq<T>) returns (s: seq<T>, t: seq<T>)
    requires TotalPreorder(le) && !Tieless(le, xs)
    ensures Sorted(le, s) && Sorted(le, t) && multiset(s) == multiset(xs) == multiset(t) && s != t
  {
    var a, b :| a in multiset(xs) && b in multiset(xs) && le(a, b) && le(b, a) && a != b;
    SortSorts(le, xs);
    s := Sort(le, xs);
    assert a in multiset(s) && b in multiset(s);
    var i :| 0 <= i < |s| && s[i] == a;
    var j :| 0 <= j < |s| && s[j] == b;
    t := OtherArrangement(le, s, i, j);
  }

  lemma OtherArrangement<T(!new)>(le: (T, T) -> bool, s: seq<T>, i: nat, j: nat) returns (t: seq<T>)
    requires TotalPreorder(le) && Sorted(le, s) && i < |s| && j < |s| && s[i] != s[j] && le(s[i], s[j]) && le(s[j], s[i])
    ensures Sorted(le, t) && multiset(t) == multiset(s) && t != s
  {
    var p, q := if i < j then i else j, if i < j then j else i;
    TiesChangePlaces(le, s, p, q);
    t := s[p := s[q]][q := s[p]];
    assert t[p] != s[p];
  }

  ghost predicate Kinds<T>(kind: T -> bool, xs: seq<T>, ys: seq<T>) {
    (forall x :: x in xs ==> kind(x)) && (forall y :: y in ys ==> !kind(y))
  }

  lemma MergeIsDetermined<T(!new)>(le: (T, T) -> bool, xs: seq<T>, ys: seq<T>, d: seq<T>, m: seq<T>, f: seq<T>, e: seq<T>, n: seq<T>, g: seq<T>)
    requires TotalPreorder(le) && Tieless(le, xs) && Tieless(le, ys)
    requires Merges(le, xs, ys, d, m, f) && Merges(le, xs, ys, e, n, g)
    ensures f == g
  {
    SortedArrangementIsUnique(le, d, e);
    SortSorts(le, m);
    SortSorts(le, n);
    SortedArrangementIsUnique(le, Sort(le, m), Sort(le, n));
    SortAppendIsMerge(le, d, m);
    SortAppendIsMerge(le, e, n);
  }

  lemma TieInSortedStream<T(!new)>(le: (T, T) -> bool, xs: seq<T>, ys: seq<T>, kind: T -> bool) returns (f: seq<T>, g: seq<T>)
    requires TotalPreorder(le) && Kinds(kind, xs, ys) && !Tieless(le, xs)
    ensures MayMerge(le, xs, ys, f) && MayMerge(le, xs, ys, g) && f != g
  {
    var s, t := TieHasTwoArrangements(le, xs);
    f, g := Sort(le, s + ys), Sort(le, t + ys);
    assert Merges(le, xs, ys, s, ys, f) && Merges(le, xs, ys, t, ys, g);
    SortAppendIsMerge(le, s, ys);
    SortAppendIsMerge(le, t, ys);
    SortSorts(le, ys);
    SameMembers(Sort(le, ys), ys);
    SameMembers(s, xs);
    SameMembers(t, xs);
    FilterMerge(kind, le, s, Sort(le, ys));
    FilterMerge(kind, le, t, Sort(le, ys));
  }

  lemma TieInOtherStream<T(!new)>(le: (T, T) -> bool, xs: seq<T>, ys: seq<T>, kind: T -> bool) returns (f: seq<T>, g: seq<T>)
    requires TotalPreorder(le) && Kinds(kind, xs, ys) && !Tieless(le, ys)
    ensures MayMerge(le, xs, ys, f) && MayMerge(le, xs, ys, g) && f != g
  {
    var s, t := TieHasTwoArrangements(le, ys);
    SortSorts(le, xs);
    var d := Sort(le, xs);
    f, g := Sort(le, d + s), Sort(le, d + t);
    assert Merges(le, xs, ys, d, s, f) && Merges(le, xs, ys, d, t, g);
    SortAppendIsMerge(le, d, s);
    SortAppendIsMerge(le, d, t);
    SortOfSorted(le, s);
    SortOfSorted(le, t);
    SameMembers(d, xs);
    SameMembers(s, ys);
    SameMembers(t, ys);
    FilterMergeOther(x => !kind(x), le, d, s);
    FilterMergeOther(x => !kind(x), le, d, t);
  }

  ghost function Merged<T(!new)>(le: (T, T) -> bool, xs: seq<T>, ys: seq<T>): seq<T> -> bool {
    (feed: seq<T>) => MayMerge(le, xs, ys, feed)
  }

  /** All requests meet the same feed if and only if no two different elements of the same stream tie. */
  lemma DeterminedIffTieless<T(!new)>(le: (T, T) -> bool, xs: seq<T>, ys: seq<T>, kind: T -> bool)
    requires TotalPreorder(le) && Kinds(kind, xs, ys)
    ensures Determined(Merged(le, xs, ys)) <==> Tieless(le, xs) && Tieless(le, ys)
  {
    if Tieless(le, xs) && Tieless(le, ys) {
      forall f, g | MayMerge(le, xs, ys, f) && MayMerge(le, xs, ys, g) ensures f == g {
        var d, m :| Merges(le, xs, ys, d, m, f);
        var e, n :| Merges(le, xs, ys, e, n, g);
        MergeIsDetermined(le, xs, ys, d, m, f, e, n, g);
      }
    } else if !Tieless(le, xs) {
      var f, g := TieInSortedStream(le, xs, ys, kind);
      assert Merged(le, xs, ys)(f) && Merged(le, xs, ys)(g);
    } else {
      var f, g := TieInOtherStream(le, xs, ys, kind);
      assert Merged(le, xs, ys)(f) && Merged(le, xs, ys)(g);
    }
  }

  /** Every such feed has the elements of both streams. */
  lemma MergeHasAll<T(!new)>(le: (T, T) -> bool, xs: seq<T>, ys: seq<T>, feed: seq<T>)
    requires TotalPreorder(le) && MayMerge(le, xs, ys, feed)
    ensures multiset(feed) == multiset(xs + ys) && |feed| == |xs + ys|
  {
    var d, m :| Merges(le, xs, ys, d, m, feed);
    SortSorts(le, d + m);
    assert multiset(d + m) == multiset(xs + ys);
    assert |multiset(feed)| == |multiset(xs + ys)|;
  }

  /**
   A client collects each element of both streams exactly once, whatever its requests meet, if and only if no two
   different elements of the same stream tie.
   */
  lemma AlwaysOnceIffTieless<T(!new)>(le: (T, T) -> bool, xs: seq<T>, ys: seq<T>, kind: T -> bool)
    requires TotalPreorder(le) && Kinds(kind, xs, ys)
    ensures AlwaysOnce(Merged(le, xs, ys), |xs + ys|, multiset(xs + ys)) <==> Tieless(le, xs) && Tieless(le, ys)
  {
    forall feed | Merged(le, xs, ys)(feed) ensures |feed| == |xs + ys| && multiset(feed) == multiset(xs + ys) {
      MergeHasAll(le, xs, ys, feed);
    }
    AlwaysOnceIffDetermined(Merged(le, xs, ys), |xs + ys|, multiset(xs + ys));
    DeterminedIffTieless(le, xs, ys, kind);
  }
}
