/** Stable sorting, as `list.sort` and `sorted` promise it, and what a page of a sorted list needs. */
module Sorting {

  ghost predicate TotalPreorder<T(!new)>(le: (T, T) -> bool) {
    && (forall a, b :: le(a, b) || le(b, a))
    && (forall a, b, c :: le(a, b) && le(b, c) ==> le(a, c))
  }

  ghost predicate Sorted<T>(le: (T, T) -> bool, s: seq<T>) {
    forall i, j :: 0 <= i < j < |s| ==> le(s[i], s[j])
  }

  /** Puts `x` before the first element it may precede, so before its equals. */
  function Insert<T>(le: (T, T) -> bool, x: T, s: seq<T>): seq<T> {
    if s == [] then [x]
    else if le(x, s[0]) then [x] + s
    else [s[0]] + Insert(le, x, s[1..])
  }

  function Sort<T>(le: (T, T) -> bool, s: seq<T>): seq<T> {
    if s == [] then [] else Insert(le, s[0], Sort(le, s[1..]))
  }

  /** The elements of `s` that sort equal to `x`, in the order of `s`. */
  function Class<T>(le: (T, T) -> bool, x: T, s: seq<T>): seq<T> {
    if s == [] then []
    else (if le(x, s[0]) && le(s[0], x) then [s[0]] else []) + Class(le, x, s[1..])
  }

  /** `first` decides, `second` breaks its ties. */
  function Lex<T>(first: (T, T) -> bool, second: (T, T) -> bool): (T, T) -> bool {
    (a, b) => first(a, b) && (first(b, a) ==> second(a, b))
  }

  function Merge<T>(le: (T, T) -> bool, s: seq<T>, t: seq<T>): seq<T>
    decreases |s| + |t|
  {
    if s == [] then t
    else if t == [] then s
    else if le(s[0], t[0]) then [s[0]] + Merge(le, s[1..], t)
    else [t[0]] + Merge(le, s, t[1..])
  }

  /** Python's `s[:n]`. */
  function Take<T>(s: seq<T>, n: nat): seq<T> {
    if n <= |s| then s[..n] else s
  }

  /** Python's `s[offset:offset + limit]`, and SQL `OFFSET offset LIMIT limit`. */
  function Slice<T>(s: seq<T>, offset: nat, limit: nat): seq<T> {
    if |s| <= offset then [] else Take(s[offset..], limit)
  }

  // ---- Insertion and sorting ----

  lemma ConsSorted<T(!new)>(le: (T, T) -> bool, x: T, s: seq<T>)
    requires Sorted(le, s)
    requires forall k :: 0 <= k < |s| ==> le(x, s[k])
    ensures Sorted(le, [x] + s)
  {
  }

  lemma {:induction false} InsertSorts<T(!new)>(le: (T, T) -> bool, x: T, s: seq<T>)
    requires TotalPreorder(le) && Sorted(le, s)
    ensures Sorted(le, Insert(le, x, s))
    ensures multiset(Insert(le, x, s)) == multiset(s) + multiset{x}
  {
    if s == [] {
    } else if le(x, s[0]) {
      forall k | 0 <= k < |s| ensures le(x, s[k]) {
        assert k > 0 ==> le(s[0], s[k]);
      }
      ConsSorted(le, x, s);
    } else {
      assert s == [s[0]] + s[1..];
      InsertSorts(le, x, s[1..]);
      var r := Insert(le, x, s[1..]);
      forall k | 0 <= k < |r| ensures le(s[0], r[k]) {
        assert r[k] in multiset(r);
        assert r[k] == x || r[k] in s[1..];
      }
      ConsSorted(le, s[0], r);
    }
  }

  lemma {:induction false} SortSorts<T(!new)>(le: (T, T) -> bool, s: seq<T>)
    requires TotalPreorder(le)
    ensures Sorted(le, Sort(le, s))
    ensures multiset(Sort(le, s)) == multiset(s)
  {
    if s != [] {
      SortSorts(le, s[1..]);
      InsertSorts(le, s[0], Sort(le, s[1..]));
      assert s == [s[0]] + s[1..];
    }
  }

  lemma SortLength<T(!new)>(le: (T, T) -> bool, s: seq<T>)
    requires TotalPreorder(le)
    ensures |Sort(le, s)| == |s|
  {
    SortSorts(le, s);
    assert |multiset(Sort(le, s))| == |multiset(s)|;
  }

  lemma ClassOfCons<T(!new)>(le: (T, T) -> bool, y: T, x: T, s: seq<T>)
    ensures Class(le, y, [x] + s) == (if le(y, x) && le(x, y) then [x] else []) + Class(le, y, s)
  {
    assert ([x] + s)[1..] == s;
  }

  lemma NotBothInClass<T(!new)>(le: (T, T) -> bool, y: T, x: T, z: T)
    requires TotalPreorder(le) && !le(x, z)
    ensures !(le(x, y) && le(y, z))
  {
  }

  lemma {:induction false} InsertKeepsClass<T(!new)>(le: (T, T) -> bool, y: T, x: T, s: seq<T>)
    requires TotalPreorder(le)
    ensures Class(le, y, Insert(le, x, s)) == Class(le, y, [x] + s)
  {
    if s != [] && !le(x, s[0]) {
      InsertKeepsClass(le, y, x, s[1..]);
      NotBothInClass(le, y, x, s[0]);
      ClassOfCons(le, y, s[0], Insert(le, x, s[1..]));
      ClassOfCons(le, y, x, s[1..]);
      ClassOfCons(le, y, x, s);
    }
  }

  /** Sorting is stable: equal elements keep their order. */
  lemma {:induction false} SortIsStable<T(!new)>(le: (T, T) -> bool, y: T, s: seq<T>)
    requires TotalPreorder(le)
    ensures Class(le, y, Sort(le, s)) == Class(le, y, s)
  {
    if s != [] {
      SortIsStable(le, y, s[1..]);
      InsertKeepsClass(le, y, s[0], Sort(le, s[1..]));
      assert ([s[0]] + Sort(le, s[1..]))[1..] == Sort(le, s[1..]);
    }
  }

  lemma {:induction false} ClassHasOnlyMembers<T(!new)>(le: (T, T) -> bool, x: T, s: seq<T>)
    ensures forall e :: e in Class(le, x, s) <==> e in s && le(x, e) && le(e, x)
  {
    if s != [] {
      ClassHasOnlyMembers(le, x, s[1..]);
      assert s == [s[0]] + s[1..];
    }
  }

  lemma ClassHead<T(!new)>(le: (T, T) -> bool, s: seq<T>)
    requires TotalPreorder(le) && s != []
    ensures Class(le, s[0], s) != [] && Class(le, s[0], s)[0] == s[0]
    ensures Class(le, s[0], s)[1..] == Class(le, s[0], s[1..])
  {
  }

  lemma ClassCons<T(!new)>(le: (T, T) -> bool, x: T, s: seq<T>)
    requires s != []
    ensures var head := if le(x, s[0]) && le(s[0], x) then [s[0]] else [];
            Class(le, x, s[1..]) == Class(le, x, s)[|head|..]
  {
  }

  /** A sorted list is determined by the order it keeps within each class of equals. */
  lemma {:induction false} StableSortIsUnique<T(!new)>(le: (T, T) -> bool, s: seq<T>, t: seq<T>)
    requires TotalPreorder(le) && Sorted(le, s) && Sorted(le, t)
    requires forall x :: Class(le, x, s) == Class(le, x, t)
    ensures s == t
  {
    if s == [] {
      if t != [] {
        ClassHead(le, t);
      }
    } else {
      ClassHead(le, s);
      ClassHasOnlyMembers(le, s[0], t);
      assert s[0] in Class(le, s[0], t);
      ClassHead(le, t);
      ClassHasOnlyMembers(le, t[0], s);
      assert t[0] in Class(le, t[0], s);
      var i :| 0 <= i < |s| && s[i] == t[0];
      var j :| 0 <= j < |t| && t[j] == s[0];
      assert le(s[0], t[0]) && le(t[0], s[0]);
      assert Class(le, s[0], t)[0] == t[0];
      assert s[0] == t[0];
      forall x ensures Class(le, x, s[1..]) == Class(le, x, t[1..]) {
        assert Class(le, x, s) == Class(le, x, t);
        ClassCons(le, x, s);
        ClassCons(le, x, t);
      }
      StableSortIsUnique(le, s[1..], t[1..]);
      assert s == [s[0]] + s[1..] && t == [t[0]] + t[1..];
    }
  }

  lemma SortOfSorted<T(!new)>(le: (T, T) -> bool, s: seq<T>)
    requires TotalPreorder(le) && Sorted(le, s)
    ensures Sort(le, s) == s
  {
    SortSorts(le, s);
    forall x ensures Class(le, x, Sort(le, s)) == Class(le, x, s) {
      SortIsStable(le, x, s);
    }
    StableSortIsUnique(le, Sort(le, s), s);
  }

  // ---- Two stable sorts in a row ----

  lemma LexIsTotalPreorder<T(!new)>(first: (T, T) -> bool, second: (T, T) -> bool)
    requires TotalPreorder(first) && TotalPreorder(second)
    ensures TotalPreorder(Lex(first, second))
  {
    var lex := Lex(first, second);
    forall a, b, c | lex(a, b) && lex(b, c) ensures lex(a, c) {
      assert first(a, c);
      if first(c, a) {
        assert first(b, a) && first(c, b);
      }
    }
  }

  lemma {:induction false} LexClass<T(!new)>(first: (T, T) -> bool, second: (T, T) -> bool, x: T, s: seq<T>)
    ensures Class(Lex(first, second), x, s) == Class(second, x, Class(first, x, s))
    ensures Class(Lex(first, second), x, s) == Class(first, x, Class(second, x, s))
  {
    if s != [] {
      LexClass(first, second, x, s[1..]);
      var a := Class(first, x, s[1..]);
      var b := Class(second, x, s[1..]);
      assert ([s[0]] + a)[1..] == a && ([s[0]] + b)[1..] == b;
      assert [] + a == a && [] + b == b;
    }
  }

  lemma {:induction false} ClassOfSortedIsSorted<T(!new)>(le: (T, T) -> bool, key: (T, T) -> bool, x: T, s: seq<T>)
    requires Sorted(le, s)
    ensures Sorted(le, Class(key, x, s))
  {
    if s != [] {
      ClassOfSortedIsSorted(le, key, x, s[1..]);
      ClassHasOnlyMembers(key, x, s[1..]);
      var rest := Class(key, x, s[1..]);
      forall k | 0 <= k < |rest| ensures le(s[0], rest[k]) {
        assert rest[k] in rest;
      }
      ConsSorted(le, s[0], rest);
    }
  }

  lemma {:induction false} SortedClassOrders<T(!new)>(key: (T, T) -> bool, le: (T, T) -> bool, x: T, s: seq<T>, i: nat, j: nat)
    requires i < j < |s|
    requires key(x, s[i]) && key(s[i], x) && key(x, s[j]) && key(s[j], x)
    requires Sorted(le, Class(key, x, s))
    ensures le(s[i], s[j])
  {
    var rest := Class(key, x, s[1..]);
    if i == 0 {
      ClassHasOnlyMembers(key, x, s[1..]);
      assert s[1..][j - 1] == s[j];
      assert s[j] in rest;
      var k :| 0 <= k < |rest| && rest[k] == s[j];
      var all := Class(key, x, s);
      assert all == [s[0]] + rest;
      assert all[0] == s[0] && all[k + 1] == s[j];
    } else {
      assert Sorted(le, rest) by {
        forall a, b | 0 <= a < b < |rest| ensures le(rest[a], rest[b]) {
          var d := |Class(key, x, s)| - |rest|;
          assert Class(key, x, s)[a + d] == rest[a] && Class(key, x, s)[b + d] == rest[b];
        }
      }
      SortedClassOrders(key, le, x, s[1..], i - 1, j - 1);
    }
  }

  /** Sorting by the minor key, then stably by the major key, is one lexicographic sort. */
  lemma TwoSortsAreLexicographic<T(!new)>(first: (T, T) -> bool, second: (T, T) -> bool, s: seq<T>)
    requires TotalPreorder(first) && TotalPreorder(second)
    ensures Sort(first, Sort(second, s)) == Sort(Lex(first, second), s)
  {
    var lex := Lex(first, second);
    LexIsTotalPreorder(first, second);
    var t := Sort(second, s);
    var r := Sort(first, t);
    SortSorts(second, s);
    SortSorts(first, t);
    SortSorts(lex, s);
    forall i, j | 0 <= i < j < |r| ensures lex(r[i], r[j]) {
      if first(r[j], r[i]) {
        SortIsStable(first, r[i], t);
        ClassOfSortedIsSorted(second, first, r[i], t);
        SortedClassOrders(first, second, r[i], r, i, j);
      }
    }
    forall x ensures Class(lex, x, r) == Class(lex, x, Sort(lex, s)) {
      LexClass(first, second, x, r);
      LexClass(first, second, x, t);
      LexClass(first, second, x, s);
      SortIsStable(first, x, t);
      SortIsStable(second, x, s);
      SortIsStable(lex, x, s);
    }
    StableSortIsUnique(lex, r, Sort(lex, s));
  }

  // ---- A prefix of one stream is enough for a prefix of the merge ----

  lemma {:induction false} InsertIntoMerge<T(!new)>(le: (T, T) -> bool, x: T, s: seq<T>, t: seq<T>)
    requires TotalPreorder(le) && Sorted(le, [x] + s)
    ensures Insert(le, x, Merge(le, s, t)) == Merge(le, [x] + s, t)
    decreases |t|
  {
    assert ([x] + s)[1..] == s;
    if t == [] {
      if s != [] {
        assert ([x] + s)[0] == x && ([x] + s)[1] == s[0];
      }
    } else if s == [] {
      if !le(x, t[0]) {
        InsertIntoMerge(le, x, s, t[1..]);
      }
    } else {
      assert ([x] + s)[0] == x && ([x] + s)[1] == s[0];
      assert le(x, s[0]);
      if !le(x, t[0]) {
        assert !le(s[0], t[0]);
        InsertIntoMerge(le, x, s, t[1..]);
      }
    }
  }

  /** Appending to a sorted list and sorting stably merges the two streams. */
  lemma {:induction false} SortAppendIsMerge<T(!new)>(le: (T, T) -> bool, s: seq<T>, t: seq<T>)
    requires TotalPreorder(le) && Sorted(le, s)
    ensures Sort(le, s + t) == Merge(le, s, Sort(le, t))
  {
    if s == [] {
      assert s + t == t;
    } else {
      assert (s + t)[1..] == s[1..] + t && s == [s[0]] + s[1..];
      SortAppendIsMerge(le, s[1..], t);
      InsertIntoMerge(le, s[0], s[1..], Sort(le, t));
    }
  }

  lemma {:induction false} MergePrefix<T(!new)>(le: (T, T) -> bool, s: seq<T>, t: seq<T>, n: nat)
    ensures Take(Merge(le, Take(s, n), t), n) == Take(Merge(le, s, t), n)
    decreases |s| + |t|
  {
    if n > 0 && s != [] && t != [] {
      assert Take(s, n)[0] == s[0];
      if le(s[0], t[0]) {
        MergePrefix(le, s[1..], t, n - 1);
        assert Take(s, n)[1..] == Take(s[1..], n - 1);
        HeadPrefix(s[0], Merge(le, Take(s[1..], n - 1), t), n);
        HeadPrefix(s[0], Merge(le, s[1..], t), n);
      } else {
        MergePrefix(le, s, t[1..], n);
        HeadPrefix(t[0], Merge(le, Take(s, n), t[1..]), n);
        HeadPrefix(t[0], Merge(le, s, t[1..]), n);
        TakeTake(Merge(le, Take(s, n), t[1..]), n);
        TakeTake(Merge(le, s, t[1..]), n);
      }
    }
  }

  lemma HeadPrefix<T>(x: T, s: seq<T>, n: nat)
    requires n > 0
    ensures Take([x] + s, n) == [x] + Take(s, n - 1)
  {
  }

  lemma TakeTake<T>(s: seq<T>, n: nat)
    requires n > 0
    ensures Take(Take(s, n), n - 1) == Take(s, n - 1)
  {
  }

  lemma SliceOfTake<T>(s: seq<T>, offset: nat, limit: nat)
    ensures Slice(Take(s, offset + limit), offset, limit) == Slice(s, offset, limit)
  {
  }

  /** Merging only the first `offset + limit` sorted rows gives the same page as merging all of them. */
  lemma PageNeedsOnlyPrefix<T(!new)>(le: (T, T) -> bool, s: seq<T>, t: seq<T>, offset: nat, limit: nat)
    requires TotalPreorder(le) && Sorted(le, s)
    ensures Slice(Sort(le, Take(s, offset + limit) + t), offset, limit) == Slice(Sort(le, s + t), offset, limit)
  {
    var n := offset + limit;
    SortAppendIsMerge(le, Take(s, n), t);
    SortAppendIsMerge(le, s, t);
    MergePrefix(le, s, Sort(le, t), n);
    SliceOfTake(Sort(le, Take(s, n) + t), offset, limit);
    SliceOfTake(Sort(le, s + t), offset, limit);
  }

  // ---- Sorted arrangements of the same elements ----

  /** Only equal elements sort equal. */
  ghost predicate Tieless<T>(le: (T, T) -> bool, s: seq<T>) {
    forall a, b :: a in multiset(s) && b in multiset(s) && le(a, b) && le(b, a) ==> a == b
  }

  lemma SameHead<T(!new)>(le: (T, T) -> bool, s: seq<T>, t: seq<T>)
    requires TotalPreorder(le) && Sorted(le, s) && Sorted(le, t)
    requires multiset(s) == multiset(t) && Tieless(le, s) && s != []
    ensures t != [] && s[0] == t[0]
  {
    assert s[0] in multiset(t) && |multiset(t)| > 0;
    assert t[0] in multiset(s);
    var i :| 0 <= i < |s| && s[i] == t[0];
    var j :| 0 <= j < |t| && t[j] == s[0];
    assert le(t[0], s[0]) && le(s[0], t[0]);
  }

  /** Without ties there is only one sorted arrangement. */
  lemma {:induction false} SortedArrangementIsUnique<T(!new)>(le: (T, T) -> bool, s: seq<T>, t: seq<T>)
    requires TotalPreorder(le) && Sorted(le, s) && Sorted(le, t)
    requires multiset(s) == multiset(t) && Tieless(le, s)
    ensures s == t
  {
    if s == [] {
      assert |multiset(t)| == 0;
    } else {
      SameHead(le, s, t);
      assert s == [s[0]] + s[1..] && t == [t[0]] + t[1..];
      assert multiset(s[1..]) == multiset(s) - multiset{s[0]};
      assert multiset(t[1..]) == multiset(t) - multiset{t[0]};
      SortedArrangementIsUnique(le, s[1..], t[1..]);
    }
  }
}
