/** Which remote folders a job scans, and what the scan finds. PROPFIND is that of RFC 4918, section 9.1. */
module RemoteScan {
  import opened Text
  import opened Sorting
  import opened Reduction

  // ---- Paths on the server ----

  function LStrip(s: string): string {
    if s != "" && s[0] == '/' then LStrip(s[1..]) else s
  }

  function RStrip(s: string): (r: string)
    ensures r <= s && (r != "" ==> r[|r| - 1] != '/')
  {
    if s != "" && s[|s| - 1] == '/' then RStrip(s[..|s| - 1]) else s
  }

  function Normalize(path: string): string {
    "/" + RStrip(LStrip(path))
  }

  /** "/" itself, or a path that starts with a slash and does not end with one. */
  predicate IsNormal(p: string) {
    p == "/" || (|p| >= 2 && p[0] == '/' && p[|p| - 1] != '/')
  }

  function Slashes(s: string): nat {
    if s == "" then 0 else Slashes(s[..|s| - 1]) + if s[|s| - 1] == '/' then 1 else 0
  }

  /** Scanning `root` also scans `path`. */
  predicate Covers(root: string, path: string) {
    Fold(path) == Fold(root) || Fold(RStrip(root)) + "/" <= Fold(path)
  }

  function ByDepth(): (string, string) -> bool {
    (a: string, b: string) => Slashes(a) <= Slashes(b)
  }

  function ByFold(): (string, string) -> bool {
    (a: string, b: string) => Le(Fold(a), Fold(b))
  }

  /** The sort key of the reduction: number of slashes, then folded text. */
  function RootOrder(): (string, string) -> bool {
    Lex(ByDepth(), ByFold())
  }

  lemma RootOrderIsTotal()
    ensures TotalPreorder(RootOrder())
  {
    forall a: string, b: string ensures ByFold()(a, b) || ByFold()(b, a) {
      LeTotal(Fold(a), Fold(b));
    }
    forall a: string, b: string, c: string | ByFold()(a, b) && ByFold()(b, c) ensures ByFold()(a, c) {
      LeTransitive(Fold(a), Fold(b), Fold(c));
    }
    LexIsTotalPreorder(ByDepth(), ByFold());
  }

  function Cover(): (string, string) -> bool {
    (root: string, path: string) => Covers(root, path)
  }

  function NormalizedSet(paths: seq<string>): set<string> {
    set p | p in paths :: Normalize(p)
  }

  /** The elements of a set in some order, as iterating over it yields them. */
  method Iterate(paths: set<string>) returns (listing: seq<string>)
    ensures forall p :: p in listing <==> p in paths
  {
    listing := [];
    var todo := paths;
    while todo != {}
      invariant todo <= paths
      invariant forall p :: p in listing <==> p in paths && p !in todo
      decreases todo
    {
      var p :| p in todo;
      listing := listing + [p];
      todo := todo - {p};
    }
  }

  /** The loop of the reduction over the sorted paths. */
  method KeepRoots(sorted: seq<string>) returns (roots: seq<string>)
    ensures roots == Roots(Cover(), sorted)
  {
    roots := [];
    for k := 0 to |sorted|
      invariant roots == Reduce(Cover(), sorted, k)
    {
      if !(exists i :: 0 <= i < |roots| && Covers(roots[i], sorted[k])) {
        roots := roots + [sorted[k]];
      }
    }
  }

  lemma SortKeepsMembers(listing: seq<string>)
    ensures Sorted(RootOrder(), Sort(RootOrder(), listing))
    ensures forall p :: p in Sort(RootOrder(), listing) <==> p in listing
  {
    RootOrderIsTotal();
    SortSorts(RootOrder(), listing);
    var sorted := Sort(RootOrder(), listing);
    forall p ensures p in sorted <==> p in listing {
      assert p in sorted <==> p in multiset(sorted);
      assert p in listing <==> p in multiset(listing);
    }
  }

  /**
   `non_overlapping_remote_paths`: requested paths that cover all requested paths, none of which covers another;
   `sorted` is the order in which the loop visits the normalized paths.
   */
  method NonOverlappingRemotePaths(paths: seq<string>) returns (roots: seq<string>, ghost sorted: seq<string>)
    ensures forall r :: r in roots ==> r in NormalizedSet(paths)
    ensures forall p :: p in NormalizedSet(paths) ==> CoveredByOne(Cover(), roots, p)
    ensures forall i, j :: 0 <= i < |roots| && 0 <= j < |roots| && i != j ==> !Covers(roots[i], roots[j])
    ensures Sorted(RootOrder(), roots)
    ensures forall p :: p in sorted <==> p in NormalizedSet(paths)
    ensures Prepared(sorted) && roots == Roots(Cover(), sorted)
  {
    var listing := Iterate(NormalizedSet(paths));
    var ordered := Sort(RootOrder(), listing);
    SortKeepsMembers(listing);
    sorted := ordered;
    forall p | p in sorted ensures IsNormal(p) {
      assert p in NormalizedSet(paths);
      var q :| q in paths && p == Normalize(q);
      NormalizeIsNormal(q);
    }
    NormalPathsAreLawful(sorted);
    roots := KeepRoots(ordered);
    RootsCoverAndAreApart(Cover(), RootOrder(), sorted);
    forall i, j | 0 <= i < |roots| && 0 <= j < |roots| && i != j ensures !Covers(roots[i], roots[j]) {
      assert !Cover()(roots[i], roots[j]);
    }
  }

  // ---- Facts about normalized paths ----

  lemma NormalizeIsNormal(path: string)
    ensures IsNormal(Normalize(path))
  {
  }

  lemma RStripOfNormal(p: string)
    requires IsNormal(p)
    ensures RStrip(p) == if p == "/" then "" else p
  {
    if p == "/" {
      assert p[..0] == "";
    }
  }

  lemma {:induction false} SlashesOfFold(s: string)
    ensures Slashes(Fold(s)) == Slashes(s)
  {
    if s != "" {
      SlashesOfFold(s[..|s| - 1]);
      assert Fold(s)[..|s| - 1] == Fold(s[..|s| - 1]);
    }
  }

  lemma {:induction false} SlashesOfPrefix(s: string, t: string)
    requires s <= t
    ensures Slashes(s) <= Slashes(t)
    decreases |t|
  {
    if |s| < |t| {
      SlashesOfPrefix(s, t[..|t| - 1]);
    } else {
      assert s == t;
    }
  }

  /** `a` is below `b`: `b` is `a`, a slash, and something. */
  lemma StrictCoverIsDeeper(root: string, path: string)
    requires IsNormal(root) && root != "/" && Fold(RStrip(root)) + "/" <= Fold(path)
    ensures Slashes(root) < Slashes(path)
  {
    RStripOfNormal(root);
    SlashesOfFold(root);
    SlashesOfFold(path);
    var start := Fold(root) + "/";
    assert start[..|start| - 1] == Fold(root);
    SlashesOfPrefix(start, Fold(path));
  }

  lemma TopCoversFirst(path: string)
    requires IsNormal(path)
    ensures RootOrder()("/", path) && (RootOrder()(path, "/") ==> Fold(path) == "/")
  {
    assert Fold("/") == "/";
    assert Slashes("/") == 1;
    SlashesOfPrefix("/", path);
    PrefixLe("/", Fold(path));
    if RootOrder()(path, "/") {
      LeAntisymmetric(Fold(path), "/");
    }
  }

  lemma CoverComesFirst(root: string, path: string)
    requires IsNormal(root) && IsNormal(path) && Covers(root, path)
    ensures RootOrder()(root, path)
    ensures RootOrder()(path, root) ==> Fold(root) == Fold(path)
  {
    if Fold(root) == Fold(path) {
      SlashesOfFold(root);
      SlashesOfFold(path);
      PrefixLe(Fold(root), Fold(path));
    } else if root == "/" {
      TopCoversFirst(path);
    } else {
      StrictCoverIsDeeper(root, path);
    }
  }

  lemma PrefixChain(a: string, b: string, c: string)
    requires a <= b && b <= c
    ensures a <= c
  {
  }

  lemma CoversIsTransitive(p: string, q: string, r: string)
    requires IsNormal(p) && IsNormal(q) && IsNormal(r) && Covers(p, q) && Covers(q, r)
    ensures Covers(p, r)
  {
    RStripOfNormal(p);
    RStripOfNormal(q);
    if Fold(q) == Fold(p) {
      SameFoldSameStrip(p, q);
    } else if Fold(r) != Fold(q) {
      var a, b := Fold(RStrip(p)) + "/", Fold(q);
      if q != "/" {
        PrefixChain(a, b, b + "/");
        PrefixChain(a, b + "/", Fold(r));
      }
    }
  }

  lemma SameFoldSameStrip(p: string, q: string)
    requires IsNormal(p) && IsNormal(q) && Fold(p) == Fold(q)
    ensures Fold(RStrip(p)) == Fold(RStrip(q))
  {
    RStripOfNormal(p);
    RStripOfNormal(q);
    assert |p| == |q|;
    assert p == "/" ==> FoldChar(q[0]) == '/';
  }

  lemma NormalPathsAreLawful(sorted: seq<string>)
    requires Sorted(RootOrder(), sorted) && forall p :: p in sorted ==> IsNormal(p)
    ensures Usable(Cover(), RootOrder(), sorted)
  {
    forall p, q, r | p in sorted && q in sorted && r in sorted && Covers(p, q) && Covers(q, r) ensures Covers(p, r) {
      CoversIsTransitive(p, q, r);
    }
    forall p, q | p in sorted && q in sorted && Covers(p, q)
      ensures RootOrder()(p, q) && (RootOrder()(q, p) ==> Covers(q, p))
    {
      CoverComesFirst(p, q);
    }
  }

  // ---- The result depends only on the folded paths ----

  function FoldAll(s: seq<string>): (t: seq<string>)
    ensures |t| == |s|
    ensures forall i :: 0 <= i < |s| ==> t[i] == Fold(s[i])
  {
    seq(|s|, i requires 0 <= i < |s| => Fold(s[i]))
  }

  /** Listed in strictly ascending order. */
  ghost predicate Ascending(s: seq<string>) {
    forall i, j :: 0 <= i < j < |s| ==> RootOrder()(s[i], s[j]) && Fold(s[i]) != Fold(s[j])
  }

  lemma EmptyTogether(s: seq<string>, t: seq<string>)
    requires forall x :: x in s <==> x in t
    ensures s == [] <==> t == []
  {
    assert s != [] ==> s[0] in s;
    assert t != [] ==> t[0] in t;
  }

  lemma {:induction false} AscendingIsUnique(s: seq<string>, t: seq<string>)
    requires Ascending(s) && Ascending(t)
    requires forall x :: x in s ==> Fold(x) == x
    requires forall x :: x in s <==> x in t
    ensures s == t
  {
    EmptyTogether(s, t);
    if s != [] {
      assert s[0] in s;
      assert t != [];
      assert t[0] in t;
      var i :| 0 <= i < |s| && s[i] == t[0];
      var j :| 0 <= j < |t| && t[j] == s[0];
      if i > 0 && j > 0 {
        assert RootOrder()(s[0], t[0]) && RootOrder()(t[0], s[0]);
        LeAntisymmetric(Fold(s[0]), Fold(t[0]));
      }
      assert s[0] == t[0];
      assert s == [s[0]] + s[1..] && t == [t[0]] + t[1..];
      forall x ensures x in s[1..] <==> x in t[1..] {
        if x in s[1..] {
          var k :| 0 <= k < |s[1..]| && s[1..][k] == x;
          assert Fold(s[0]) != Fold(s[k + 1]);
          assert x in t;
        }
        if x in t[1..] {
          var k :| 0 <= k < |t[1..]| && t[1..][k] == x;
          assert Fold(t[0]) != Fold(t[k + 1]);
          assert x in s;
        }
      }
      AscendingIsUnique(s[1..], t[1..]);
    }
  }

  lemma FoldedCovers(p: string, q: string, p': string, q': string)
    requires IsNormal(p) && IsNormal(p') && Fold(p) == Fold(p') && Fold(q) == Fold(q')
    ensures Covers(p, q) <==> Covers(p', q')
  {
    SameFoldSameStrip(p, p');
  }

  ghost predicate Prepared(sorted: seq<string>) {
    Usable(Cover(), RootOrder(), sorted) && forall p :: p in sorted ==> IsNormal(p)
  }

  lemma HasFold(s: seq<string>, x: string)
    requires x in s
    ensures Fold(x) in FoldAll(s)
  {
    var i :| 0 <= i < |s| && s[i] == x;
    assert FoldAll(s)[i] == Fold(x);
  }

  lemma FromFold(s: seq<string>, f: string) returns (x: string)
    requires f in FoldAll(s)
    ensures x in s && Fold(x) == f
  {
    var i :| 0 <= i < |s| && FoldAll(s)[i] == f;
    x := s[i];
  }

  lemma RootAbove(sorted: seq<string>, x: string) returns (r: string)
    requires Prepared(sorted) && x in sorted
    ensures r in Roots(Cover(), sorted) && r in sorted && Covers(r, x)
  {
    RootsCoverAndAreApart(Cover(), RootOrder(), sorted);
    var roots := Roots(Cover(), sorted);
    var i :| 0 <= i < |roots| && Cover()(roots[i], x);
    r := roots[i];
  }

  lemma RootsDoNotCover(sorted: seq<string>, r: string, s: string)
    requires Prepared(sorted)
    requires r in Roots(Cover(), sorted) && s in Roots(Cover(), sorted) && Covers(r, s)
    ensures r == s
  {
    RootsCoverAndAreApart(Cover(), RootOrder(), sorted);
    var roots := Roots(Cover(), sorted);
    var i :| 0 <= i < |roots| && roots[i] == r;
    var j :| 0 <= j < |roots| && roots[j] == s;
    assert Cover()(roots[i], roots[j]);
  }

  lemma RootsTransfer(a: seq<string>, b: seq<string>, r: string)
    requires Prepared(a) && Prepared(b)
    requires forall f :: f in FoldAll(a) <==> f in FoldAll(b)
    requires r in Roots(Cover(), a)
    ensures Fold(r) in FoldAll(Roots(Cover(), b))
  {
    RootsCoverAndAreApart(Cover(), RootOrder(), a);
    HasFold(a, r);
    var x := FromFold(b, Fold(r));
    var s := RootAbove(b, x);
    HasFold(b, s);
    var y := FromFold(a, Fold(s));
    FoldedCovers(s, x, y, r);
    var t := RootAbove(a, y);
    CoversIsTransitive(t, y, r);
    RootsDoNotCover(a, t, r);
    CoverComesFirst(r, y);
    CoverComesFirst(y, r);
    HasFold(Roots(Cover(), b), s);
  }

  lemma FoldedRootsAscend(a: seq<string>)
    requires Prepared(a)
    ensures Ascending(FoldAll(Roots(Cover(), a)))
    ensures forall x :: x in FoldAll(Roots(Cover(), a)) ==> Fold(x) == x
  {
    var roots := Roots(Cover(), a);
    var folded := FoldAll(roots);
    RootsCoverAndAreApart(Cover(), RootOrder(), a);
    forall i, j | 0 <= i < j < |folded| ensures RootOrder()(folded[i], folded[j]) && Fold(folded[i]) != Fold(folded[j]) {
      SlashesOfFold(roots[i]);
      SlashesOfFold(roots[j]);
      FoldTwice(roots[i]);
      FoldTwice(roots[j]);
      assert !Cover()(roots[i], roots[j]);
      assert RootOrder()(roots[i], roots[j]);
    }
    forall x | x in folded ensures Fold(x) == x {
      var y := FromFold(roots, x);
      FoldTwice(y);
    }
  }

  /** Up to case, the roots and their order depend only on which paths are requested, up to case. */
  lemma RootsAreDetermined(a: seq<string>, b: seq<string>)
    requires Prepared(a) && Prepared(b)
    requires forall f :: f in FoldAll(a) <==> f in FoldAll(b)
    ensures FoldAll(Roots(Cover(), a)) == FoldAll(Roots(Cover(), b))
  {
    var fa, fb := FoldAll(Roots(Cover(), a)), FoldAll(Roots(Cover(), b));
    FoldedRootsAscend(a);
    FoldedRootsAscend(b);
    forall x ensures x in fa <==> x in fb {
      if x in fa {
        var r := FromFold(Roots(Cover(), a), x);
        RootsTransfer(a, b, r);
      }
      if x in fb {
        var r := FromFold(Roots(Cover(), b), x);
        RootsTransfer(b, a, r);
      }
    }
    AscendingIsUnique(fa, fb);
  }
}
