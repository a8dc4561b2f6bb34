/** Walking a WebDAV server (`_collect_files`), and scanning reduced roots instead of all requested ones. */
module RemoteWalk {
  import opened Text
  import opened Remote
  import opened RemoteScan
  import Reduction
  import Paths

  /** One response element of a PROPFIND answer. */
  datatype Entry = Entry(href: Option<string>, collection: bool, size: nat, modified: string)

  /** The answer to PROPFIND with depth 1; `None` where the request fails or the answer cannot be used. */
  type Server = string -> Option<seq<Entry>>

  /** What an entry of a listing means to the walk. */
  datatype Kind = Ignored | Folder(href: string) | Photo(file: RemoteFile)

  const MAX_DEPTH := 5

  function KindOf(extensions: set<string>, path: string, e: Entry): Kind {
    if e.href.None? then Ignored
    else
      var href := e.href.value;
      var name := Paths.Name(href);
      if RStrip(href) == RStrip(path) then Ignored
      else if e.collection then Folder(href)
      else if Fold(Paths.Suffix(name)) in extensions then Photo(RemoteFile(href, name, e.size, e.modified))
      else Ignored
  }

  function Kinds(extensions: set<string>, path: string, entries: seq<Entry>): (kinds: seq<Kind>)
    ensures |kinds| == |entries|
  {
    seq(|entries|, i requires 0 <= i < |entries| => KindOf(extensions, path, entries[i]))
  }

  /** What a walk sees at each path. */
  type View = string -> seq<Kind>

  function ViewOf(server: Server, extensions: set<string>): View {
    (path: string) => match server(path)
                      case None => []
                      case Some(entries) => Kinds(extensions, path, entries)
  }

  /** The files found below `path`, in the order in which they are found. */
  function Collected(view: View, path: string, depth: nat): seq<RemoteFile>
    decreases MAX_DEPTH + 1 - depth, 1, 0
  {
    if depth > MAX_DEPTH then [] else CollectedFrom(view, view(path), depth)
  }

  function CollectedFrom(view: View, kinds: seq<Kind>, depth: nat): seq<RemoteFile>
    requires depth <= MAX_DEPTH
    decreases MAX_DEPTH + 1 - depth, 0, |kinds|
  {
    if kinds == [] then []
    else CollectedFrom(view, kinds[..|kinds| - 1], depth) + CollectedAt(view, kinds[|kinds| - 1], depth)
  }

  function CollectedAt(view: View, kind: Kind, depth: nat): seq<RemoteFile>
    requires depth <= MAX_DEPTH
    decreases MAX_DEPTH + 1 - depth, 0, 0
  {
    match kind
    case Ignored => []
    case Folder(href) => Collected(view, href, depth + 1)
    case Photo(f) => [f]
  }

  /** `_collect_files`: ends on every listing, cyclic ones included. */
  method CollectFiles(server: Server, extensions: set<string>, path: string, out: seq<RemoteFile>, depth: nat)
    returns (result: seq<RemoteFile>)
    ensures result == out + Collected(ViewOf(server, extensions), path, depth)
    decreases MAX_DEPTH + 1 - depth, 2
  {
    result := out;
    if depth > MAX_DEPTH {
      return;
    }
    var listing := server(path);
    if listing.None? {
      return;
    }
    result := CollectEntries(server, extensions, path, result, depth, listing.value);
    assert ViewOf(server, extensions)(path) == Kinds(extensions, path, listing.value);
  }

  /** The loop over a listing. */
  method CollectEntries(server: Server, extensions: set<string>, path: string, out: seq<RemoteFile>, depth: nat, entries: seq<Entry>)
    returns (result: seq<RemoteFile>)
    requires depth <= MAX_DEPTH
    ensures result == out + CollectedFrom(ViewOf(server, extensions), Kinds(extensions, path, entries), depth)
    decreases MAX_DEPTH + 1 - depth, 1
  {
    result := out;
    ghost var view, kinds := ViewOf(server, extensions), Kinds(extensions, path, entries);
    ghost var found: seq<RemoteFile> := [];
    for k := 0 to |entries|
      invariant found == CollectedFrom(view, kinds[..k], depth)
      invariant result == out + found
    {
      CollectedFromNext(view, kinds, k, depth);
      result := CollectEntry(server, extensions, path, result, depth, entries[k]);
      ghost var more := CollectedAt(view, kinds[k], depth);
      Associative(out, found, more);
      found := found + more;
    }
    assert kinds[..|entries|] == kinds;
  }

  lemma Associative<T>(a: seq<T>, b: seq<T>, c: seq<T>)
    ensures (a + b) + c == a + (b + c)
  {
  }

  lemma CollectedFromNext(view: View, kinds: seq<Kind>, k: nat, depth: nat)
    requires k < |kinds| && depth <= MAX_DEPTH
    ensures CollectedFrom(view, kinds[..k + 1], depth) == CollectedFrom(view, kinds[..k], depth) + CollectedAt(view, kinds[k], depth)
  {
    assert kinds[..k + 1][..k] == kinds[..k];
  }

  /** The body of that loop. */
  method CollectEntry(server: Server, extensions: set<string>, path: string, out: seq<RemoteFile>, depth: nat, e: Entry)
    returns (result: seq<RemoteFile>)
    requires depth <= MAX_DEPTH
    ensures result == out + CollectedAt(ViewOf(server, extensions), KindOf(extensions, path, e), depth)
    decreases MAX_DEPTH + 1 - depth, 0
  {
    result := out;
    if e.href.None? {
      return;
    }
    var href := e.href.value;
    if RStrip(href) == RStrip(path) {
      return;
    }
    if e.collection {
      result := CollectFiles(server, extensions, href, result, depth + 1);
      return;
    }
    var name := Paths.Name(href);
    if Fold(Paths.Suffix(name)) in extensions {
      result := result + [RemoteFile(href, name, e.size, e.modified)];
    }
  }

  // ---- What a walk finds ----

  /** `to` can be reached from `from` through `k` nested folders. */
  ghost predicate Walk(view: View, from: string, to: string, k: nat)
    decreases k
  {
    if k == 0 then from == to
    else exists href :: Folder(href) in view(from) && Walk(view, href, to, k - 1)
  }

  /** `f` is found from `path` within `budget` nested folders. */
  ghost predicate FoundWithin(view: View, path: string, budget: int, f: RemoteFile) {
    exists k: nat, folder :: k <= budget && Walk(view, path, folder, k) && Photo(f) in view(folder)
  }

  lemma {:induction false} CollectedFromMembers(view: View, kinds: seq<Kind>, depth: nat, f: RemoteFile)
    requires depth <= MAX_DEPTH
    ensures f in CollectedFrom(view, kinds, depth) <==> exists kind :: kind in kinds && f in CollectedAt(view, kind, depth)
    decreases |kinds|
  {
    if kinds != [] {
      var init, last := kinds[..|kinds| - 1], kinds[|kinds| - 1];
      CollectedFromMembers(view, init, depth, f);
      assert kinds == init + [last];
      assert CollectedFrom(view, kinds, depth) == CollectedFrom(view, init, depth) + CollectedAt(view, last, depth);
      if kind :| kind in kinds && f in CollectedAt(view, kind, depth) {
        assert kind in init || kind == last;
      }
      if f in CollectedFrom(view, init, depth) {
        var kind :| kind in init && f in CollectedAt(view, kind, depth);
        assert kind in kinds;
      }
    }
  }

  /** `_collect_files` finds exactly the photos shown by folders at most five levels below its start. */
  lemma {:induction false} CollectedIsWhatIsFound(view: View, path: string, depth: nat, f: RemoteFile)
    ensures f in Collected(view, path, depth) <==> FoundWithin(view, path, MAX_DEPTH - depth, f)
    decreases MAX_DEPTH + 1 - depth
  {
    if depth <= MAX_DEPTH {
      CollectedFromMembers(view, view(path), depth, f);
      forall href | Folder(href) in view(path)
        ensures f in CollectedAt(view, Folder(href), depth) <==> FoundWithin(view, href, MAX_DEPTH - depth - 1, f)
      {
        CollectedIsWhatIsFound(view, href, depth + 1, f);
      }
      if f in Collected(view, path, depth) {
        var kind :| kind in view(path) && f in CollectedAt(view, kind, depth);
        FoundThrough(view, path, depth, kind, f);
      }
      if FoundWithin(view, path, MAX_DEPTH - depth, f) {
        var kind := YieldingEntry(view, path, depth, f);
        assert f in CollectedAt(view, kind, depth);
      }
    }
  }

  lemma FoundThrough(view: View, path: string, depth: nat, kind: Kind, f: RemoteFile)
    requires depth <= MAX_DEPTH && kind in view(path) && f in CollectedAt(view, kind, depth)
    requires kind.Folder? ==> FoundWithin(view, kind.href, MAX_DEPTH - depth - 1, f)
    ensures FoundWithin(view, path, MAX_DEPTH - depth, f)
  {
    if kind.Folder? {
      var k: nat, folder :| k <= MAX_DEPTH - depth - 1 && Walk(view, kind.href, folder, k) && Photo(f) in view(folder);
      assert Walk(view, path, folder, k + 1);
    } else {
      assert Walk(view, path, path, 0);
    }
  }

  lemma YieldingEntry(view: View, path: string, depth: nat, f: RemoteFile) returns (kind: Kind)
    requires depth <= MAX_DEPTH && FoundWithin(view, path, MAX_DEPTH - depth, f)
    ensures kind in view(path)
    ensures kind == Photo(f) || (kind.Folder? && FoundWithin(view, kind.href, MAX_DEPTH - depth - 1, f))
  {
    var k: nat, folder :| k <= MAX_DEPTH - depth && Walk(view, path, folder, k) && Photo(f) in view(folder);
    if k == 0 {
      kind := Photo(f);
    } else {
      var href :| Folder(href) in view(path) && Walk(view, href, folder, k - 1);
      kind := Folder(href);
    }
  }

  // ---- Reduced roots find what all requested roots find ----

  /** Everything found by scanning each of `paths`. */
  function Found(view: View, paths: seq<string>): seq<RemoteFile> {
    if paths == [] then [] else Found(view, paths[..|paths| - 1]) + Collected(view, paths[|paths| - 1], 0)
  }

  lemma {:induction false} FoundMembers(view: View, paths: seq<string>, f: RemoteFile)
    ensures f in Found(view, paths) <==> exists p :: p in paths && FoundWithin(view, p, MAX_DEPTH, f)
  {
    if paths != [] {
      var init, last := paths[..|paths| - 1], paths[|paths| - 1];
      FoundMembers(view, init, f);
      CollectedIsWhatIsFound(view, last, 0, f);
      assert paths == init + [last];
    }
  }

  /** Trailing slashes do not matter to the server. */
  ghost predicate IgnoresTrailingSlash(server: Server) {
    forall p, q :: RStrip(p) == RStrip(q) ==> server(p) == server(q)
  }

  ghost predicate SlashFree(view: View) {
    forall p, q :: RStrip(p) == RStrip(q) ==> view(p) == view(q)
  }

  lemma ViewIgnoresTrailingSlash(server: Server, extensions: set<string>)
    requires IgnoresTrailingSlash(server)
    ensures SlashFree(ViewOf(server, extensions))
  {
    forall p, q | RStrip(p) == RStrip(q) ensures ViewOf(server, extensions)(p) == ViewOf(server, extensions)(q) {
      if server(p).Some? {
        assert Kinds(extensions, p, server(p).value) == Kinds(extensions, q, server(q).value);
      }
    }
  }

  /** Where one requested path covers another that shows anything, nested folders lead from the first to the second. */
  ghost predicate CaseConsistent(view: View, requested: seq<string>) {
    forall p, q :: p in requested && q in requested && Covers(p, q) && view(q) != [] ==> Leads(view, p, q)
  }

  ghost predicate Leads(view: View, p: string, q: string) {
    exists j: nat :: Below(view, p, q, j)
  }

  /** `f` is shown by a folder that `k` nested folders lead to. */
  ghost predicate ShownAt(view: View, path: string, k: nat, f: RemoteFile) {
    exists folder :: Walk(view, path, folder, k) && Photo(f) in view(folder)
  }

  /** A tree, as far as photos go: one depth below each requested path, and paths that lead to one photo are nested. */
  ghost predicate IsTree(view: View, requested: seq<string>) {
    && (forall p, k: nat, m: nat, f :: p in requested && ShownAt(view, p, k, f) && ShownAt(view, p, m, f) ==> k == m)
    && (forall p, q, k: nat, m: nat, f :: p in requested && q in requested && ShownAt(view, p, k, f) && ShownAt(view, q, m, f) ==>
          Covers(p, q) || Covers(q, p))
  }

  /** The path `q` lies `j` nested folders below `r`. */
  ghost predicate Below(view: View, r: string, q: string, j: nat) {
    exists folder :: RStrip(folder) == RStrip(q) && Walk(view, r, folder, j)
  }

  /** The requested path `q` shows a photo within the depth limit that is beyond it for the root that covers `q`. */
  ghost predicate OutOfReach(view: View, requested: seq<string>, r: string, q: string, j: nat, k: nat, f: RemoteFile) {
    && r in Reduction.Roots(Cover(), requested) && q in requested && Covers(r, q)
    && Below(view, r, q, j) && ShownAt(view, q, k, f) && k <= MAX_DEPTH < j + k
  }

  ghost predicate NothingOutOfReach(view: View, requested: seq<string>) {
    forall r, q, j: nat, k: nat, f :: !OutOfReach(view, requested, r, q, j, k, f)
  }

  lemma {:induction false} WalkOn(view: View, a: string, b: string, c: string, j: nat, k: nat)
    requires Walk(view, a, b, j) && Walk(view, b, c, k)
    ensures Walk(view, a, c, j + k)
    decreases j
  {
    if j > 0 {
      var href :| Folder(href) in view(a) && Walk(view, href, b, j - 1);
      WalkOn(view, href, b, c, j - 1, k);
    }
  }

  lemma SameFolder(view: View, a: string, b: string, k: nat, folder: string, f: RemoteFile) returns (place: string)
    requires SlashFree(view) && RStrip(a) == RStrip(b)
    requires Walk(view, a, folder, k) && Photo(f) in view(folder)
    ensures Walk(view, b, place, k) && Photo(f) in view(place)
  {
    assert view(a) == view(b);
    place := if k == 0 then b else folder;
  }

  /** A photo `k` folders below `q`, which lies `j` folders below `r`, lies `j + k` folders below `r`. */
  lemma DepthsAdd(view: View, r: string, q: string, j: nat, k: nat, f: RemoteFile)
    requires SlashFree(view) && Below(view, r, q, j) && ShownAt(view, q, k, f)
    ensures ShownAt(view, r, j + k, f)
  {
    var entrance :| RStrip(entrance) == RStrip(q) && Walk(view, r, entrance, j);
    var folder :| Walk(view, q, folder, k) && Photo(f) in view(folder);
    var place := SameFolder(view, q, entrance, k, folder, f);
    WalkOn(view, r, entrance, place, j, k);
  }

  lemma FoundIsShown(view: View, path: string, f: RemoteFile)
    ensures FoundWithin(view, path, MAX_DEPTH, f) <==> exists k: nat :: k <= MAX_DEPTH && ShownAt(view, path, k, f)
  {
    if FoundWithin(view, path, MAX_DEPTH, f) {
      var k: nat, folder :| k <= MAX_DEPTH && Walk(view, path, folder, k) && Photo(f) in view(folder);
      assert ShownAt(view, path, k, f);
    }
    if k: nat :| k <= MAX_DEPTH && ShownAt(view, path, k, f) {
      var folder :| Walk(view, path, folder, k) && Photo(f) in view(folder);
    }
  }

  lemma ShownHasEntries(view: View, q: string, k: nat, f: RemoteFile)
    requires ShownAt(view, q, k, f)
    ensures view(q) != []
  {
    var folder :| Walk(view, q, folder, k) && Photo(f) in view(folder);
  }

  lemma ReachedFromRoot(view: View, requested: seq<string>, q: string, f: RemoteFile) returns (r: string)
    requires Prepared(requested) && SlashFree(view) && CaseConsistent(view, requested) && NothingOutOfReach(view, requested)
    requires q in requested && FoundWithin(view, q, MAX_DEPTH, f)
    ensures r in Reduction.Roots(Cover(), requested) && FoundWithin(view, r, MAX_DEPTH, f)
  {
    FoundIsShown(view, q, f);
    var k: nat :| k <= MAX_DEPTH && ShownAt(view, q, k, f);
    r := RootAbove(requested, q);
    ShownHasEntries(view, q, k, f);
    assert Leads(view, r, q);
    var j: nat :| Below(view, r, q, j);
    assert !OutOfReach(view, requested, r, q, j, k, f);
    DepthsAdd(view, r, q, j, k, f);
    FoundIsShown(view, r, f);
  }

  /** On a tree, a photo out of reach of the root above it is found from no root. */
  lemma OutOfReachIsLost(view: View, requested: seq<string>, r: string, q: string, j: nat, k: nat, f: RemoteFile, other: string)
    requires Prepared(requested) && SlashFree(view) && IsTree(view, requested)
    requires OutOfReach(view, requested, r, q, j, k, f) && other in Reduction.Roots(Cover(), requested)
    ensures !FoundWithin(view, other, MAX_DEPTH, f)
  {
    Reduction.RootsCoverAndAreApart(Cover(), RootOrder(), requested);
    DepthsAdd(view, r, q, j, k, f);
    FoundIsShown(view, other, f);
    if m: nat :| m <= MAX_DEPTH && ShownAt(view, other, m, f) {
      assert r in requested && other in requested;
      assert Covers(r, other) || Covers(other, r);
      if Covers(r, other) {
        RootsDoNotCover(requested, r, other);
      } else {
        RootsDoNotCover(requested, other, r);
      }
    }
  }

  lemma FoundIffFromOne(view: View, paths: seq<string>, f: RemoteFile)
    ensures f in Found(view, paths) <==> FromOne(view, paths, f)
  {
    FoundMembers(view, paths, f);
  }

  ghost predicate FromOne(view: View, paths: seq<string>, f: RemoteFile) {
    exists p :: p in paths && FoundWithin(view, p, MAX_DEPTH, f)
  }

  /** Scanning the reduced roots and scanning every requested path find the same photos. */
  ghost predicate ScansAgree(view: View, requested: seq<string>) {
    forall f :: f in Found(view, Reduction.Roots(Cover(), requested)) <==> f in Found(view, requested)
  }

  /**
   On a case-consistent tree the reduced roots find the photos that all requested paths find if and only if no photo
   lies within the depth limit of a requested path and beyond it for the root that covers this path.
   */
  lemma ReducedScanFindsEverythingIff(server: Server, extensions: set<string>, requested: seq<string>)
    requires Prepared(requested) && IgnoresTrailingSlash(server)
    requires CaseConsistent(ViewOf(server, extensions), requested) && IsTree(ViewOf(server, extensions), requested)
    ensures ScansAgree(ViewOf(server, extensions), requested) <==> NothingOutOfReach(ViewOf(server, extensions), requested)
  {
    var view := ViewOf(server, extensions);
    var roots := Reduction.Roots(Cover(), requested);
    ViewIgnoresTrailingSlash(server, extensions);
    Reduction.RootsCoverAndAreApart(Cover(), RootOrder(), requested);
    if NothingOutOfReach(view, requested) {
      forall f ensures f in Found(view, roots) <==> f in Found(view, requested) {
        ReducedScanFinds(view, requested, f);
      }
    } else {
      var r, q, j: nat, k: nat, f :| OutOfReach(view, requested, r, q, j, k, f);
      OutOfReachIsMissed(view, requested, r, q, j, k, f);
    }
  }

  lemma ReducedScanFinds(view: View, requested: seq<string>, f: RemoteFile)
    requires Prepared(requested) && SlashFree(view) && CaseConsistent(view, requested) && NothingOutOfReach(view, requested)
    ensures f in Found(view, Reduction.Roots(Cover(), requested)) <==> f in Found(view, requested)
  {
    var roots := Reduction.Roots(Cover(), requested);
    Reduction.RootsCoverAndAreApart(Cover(), RootOrder(), requested);
    FoundIffFromOne(view, roots, f);
    FoundIffFromOne(view, requested, f);
    if q :| q in requested && FoundWithin(view, q, MAX_DEPTH, f) {
      var r := ReachedFromRoot(view, requested, q, f);
      assert FromOne(view, roots, f);
    }
    if r :| r in roots && FoundWithin(view, r, MAX_DEPTH, f) {
      assert r in requested;
    }
  }

  lemma OutOfReachIsMissed(view: View, requested: seq<string>, r: string, q: string, j: nat, k: nat, f: RemoteFile)
    requires Prepared(requested) && SlashFree(view) && IsTree(view, requested) && OutOfReach(view, requested, r, q, j, k, f)
    ensures f in Found(view, requested) && f !in Found(view, Reduction.Roots(Cover(), requested))
  {
    var roots := Reduction.Roots(Cover(), requested);
    FoundIffFromOne(view, roots, f);
    FoundIffFromOne(view, requested, f);
    FoundIsShown(view, q, f);
    assert FromOne(view, requested, f);
    forall other | other in roots ensures !FoundWithin(view, other, MAX_DEPTH, f) {
      OutOfReachIsLost(view, requested, r, q, j, k, f, other);
    }
  }

  // ---- The files of a job ----

  /** `by_href`: one file for each href, the last one found. */
  method Discover(server: Server, extensions: set<string>, roots: seq<string>) returns (files: map<string, RemoteFile>)
    ensures forall h :: h in files <==> h != "" && exists f :: f in Found(ViewOf(server, extensions), roots) && f.href == h
    ensures forall h :: h in files ==> files[h].href == h && files[h] in Found(ViewOf(server, extensions), roots)
  {
    var found: seq<RemoteFile> := [];
    for k := 0 to |roots|
      invariant found == Found(ViewOf(server, extensions), roots[..k])
    {
      assert roots[..k + 1][..k] == roots[..k];
      found := CollectFiles(server, extensions, roots[k], found, 0);
    }
    assert roots[..|roots|] == roots;
    files := map[];
    for k := 0 to |found|
      invariant forall h :: h in files <==> h != "" && exists i :: 0 <= i < k && found[i].href == h
      invariant forall h :: h in files ==> files[h].href == h && files[h] in found
    {
      if found[k].href != "" {
        files := files[found[k].href := found[k]];
      }
    }
  }
}
