/** What a scan finds, in terms of the server's listings alone. */
module RemoteListing {
  import opened Text
  import opened Remote
  import opened RemoteScan
  import opened RemoteWalk
  import Paths

  /** The server lists the folder with an entry `e` that has a href and is not the folder itself. */
  predicate Lists(server: Server, folder: string, e: Entry) {
    server(folder).Some? && e in server(folder).value && e.href.Some? && RStrip(e.href.value) != RStrip(folder)
  }

  /** `to` lies `k` nested collections below `from`. */
  ghost predicate Nested(server: Server, from: string, to: string, k: nat)
    decreases k
  {
    if k == 0 then from == to
    else exists e: Entry :: Lists(server, from, e) && e.collection && Nested(server, e.href.value, to, k - 1)
  }

  /** The folder lists `f` as a file whose name ends in one of the extensions, in upper or lower case. */
  ghost predicate ListsPhoto(server: Server, extensions: set<string>, folder: string, f: RemoteFile) {
    && f.name == Paths.Name(f.href) && Fold(Paths.Suffix(f.name)) in extensions
    && Lists(server, folder, Entry(Some(f.href), false, f.size, f.modified))
  }

  lemma KindsInView(server: Server, extensions: set<string>, folder: string, kind: Kind)
    ensures kind in ViewOf(server, extensions)(folder) <==>
            server(folder).Some? && exists e: Entry :: e in server(folder).value && kind == KindOf(extensions, folder, e)
  {
    if server(folder).Some? {
      var entries := server(folder).value;
      var kinds := Kinds(extensions, folder, entries);
      if kind in kinds {
        var i :| 0 <= i < |kinds| && kinds[i] == kind;
        assert entries[i] in entries;
      }
      if e :| e in entries && kind == KindOf(extensions, folder, e) {
        var i :| 0 <= i < |entries| && entries[i] == e;
        assert kinds[i] == kind;
      }
    }
  }

  lemma FolderInView(server: Server, extensions: set<string>, folder: string, href: string)
    ensures Folder(href) in ViewOf(server, extensions)(folder) <==>
            exists e: Entry :: Lists(server, folder, e) && e.collection && e.href.value == href
  {
    KindsInView(server, extensions, folder, Folder(href));
  }

  lemma PhotoIsWanted(extensions: set<string>, folder: string, e: Entry, f: RemoteFile)
    requires KindOf(extensions, folder, e) == Photo(f)
    ensures e == Entry(Some(f.href), false, f.size, f.modified) && RStrip(f.href) != RStrip(folder)
    ensures f.name == Paths.Name(f.href) && Fold(Paths.Suffix(f.name)) in extensions
  {
    assert e.href.Some? && !e.collection;
    var href := e.href.value;
    assert RStrip(href) != RStrip(folder);
    assert Photo(f) == Photo(RemoteFile(href, Paths.Name(href), e.size, e.modified));
  }

  lemma WantedIsPhoto(extensions: set<string>, folder: string, f: RemoteFile)
    requires RStrip(f.href) != RStrip(folder)
    requires f.name == Paths.Name(f.href) && Fold(Paths.Suffix(f.name)) in extensions
    ensures KindOf(extensions, folder, Entry(Some(f.href), false, f.size, f.modified)) == Photo(f)
  {
  }

  lemma PhotoInView(server: Server, extensions: set<string>, folder: string, f: RemoteFile)
    ensures Photo(f) in ViewOf(server, extensions)(folder) <==> ListsPhoto(server, extensions, folder, f)
  {
    KindsInView(server, extensions, folder, Photo(f));
    if Photo(f) in ViewOf(server, extensions)(folder) {
      PhotoIsInListing(server, extensions, folder, f);
    }
    if ListsPhoto(server, extensions, folder, f) {
      WantedIsPhoto(extensions, folder, f);
    }
  }

  lemma PhotoIsInListing(server: Server, extensions: set<string>, folder: string, f: RemoteFile)
    requires server(folder).Some? && exists e: Entry :: e in server(folder).value && Photo(f) == KindOf(extensions, folder, e)
    ensures ListsPhoto(server, extensions, folder, f)
  {
    var e: Entry :| e in server(folder).value && Photo(f) == KindOf(extensions, folder, e);
    PhotoIsWanted(extensions, folder, e, f);
  }

  lemma {:induction false} WalkIsNested(server: Server, extensions: set<string>, from: string, to: string, k: nat)
    requires Walk(ViewOf(server, extensions), from, to, k)
    ensures Nested(server, from, to, k)
    decreases k
  {
    if k > 0 {
      var href := NextFolder(ViewOf(server, extensions), from, to, k);
      WalkIsNested(server, extensions, href, to, k - 1);
      FolderInView(server, extensions, from, href);
      var e: Entry :| Lists(server, from, e) && e.collection && e.href.value == href;
    }
  }

  lemma NextFolder(view: View, from: string, to: string, k: nat) returns (href: string)
    requires k > 0 && Walk(view, from, to, k)
    ensures Folder(href) in view(from) && Walk(view, href, to, k - 1)
  {
    href :| Folder(href) in view(from) && Walk(view, href, to, k - 1);
  }

  lemma {:induction false} NestedIsWalk(server: Server, extensions: set<string>, from: string, to: string, k: nat)
    requires Nested(server, from, to, k)
    ensures Walk(ViewOf(server, extensions), from, to, k)
    decreases k
  {
    if k > 0 {
      var e: Entry :| Lists(server, from, e) && e.collection && Nested(server, e.href.value, to, k - 1);
      NestedIsWalk(server, extensions, e.href.value, to, k - 1);
      FolderInView(server, extensions, from, e.href.value);
    }
  }

  /** `f` is listed as a photo by a folder at most five collections below `path`. */
  ghost predicate ListedBelow(server: Server, extensions: set<string>, path: string, f: RemoteFile) {
    exists k: nat, folder :: k <= 5 && Nested(server, path, folder, k) && ListsPhoto(server, extensions, folder, f)
  }

  /** A walk collects exactly such files. */
  lemma CollectedIffListed(server: Server, extensions: set<string>, path: string, f: RemoteFile)
    ensures f in Collected(ViewOf(server, extensions), path, 0) <==> ListedBelow(server, extensions, path, f)
  {
    var view := ViewOf(server, extensions);
    CollectedIsWhatIsFound(view, path, 0, f);
    if FoundWithin(view, path, MAX_DEPTH, f) {
      var k: nat, folder :| k <= MAX_DEPTH && Walk(view, path, folder, k) && Photo(f) in view(folder);
      WalkIsNested(server, extensions, path, folder, k);
      PhotoInView(server, extensions, folder, f);
    }
    if ListedBelow(server, extensions, path, f) {
      var k: nat, folder :| k <= 5 && Nested(server, path, folder, k) && ListsPhoto(server, extensions, folder, f);
      NestedIsWalk(server, extensions, path, folder, k);
      PhotoInView(server, extensions, folder, f);
    }
  }

  /** `list_remote_files` */
  method ListRemoteFiles(server: Server, extensions: set<string>, path: string) returns (files: seq<RemoteFile>)
    ensures forall f :: f in files <==> ListedBelow(server, extensions, path, f)
  {
    files := CollectFiles(server, extensions, path, [], 0);
    forall f ensures f in files <==> ListedBelow(server, extensions, path, f) {
      CollectedIffListed(server, extensions, path, f);
    }
  }

  // ---- Requested paths ----

  function SlashRun(n: nat): string {
    seq(n, _ => '/')
  }

  lemma {:induction false} LeadingSlashesGo(n: nat, s: string)
    requires s != "" ==> s[0] != '/'
    ensures LStrip(SlashRun(n) + s) == s
  {
    if n > 0 {
      assert (SlashRun(n) + s)[1..] == SlashRun(n - 1) + s;
      LeadingSlashesGo(n - 1, s);
    } else {
      assert SlashRun(0) + s == s;
    }
  }

  lemma {:induction false} TrailingSlashesGo(n: nat, s: string)
    requires s != "" ==> s[|s| - 1] != '/'
    ensures RStrip(s + SlashRun(n)) == s
  {
    if n > 0 {
      var t := s + SlashRun(n);
      assert t[..|t| - 1] == s + SlashRun(n - 1) && t[|t| - 1] == '/';
      TrailingSlashesGo(n - 1, s);
    } else {
      assert s + SlashRun(0) == s;
    }
  }

  /** A path is normalized to one slash in front and none behind, and what is between stays; slashes alone become one. */
  lemma NormalizedPath(before: nat, core: string, behind: nat)
    requires core != "" && core[0] != '/' && core[|core| - 1] != '/'
    ensures Normalize(SlashRun(before) + core + SlashRun(behind)) == "/" + core && Normalize(SlashRun(before)) == "/"
  {
    assert SlashRun(before) + core + SlashRun(behind) == SlashRun(before) + (core + SlashRun(behind));
    LeadingSlashesGo(before, core + SlashRun(behind));
    TrailingSlashesGo(behind, core);
    LeadingSlashesGo(before, "");
    assert SlashRun(before) + "" == SlashRun(before);
  }

  /** The root covers everything; a folder covers itself and what is inside it, in any case, and not what merely starts alike. */
  lemma WhatAFolderCovers(folder: string, inside: string, c: char, rest: string)
    requires IsNormal(folder) && folder != "/" && c != '/'
    ensures Covers(folder, folder) && Covers(folder, folder + "/" + inside) && !Covers(folder, folder + [c] + rest)
    ensures Covers("/", folder)
    ensures Covers(folder, Fold(folder + "/" + inside)) && Covers(Fold(folder), folder + "/" + inside)
  {
    RStripOfNormal(folder);
    FoldConcat(folder + "/", inside);
    FoldConcat(folder, "/");
    FoldTwice(folder + "/" + inside);
    FoldTwice(folder);
    FoldedIsNormal(folder);
    RStripOfNormal(Fold(folder));
    RStripOfNormal("/");
    var path := folder + [c] + rest;
    assert Fold(path)[|folder|] == FoldChar(c) != '/';
    assert |Fold(path)| > |Fold(folder)|;
  }

  lemma FoldedIsNormal(folder: string)
    requires IsNormal(folder) && folder != "/"
    ensures IsNormal(Fold(folder)) && Fold(folder) != "/"
  {
  }

  /** The roots come with fewer slashes first, and in the order of their folded text among equals. */
  lemma OrderOfRoots(a: string, b: string)
    ensures RootOrder()(a, b) <==> SlashCount(a) < SlashCount(b) || (SlashCount(a) == SlashCount(b) && Le(Fold(a), Fold(b)))
  {
    SlashesAreCounted(a);
    SlashesAreCounted(b);
  }

  function SlashesAt(s: string): set<nat> {
    set i: nat | i < |s| && s[i] == '/'
  }

  /** `path.count("/")` */
  function SlashCount(s: string): nat {
    |SlashesAt(s)|
  }

  lemma {:induction false} SlashesAreCounted(s: string)
    ensures Slashes(s) == SlashCount(s)
  {
    if s == "" {
      assert SlashesAt(s) == {};
    } else {
      var n := |s| - 1;
      SlashesAreCounted(s[..n]);
      assert SlashesAt(s) == SlashesAt(s[..n]) + if s[n] == '/' then {n} else {};
    }
  }
}
