/** A server on which scanning the reduced roots loses a photo, for every requested folder with a requested one in it. */
module DeepFolders {
  import opened Text
  import opened Remote
  import opened RemoteScan
  import opened RemoteWalk
  import Reduction
  import Paths

  /** The folders `base`, `base/step`, `base/step/step`, ... */
  datatype Chain = Chain(base: string, step: string)

  predicate Proper(c: Chain) {
    IsNormal(c.base) && c.base != "/" && c.step != "" && '/' !in c.step
  }

  function Level(c: Chain, i: nat): string {
    if i == 0 then c.base else Level(c, i - 1) + "/" + c.step
  }

  lemma {:induction false} SlashesJoin(s: string, step: string)
    requires '/' !in step
    ensures Slashes(s + "/" + step) == Slashes(s) + 1
  {
    var t := s + "/" + step;
    if step == "" {
      assert t == s + "/" && t[..|t| - 1] == s;
    } else {
      var init := step[..|step| - 1];
      assert t[..|t| - 1] == s + "/" + init;
      assert t[|t| - 1] == step[|step| - 1] != '/';
      SlashesJoin(s, init);
    }
  }

  lemma {:induction false} LevelsAre(c: Chain, i: nat)
    requires Proper(c)
    ensures IsNormal(Level(c, i)) && Level(c, i) != "/" && RStrip(Level(c, i)) == Level(c, i)
    ensures Slashes(Level(c, i)) == Slashes(c.base) + i
  {
    if i > 0 {
      LevelsAre(c, i - 1);
      SlashesJoin(Level(c, i - 1), c.step);
    }
    RStripOfNormal(Level(c, i));
  }

  /** Which of the first levels a folder is. */
  function LevelIndex(c: Chain, folder: string, last: nat): Option<nat> {
    if Level(c, last) == folder then Some(last)
    else if last == 0 then None
    else LevelIndex(c, folder, last - 1)
  }

  lemma {:induction false} LevelHasIndex(c: Chain, i: nat, last: nat)
    requires Proper(c) && i <= last
    ensures LevelIndex(c, Level(c, i), last) == Some(i)
  {
    if i < last {
      LevelsAre(c, i);
      LevelsAre(c, last);
      LevelHasIndex(c, i, last - 1);
    }
  }

  /** A file name with an extension that the scan looks for. */
  predicate IsPhotoName(extensions: set<string>, name: string) {
    name != "" && name != "." && '/' !in name && Fold(Paths.Suffix(name)) in extensions
  }

  function PhotoIn(folder: string, name: string): RemoteFile {
    RemoteFile(folder + "/" + name, name, 1, "")
  }

  /** Folders nested `last` deep, with one photo in the innermost. */
  function DeepListing(c: Chain, last: nat, name: string, folder: string): Option<seq<Entry>> {
    match LevelIndex(c, folder, last)
    case None => None
    case Some(i) =>
      if i < last then Some([Entry(Some(Level(c, i + 1)), true, 0, "")])
      else Some([Entry(Some(PhotoIn(folder, name).href), false, 1, "")])
  }

  function DeepServer(c: Chain, last: nat, name: string): Server {
    (path: string) => DeepListing(c, last, name, RStrip(path))
  }

  lemma PhotoKind(extensions: set<string>, folder: string, name: string)
    requires IsPhotoName(extensions, name) && RStrip(folder) == folder
    ensures KindOf(extensions, folder, Entry(Some(PhotoIn(folder, name).href), false, 1, "")) == Photo(PhotoIn(folder, name))
  {
    var href := folder + "/" + name;
    assert href[|folder| + 1..] == name;
    Paths.RFindIs(href, '/', |folder|);
    assert Paths.Name(href) == name;
    NotStripped(href);
    assert |href| > |folder|;
  }

  lemma NotStripped(s: string)
    requires s != "" && s[|s| - 1] != '/'
    ensures RStrip(s) == s
  {
  }

  lemma FolderKind(extensions: set<string>, folder: string, inner: string)
    requires RStrip(folder) != RStrip(inner)
    ensures KindOf(extensions, folder, Entry(Some(inner), true, 0, "")) == Folder(inner)
  {
  }

  /** What a walk sees at each level of a chain of folders. */
  function LevelKinds(level: nat -> string, photo: RemoteFile, last: nat, i: nat): seq<Kind> {
    if i < last then [Folder(level(i + 1))] else [Photo(photo)]
  }

  ghost predicate ShowsLevels(view: View, level: nat -> string, photo: RemoteFile, last: nat) {
    forall i: nat {:trigger view(level(i))} :: i <= last ==> view(level(i)) == LevelKinds(level, photo, last, i)
  }

  lemma {:induction false} DeepWalk(view: View, level: nat -> string, photo: RemoteFile, last: nat, i: nat, to: string, k: nat)
    requires ShowsLevels(view, level, photo, last) && i <= last && Walk(view, level(i), to, k)
    ensures i + k <= last && to == level(i + k)
    decreases k
  {
    if k > 0 {
      assert view(level(i)) == LevelKinds(level, photo, last, i);
      var href :| Folder(href) in view(level(i)) && Walk(view, href, to, k - 1);
      DeepWalk(view, level, photo, last, i + 1, to, k - 1);
    }
  }

  lemma {:induction false} DeepWalkExists(view: View, level: nat -> string, photo: RemoteFile, last: nat, i: nat, k: nat)
    requires ShowsLevels(view, level, photo, last) && i + k <= last
    ensures Walk(view, level(i), level(i + k), k)
    decreases k
  {
    if k > 0 {
      DeepWalkExists(view, level, photo, last, i + 1, k - 1);
      assert view(level(i)) == LevelKinds(level, photo, last, i);
      assert Folder(level(i + 1)) in view(level(i));
    }
  }

  /** On a chain of six folders the photo at the end is found from the second folder and not from the first. */
  lemma FoundFromSecondLevel(view: View, level: nat -> string, photo: RemoteFile, last: nat)
    requires ShowsLevels(view, level, photo, last) && last == MAX_DEPTH + 1
    ensures FoundWithin(view, level(1), MAX_DEPTH, photo) && !FoundWithin(view, level(0), MAX_DEPTH, photo)
  {
    DeepWalkExists(view, level, photo, last, 1, MAX_DEPTH);
    assert view(level(1 + MAX_DEPTH)) == LevelKinds(level, photo, last, last);
    forall k: nat, folder | k <= MAX_DEPTH && Walk(view, level(0), folder, k) ensures Photo(photo) !in view(folder) {
      DeepWalk(view, level, photo, last, 0, folder, k);
      assert view(level(k)) == LevelKinds(level, photo, last, k);
    }
  }

  lemma DeepListingAt(c: Chain, last: nat, name: string, i: nat)
    requires Proper(c) && i <= last
    ensures DeepServer(c, last, name)(Level(c, i)) ==
            Some(if i < last then [Entry(Some(Level(c, i + 1)), true, 0, "")]
                 else [Entry(Some(PhotoIn(Level(c, i), name).href), false, 1, "")])
  {
    LevelsAre(c, i);
    LevelHasIndex(c, i, last);
  }

  lemma LevelOf(c: Chain, last: nat, name: string, extensions: set<string>, i: nat)
    requires Proper(c) && i <= last && IsPhotoName(extensions, name)
    ensures ViewOf(DeepServer(c, last, name), extensions)(Level(c, i)) ==
            if i < last then [Folder(Level(c, i + 1))] else [Photo(PhotoIn(Level(c, last), name))]
  {
    DeepListingAt(c, last, name, i);
    OneEntry(extensions, DeepServer(c, last, name), Level(c, i));
    LevelsAre(c, i);
    if i < last {
      LevelsAre(c, i + 1);
      FolderKind(extensions, Level(c, i), Level(c, i + 1));
    } else {
      PhotoKind(extensions, Level(c, i), name);
    }
  }

  function Levels(c: Chain): nat -> string {
    (i: nat) => Level(c, i)
  }

  lemma ServerShowsLevels(c: Chain, last: nat, name: string, extensions: set<string>, view: View, photo: RemoteFile)
    requires Proper(c) && IsPhotoName(extensions, name)
    requires view == ViewOf(DeepServer(c, last, name), extensions) && photo == PhotoIn(Level(c, last), name)
    ensures ShowsLevels(view, Levels(c), photo, last)
  {
    forall i: nat | i <= last ensures view(Levels(c)(i)) == LevelKinds(Levels(c), photo, last, i) {
      LevelOf(c, last, name, extensions, i);
      KindsAtLevel(c, photo, last, i);
    }
  }

  lemma KindsAtLevel(c: Chain, photo: RemoteFile, last: nat, i: nat)
    ensures LevelKinds(Levels(c), photo, last, i) == if i < last then [Folder(Level(c, i + 1))] else [Photo(photo)]
    ensures Levels(c)(i) == Level(c, i)
  {
  }

  lemma OneEntry(extensions: set<string>, server: Server, folder: string)
    requires server(folder).Some? && |server(folder).value| == 1
    ensures ViewOf(server, extensions)(folder) == [KindOf(extensions, folder, server(folder).value[0])]
  {
  }

  /** Of the first two folders only the first is kept. */
  lemma FirstCoversSecond(base: string, step: string)
    requires Proper(Chain(base, step))
    ensures var requested := [base, base + "/" + step];
            Prepared(requested) && Reduction.Roots(Cover(), requested) == [base]
  {
    var inner := base + "/" + step;
    var requested := [base, inner];
    var c := Chain(base, step);
    LevelsAre(c, 0);
    LevelsAre(c, 1);
    assert Level(c, 1) == inner;
    assert RootOrder()(base, inner);
    NormalPathsAreLawful(requested);
    FoldConcat(base + "/", step);
    FoldConcat(base, "/");
    assert Covers(base, inner);
    assert Reduction.Reduce(Cover(), requested, 1) == [base];
    assert Cover()([base][0], requested[1]);
    assert Reduction.CoveredByOne(Cover(), [base], requested[1]);
  }

  /**
   A server with six folders below `base` and a photo in the last: scanning `base` and `base/step` finds the photo, and
   scanning the reduced roots, which is `base` alone, does not.
   */
  lemma ReductionLosesDeepPhoto(base: string, step: string, last: nat, name: string, extensions: set<string>)
    requires Proper(Chain(base, step)) && last == MAX_DEPTH + 1 && IsPhotoName(extensions, name)
    ensures var c := Chain(base, step);
            var view := ViewOf(DeepServer(c, last, name), extensions);
            var requested := [base, base + "/" + step];
            && Prepared(requested) && IgnoresTrailingSlash(DeepServer(c, last, name))
            && PhotoIn(Level(c, last), name) in Found(view, requested)
            && PhotoIn(Level(c, last), name) !in Found(view, Reduction.Roots(Cover(), requested))
  {
    var c := Chain(base, step);
    var view := ViewOf(DeepServer(c, last, name), extensions);
    ServerShowsLevels(c, last, name, extensions, view, PhotoIn(Level(c, last), name));
    FoundFromSecondLevel(view, Levels(c), PhotoIn(Level(c, last), name), last);
    FirstCoversSecond(base, step);
    FirstLevels(c);
    TwoPaths(view, base, base + "/" + step, PhotoIn(Level(c, last), name));
  }

  lemma FirstLevels(c: Chain)
    ensures Levels(c)(0) == c.base && Levels(c)(1) == c.base + "/" + c.step
  {
  }

  /** Two of the folders that a job scans are of this kind. */
  lemma PicturesAreProper()
    ensures Proper(Chain("/Pictures", "Screenshots")) && Level(Chain("/Pictures", "Screenshots"), 1) == "/Pictures/Screenshots"
  {
    assert Level(Chain("/Pictures", "Screenshots"), 0) == "/Pictures";
    assert "/Pictures" + "/" + "Screenshots" == "/Pictures/Screenshots";
  }

  lemma TwoPaths(view: View, p: string, q: string, f: RemoteFile)
    requires FoundWithin(view, q, MAX_DEPTH, f) && !FoundWithin(view, p, MAX_DEPTH, f)
    ensures f in Found(view, [p, q]) && f !in Found(view, [p])
  {
    FoundIffFromOne(view, [p, q], f);
    FoundIffFromOne(view, [p], f);
    assert q in [p, q];
  }
}
