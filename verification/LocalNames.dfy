/** The local names of a download job: remote directories are flattened, clashing names get a hash of their href. */
module LocalNames {
  import opened Text
  import opened Remote
  import Paths

  /** The first eight hexadecimal digits of the SHA-1 of an href. */
  type Hash = string -> string

  predicate IsHex(c: char) {
    '0' <= c <= '9' || 'a' <= c <= 'f'
  }

  ghost predicate Hex8(hash: Hash) {
    forall href :: |hash(href)| == 8 && forall i :: 0 <= i < 8 ==> IsHex(hash(href)[i])
  }

  function Generated(hash: Hash, r: RemoteFile): string {
    var name := Paths.Name(r.name);
    Paths.Stem(name) + "_" + hash(r.href) + Paths.Suffix(name)
  }

  /** How many files have a name that folds to `folded`. */
  function NameCount(files: seq<RemoteFile>, folded: string): nat {
    if files == [] then 0
    else NameCount(files[..|files| - 1], folded) + if Fold(files[|files| - 1].name) == folded then 1 else 0
  }

  /** The local names of the first `k` files. */
  function Names(files: seq<RemoteFile>, hash: Hash, k: nat): (names: seq<string>)
    requires k <= |files|
    ensures |names| == k
  {
    if k == 0 then []
    else
      var before := Names(files, hash, k - 1);
      before + [if NeedsHash(files, before, files[k - 1]) then Generated(hash, files[k - 1]) else files[k - 1].name]
  }

  /** The name of `r` belongs to several files, or an earlier file has already taken it. */
  predicate NeedsHash(files: seq<RemoteFile>, before: seq<string>, r: RemoteFile) {
    NameCount(files, Fold(r.name)) > 1 || Taken(before, Fold(r.name))
  }

  predicate Taken(names: seq<string>, folded: string) {
    exists i :: 0 <= i < |names| && Fold(names[i]) == folded
  }

  predicate Hashed(files: seq<RemoteFile>, hash: Hash, i: nat)
    requires i < |files|
  {
    NeedsHash(files, Names(files, hash, i), files[i])
  }

  /** The naming step of a job. */
  method AssignLocalNames(files: seq<RemoteFile>, hash: Hash) returns (names: seq<string>)
    ensures names == Names(files, hash, |files|)
  {
    var totals := CountNames(files);
    var used: set<string> := {};
    names := [];
    for k := 0 to |files|
      invariant names == Names(files, hash, k)
      invariant used == Folded(names)
    {
      FoldedIsTaken(names, Fold(files[k].name));
      var localName := NameFor(files, hash, names, totals, used, files[k]);
      FoldedAppend(names, localName);
      NamesNext(files, hash, k);
      used := used + {Fold(localName)};
      names := names + [localName];
    }
  }

  /** One round of the loop. */
  method NameFor(files: seq<RemoteFile>, hash: Hash, ghost names: seq<string>, totals: map<string, nat>, used: set<string>, r: RemoteFile)
    returns (localName: string)
    requires CountIn(totals, Fold(r.name)) == NameCount(files, Fold(r.name))
    requires Fold(r.name) in used <==> Taken(names, Fold(r.name))
    ensures localName == if NeedsHash(files, names, r) then Generated(hash, r) else r.name
  {
    localName := r.name;
    if CountIn(totals, Fold(r.name)) > 1 || Fold(localName) in used {
      localName := Generated(hash, r);
    }
  }

  /** `totals.get(name, 0)` */
  function CountIn(totals: map<string, nat>, folded: string): nat {
    if folded in totals then totals[folded] else 0
  }

  method CountNames(files: seq<RemoteFile>) returns (totals: map<string, nat>)
    ensures forall f :: CountIn(totals, f) == NameCount(files, f)
  {
    totals := map[];
    for k := 0 to |files|
      invariant forall f :: CountIn(totals, f) == NameCount(files[..k], f)
    {
      var folded := Fold(files[k].name);
      assert files[..k + 1][..k] == files[..k];
      totals := totals[folded := CountIn(totals, folded) + 1];
    }
    assert files[..|files|] == files;
  }

  /** `used_names` */
  function Folded(names: seq<string>): set<string> {
    set n | n in names :: Fold(n)
  }

  lemma FoldedIsTaken(names: seq<string>, folded: string)
    ensures folded in Folded(names) <==> Taken(names, folded)
  {
    if folded in Folded(names) {
      var n :| n in names && Fold(n) == folded;
      var i :| 0 <= i < |names| && names[i] == n;
    }
  }

  lemma FoldedAppend(names: seq<string>, name: string)
    ensures Folded(names + [name]) == Folded(names) + {Fold(name)}
  {
    assert forall n :: n in names + [name] <==> n in names || n == name;
  }

  lemma NamesNext(files: seq<RemoteFile>, hash: Hash, k: nat)
    requires k < |files|
    ensures var before := Names(files, hash, k);
            Names(files, hash, k + 1) ==
            before + [if NeedsHash(files, before, files[k]) then Generated(hash, files[k]) else files[k].name]
  {
  }

  // ---- When names stay apart ----

  /** A file name as `_collect_files` yields it: one component, with a suffix. */
  predicate PhotoName(name: string) {
    Paths.Name(name) == name && Paths.Suffix(name) != ""
  }

  ghost predicate DistinctHashes(files: seq<RemoteFile>, hash: Hash) {
    forall i, j :: 0 <= i < j < |files| ==> hash(files[i].href) != hash(files[j].href)
  }

  ghost predicate ApartUpToCase(names: seq<string>) {
    forall i, j :: 0 <= i < j < |names| ==> Fold(names[i]) != Fold(names[j])
  }

  /** A file keeps a name that a later file's generated name folds to. */
  ghost predicate Clash(files: seq<RemoteFile>, hash: Hash) {
    exists i, j :: 0 <= i < j < |files| && Meets(files, hash, i, j)
  }

  predicate Meets(files: seq<RemoteFile>, hash: Hash, i: nat, j: nat)
    requires i < j < |files|
  {
    !Hashed(files, hash, i) && Hashed(files, hash, j) && Fold(files[i].name) == Fold(Generated(hash, files[j]))
  }

  lemma LastDot(stem: string, h: string, suffix: string)
    requires |suffix| >= 2 && suffix[0] == '.' && '.' !in suffix[1..]
    ensures Paths.RFind(Fold(stem + "_" + h + suffix), '.') == |stem| + 1 + |h|
  {
    var g := stem + "_" + h + suffix;
    var i := |stem| + 1 + |h|;
    assert g[i + 1..] == suffix[1..];
    forall k | i + 1 <= k < |g| ensures Fold(g)[k] != '.' {
      assert g[k] == suffix[1..][k - i - 1];
    }
    Paths.RFindIs(Fold(g), '.', i);
  }

  lemma HashInName(stem: string, h: string, suffix: string)
    requires |h| == 8 && forall i :: 0 <= i < |h| ==> IsHex(h[i])
    ensures Fold(stem + "_" + h + suffix)[|stem| + 1..|stem| + 9] == h
  {
    var g := stem + "_" + h + suffix;
    assert g[|stem| + 1..|stem| + 9] == h;
    forall i | 0 <= i < 8 ensures Fold(g)[|stem| + 1 + i] == h[i] {
      assert g[|stem| + 1 + i] == g[|stem| + 1..|stem| + 9][i];
    }
  }

  lemma SameFoldSameHash(sa: string, ha: string, xa: string, sb: string, hb: string, xb: string)
    requires |ha| == |hb| == 8 && (forall i :: 0 <= i < 8 ==> IsHex(ha[i])) && (forall i :: 0 <= i < 8 ==> IsHex(hb[i]))
    requires |xa| >= 2 && xa[0] == '.' && '.' !in xa[1..]
    requires |xb| >= 2 && xb[0] == '.' && '.' !in xb[1..]
    requires Fold(sa + "_" + ha + xa) == Fold(sb + "_" + hb + xb)
    ensures ha == hb
  {
    LastDot(sa, ha, xa);
    LastDot(sb, hb, xb);
    assert |sa| == |sb|;
    HashInName(sa, ha, xa);
    HashInName(sb, hb, xb);
  }

  /** The hash can be read off a generated name, whatever its case. */
  lemma HashIsRecoverable(hash: Hash, a: RemoteFile, b: RemoteFile)
    requires Hex8(hash) && PhotoName(a.name) && PhotoName(b.name)
    requires Fold(Generated(hash, a)) == Fold(Generated(hash, b))
    ensures hash(a.href) == hash(b.href)
  {
    SameFoldSameHash(Paths.Stem(a.name), hash(a.href), Paths.Suffix(a.name), Paths.Stem(b.name), hash(b.href), Paths.Suffix(b.name));
  }

  lemma {:induction false} NamesPrefix(files: seq<RemoteFile>, hash: Hash, i: nat, k: nat)
    requires i < k <= |files|
    ensures Names(files, hash, k)[..i] == Names(files, hash, i)
    ensures Names(files, hash, k)[i] == if Hashed(files, hash, i) then Generated(hash, files[i]) else files[i].name
  {
    NamesNext(files, hash, k - 1);
    var before := Names(files, hash, k - 1);
    assert Names(files, hash, k)[..k - 1] == before;
    if i < k - 1 {
      NamesPrefix(files, hash, i, k - 1);
      assert Names(files, hash, k)[..i] == before[..i];
    }
  }

  lemma {:induction false} SharedNameIsCounted(files: seq<RemoteFile>, i: nat, j: nat)
    requires i < j < |files| && Fold(files[i].name) == Fold(files[j].name)
    ensures NameCount(files, Fold(files[i].name)) > 1
  {
    if j < |files| - 1 {
      SharedNameIsCounted(files[..|files| - 1], i, j);
    } else {
      NameIsCounted(files[..|files| - 1], i);
    }
  }

  lemma {:induction false} NameIsCounted(files: seq<RemoteFile>, i: nat)
    requires i < |files|
    ensures NameCount(files, Fold(files[i].name)) > 0
  {
    if i < |files| - 1 {
      NameIsCounted(files[..|files| - 1], i);
    }
  }

  /** Two names can only meet where a kept name looks like a name generated later. */
  lemma NamesMeetOnlyInClash(files: seq<RemoteFile>, hash: Hash, i: nat, j: nat)
    requires Hex8(hash) && DistinctHashes(files, hash) && (forall r :: r in files ==> PhotoName(r.name))
    requires i < j < |files|
    ensures var names := Names(files, hash, |files|);
            Fold(names[i]) == Fold(names[j]) <==> Meets(files, hash, i, j)
  {
    var names := Names(files, hash, |files|);
    NamesPrefix(files, hash, i, |files|);
    NamesPrefix(files, hash, j, |files|);
    assert files[i] in files && files[j] in files;
    if Fold(names[i]) == Fold(names[j]) {
      if !Hashed(files, hash, j) {
        assert Names(files, hash, j)[i] == names[i] by {
          assert names[..j][i] == names[i];
        }
        assert Taken(Names(files, hash, j), Fold(files[j].name));
      } else if Hashed(files, hash, i) {
        HashIsRecoverable(hash, files[i], files[j]);
      }
    }
  }

  /** With distinct truncated hashes, all local names differ up to case if and only if there is no such clash. */
  lemma LocalNamesApartIffNoClash(files: seq<RemoteFile>, hash: Hash)
    requires Hex8(hash) && DistinctHashes(files, hash) && (forall r :: r in files ==> PhotoName(r.name))
    ensures ApartUpToCase(Names(files, hash, |files|)) <==> !Clash(files, hash)
  {
    var names := Names(files, hash, |files|);
    if i, j :| 0 <= i < j < |files| && Meets(files, hash, i, j) {
      NamesMeetOnlyInClash(files, hash, i, j);
      assert Clash(files, hash);
    } else {
      forall i, j | 0 <= i < j < |names| ensures Fold(names[i]) != Fold(names[j]) {
        NamesMeetOnlyInClash(files, hash, i, j);
      }
    }
  }

  /** In particular when no remote name looks like a generated one, which the listing shows before any download. */
  lemma NoGeneratedLookalikes(files: seq<RemoteFile>, hash: Hash)
    requires Hex8(hash) && DistinctHashes(files, hash) && (forall r :: r in files ==> PhotoName(r.name))
    requires forall r, s :: r in files && s in files ==> Fold(r.name) != Fold(Generated(hash, s))
    ensures ApartUpToCase(Names(files, hash, |files|))
  {
    LocalNamesApartIffNoClash(files, hash);
  }

  /** A listing with a file `stem + suffix` in two folders, and a file with the name generated for the first of them. */
  function Lookalikes(hash: Hash, stem: string, suffix: string): seq<RemoteFile> {
    var name := stem + suffix;
    var first := stem + "_" + hash("/b/" + name) + suffix;
    [RemoteFile("/a/" + first, first, 0, ""), RemoteFile("/b/" + name, name, 0, ""), RemoteFile("/c/" + name, name, 0, "")]
  }

  predicate PhotoParts(stem: string, suffix: string) {
    && stem != "" && '/' !in stem && '/' !in suffix
    && |suffix| >= 2 && suffix[0] == '.' && '.' !in suffix[1..]
  }

  lemma PartsMakePhotoName(stem: string, suffix: string)
    requires PhotoParts(stem, suffix)
    ensures PhotoName(stem + suffix) && Paths.Stem(stem + suffix) == stem && Paths.Suffix(stem + suffix) == suffix
  {
    Paths.NameOfPlain(stem + suffix);
    Paths.SplitIsRecovered(stem, suffix);
  }

  lemma HashHasNoSlash(hash: Hash, href: string)
    requires Hex8(hash)
    ensures '/' !in hash(href) && |hash(href)| == 8
  {
    assert forall i :: 0 <= i < 8 ==> IsHex(hash(href)[i]);
  }

  lemma HashedPartsMakePhotoName(stem: string, suffix: string, h: string)
    requires PhotoParts(stem, suffix) && '/' !in h
    ensures PhotoName(stem + "_" + h + suffix)
  {
    var longer := stem + "_" + h;
    assert PhotoParts(longer, suffix);
    PartsMakePhotoName(longer, suffix);
  }

  lemma GeneratedFromParts(hash: Hash, r: RemoteFile, stem: string, suffix: string)
    requires PhotoParts(stem, suffix) && r.name == stem + suffix
    ensures Generated(hash, r) == stem + "_" + hash(r.href) + suffix
  {
    PartsMakePhotoName(stem, suffix);
  }

  /** Its hrefs are distinct and in the order of a listing. */
  lemma LookalikesAreListed(hash: Hash, stem: string, suffix: string)
    ensures var files := Lookalikes(hash, stem, suffix);
            forall i, j :: 0 <= i < j < |files| ==> files[i].href != files[j].href && Le(Fold(files[i].href), Fold(files[j].href))
  {
    var files := Lookalikes(hash, stem, suffix);
    forall i, j | 0 <= i < j < 3 ensures files[i].href != files[j].href && Le(Fold(files[i].href), Fold(files[j].href)) {
      assert files[i].href[1] < files[j].href[1];
      SecondCharOrders(files[i].href, files[j].href);
    }
  }

  lemma SecondCharOrders(a: string, b: string)
    requires |a| >= 2 && |b| >= 2 && a[0] == b[0] && FoldChar(a[1]) < FoldChar(b[1])
    ensures a != b && Le(Fold(a), Fold(b))
  {
    assert Fold(a)[1..][0] == FoldChar(a[1]) && Fold(b)[1..][0] == FoldChar(b[1]);
  }

  /** Two of its local names are the same. */
  lemma LookalikesClash(hash: Hash, stem: string, suffix: string)
    requires Hex8(hash) && PhotoParts(stem, suffix)
    ensures var files := Lookalikes(hash, stem, suffix);
            && PhotoName(files[0].name) && PhotoName(files[1].name) && PhotoName(files[2].name)
            && Clash(files, hash) && Names(files, hash, |files|)[0] == Names(files, hash, |files|)[1]
  {
    var files := Lookalikes(hash, stem, suffix);
    HashHasNoSlash(hash, files[1].href);
    PartsMakePhotoName(stem, suffix);
    HashedPartsMakePhotoName(stem, suffix, hash(files[1].href));
    GeneratedFromParts(hash, files[1], stem, suffix);
    SecondMeetsFirst(files, hash);
  }

  lemma SecondMeetsFirst(files: seq<RemoteFile>, hash: Hash)
    requires |files| == 3 && Generated(hash, files[1]) == files[0].name
    requires |files[0].name| > |files[1].name| && files[1].name == files[2].name
    ensures Clash(files, hash) && Names(files, hash, 3)[0] == Names(files, hash, 3)[1]
  {
    OnlyOneHasName(files, Fold(files[0].name));
    SharedNameIsCounted(files, 1, 2);
    assert !Taken(Names(files, hash, 0), Fold(files[0].name));
    assert !Hashed(files, hash, 0) && Hashed(files, hash, 1);
    assert Meets(files, hash, 0, 1);
    NamesPrefix(files, hash, 0, 3);
    NamesPrefix(files, hash, 1, 3);
  }

  lemma OnlyOneHasName(files: seq<RemoteFile>, folded: string)
    requires |files| == 3 && Fold(files[1].name) != folded && Fold(files[2].name) != folded
    ensures NameCount(files, folded) <= 1
  {
    assert files[..2][..1] == files[..1];
    assert NameCount(files[..1], folded) <= 1;
    assert NameCount(files[..2], folded) == NameCount(files[..1], folded);
  }

  /** The hashes of these files may well be distinct, so distinct hashes do not rule the clash out. */
  lemma LookalikesMayHaveDistinctHashes(stem: string, suffix: string)
    ensures var hash := (href: string) => if "/b" <= href then "bbbbbbbb" else if "/c" <= href then "cccccccc" else "aaaaaaaa";
            Hex8(hash) && DistinctHashes(Lookalikes(hash, stem, suffix), hash)
  {
    var hash := (href: string) => if "/b" <= href then "bbbbbbbb" else if "/c" <= href then "cccccccc" else "aaaaaaaa";
    var files := Lookalikes(hash, stem, suffix);
    assert files[0].href[1] == 'a' && files[1].href[1] == 'b' && files[2].href[1] == 'c';
  }

  // ---- Names across retries ----

  /** A generated name is longer than the name it is made from. */
  lemma GeneratedDiffers(hash: Hash, r: RemoteFile)
    requires Hex8(hash) && PhotoName(r.name)
    ensures |Generated(hash, r)| == |r.name| + 9
  {
    Paths.StemAndSuffix(r.name);
  }

  /** A retry names its files afresh: a file keeps its local name if and only if both jobs hash it or neither does. */
  lemma RetryKeepsNameIff(files: seq<RemoteFile>, retry: seq<RemoteFile>, hash: Hash, i: nat, k: nat)
    requires Hex8(hash) && i < |files| && k < |retry| && retry[k] == files[i] && PhotoName(files[i].name)
    ensures Names(files, hash, |files|)[i] == Names(retry, hash, |retry|)[k] <==> (Hashed(files, hash, i) <==> Hashed(retry, hash, k))
  {
    NamesPrefix(files, hash, i, |files|);
    NamesPrefix(retry, hash, k, |retry|);
    GeneratedDiffers(hash, files[i]);
  }

  /** A file that shares its name with another is hashed in the full job and, when it alone is retried, not any more. */
  lemma RetryAloneRenames(hash: Hash, a: RemoteFile, b: RemoteFile)
    requires Hex8(hash) && Fold(a.name) == Fold(b.name) && PhotoName(b.name)
    ensures Names([b], hash, 1)[0] == b.name != Names([a, b], hash, 2)[1]
  {
    var files := [a, b];
    SharedNameIsCounted(files, 0, 1);
    assert [b][..0] == [] && [b][0] == b;
    assert NameCount([b], Fold(b.name)) == NameCount([], Fold(b.name)) + 1;
    assert !Taken(Names([b], hash, 0), Fold(b.name));
    RetryKeepsNameIff(files, [b], hash, 1, 0);
    NamesPrefix([b], hash, 0, 1);
  }

  // ---- Each name ----

  function Holders(files: seq<RemoteFile>, folded: string): set<nat> {
    set i: nat | i < |files| && Fold(files[i].name) == folded
  }

  lemma {:induction false} HoldersAreCounted(files: seq<RemoteFile>, folded: string)
    ensures NameCount(files, folded) == |Holders(files, folded)|
  {
    if files == [] {
      assert Holders(files, folded) == {};
    } else {
      var n := |files| - 1;
      HoldersAreCounted(files[..n], folded);
      assert Holders(files, folded) == Holders(files[..n], folded) + if Fold(files[n].name) == folded then {n} else {};
    }
  }

  /** Another file has the same name up to case. */
  predicate SharesName(files: seq<RemoteFile>, i: nat)
    requires i < |files|
  {
    exists j :: 0 <= j < |files| && j != i && Fold(files[j].name) == Fold(files[i].name)
  }

  lemma SharedIff(files: seq<RemoteFile>, i: nat)
    requires i < |files|
    ensures NameCount(files, Fold(files[i].name)) > 1 <==> SharesName(files, i)
  {
    HoldersAreCounted(files, Fold(files[i].name));
    OthersHold(files, i);
    OneOfSeveral(Holders(files, Fold(files[i].name)), i);
  }

  lemma OthersHold(files: seq<RemoteFile>, i: nat)
    requires i < |files|
    ensures i in Holders(files, Fold(files[i].name))
    ensures SharesName(files, i) <==> HasOther(Holders(files, Fold(files[i].name)), i)
  {
    var all := Holders(files, Fold(files[i].name));
    if SharesName(files, i) {
      var j :| 0 <= j < |files| && j != i && Fold(files[j].name) == Fold(files[i].name);
      assert j in all;
    }
  }

  predicate HasOther(all: set<nat>, i: nat) {
    exists j :: j in all && j != i
  }

  lemma OneOfSeveral(all: set<nat>, i: nat)
    requires i in all
    ensures |all| > 1 <==> HasOther(all, i)
  {
    var rest := all - {i};
    assert |rest| == |all| - 1;
    if j :| j in all && j != i {
      assert j in rest;
    } else {
      assert rest == {};
    }
  }

  /** An earlier file got a local name that is the same up to case. */
  predicate NameInUse(files: seq<RemoteFile>, names: seq<string>, i: nat)
    requires i < |files| && i <= |names|
  {
    exists j :: 0 <= j < i && Fold(names[j]) == Fold(files[i].name)
  }

  /** A photo keeps its name, unless it shares it or the name is in use; then the hash of its href comes behind the stem. */
  lemma LocalNameIs(files: seq<RemoteFile>, hash: Hash, i: nat, stem: string, suffix: string)
    requires i < |files| && PhotoParts(stem, suffix) && files[i].name == stem + suffix
    ensures var names := Names(files, hash, |files|);
            names[i] == if SharesName(files, i) || NameInUse(files, names, i) then stem + "_" + hash(files[i].href) + suffix
                        else stem + suffix
  {
    var names := Names(files, hash, |files|);
    NamesPrefix(files, hash, i, |files|);
    SharedIff(files, i);
    GeneratedFromParts(hash, files[i], stem, suffix);
    InUseIff(files, names, Names(files, hash, i), i);
  }

  lemma InUseIff(files: seq<RemoteFile>, names: seq<string>, before: seq<string>, i: nat)
    requires i < |files| && i <= |names| && names[..i] == before
    ensures Taken(before, Fold(files[i].name)) <==> NameInUse(files, names, i)
  {
    assert forall j :: 0 <= j < i ==> names[j] == before[j];
  }
}
