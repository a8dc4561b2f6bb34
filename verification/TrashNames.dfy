/** Where requests put photos, in literal names. */
module TrashNames {
  import Paths
  import opened Trash

  /** A dot and at least one more character, none of them a dot. */
  predicate IsExtension(suffix: string) {
    |suffix| >= 2 && suffix[0] == '.' && '.' !in suffix[1..]
  }

  /** The photo `stem` + `suffix` in the folder, and the same with a tag behind the stem. */
  function Plain(dir: string, stem: string, suffix: string): FilePath {
    FilePath(dir, stem + suffix)
  }

  function Tagged(dir: string, stem: string, tag: string, suffix: string): FilePath {
    FilePath(dir, stem + "_" + tag + suffix)
  }

  /** The fallback keeps folder, stem and extension, and puts the tag between the last two. */
  lemma FallbackIs(dir: string, stem: string, suffix: string, tag: string)
    requires stem != "" && (IsExtension(suffix) || (suffix == "" && '.' !in stem))
    ensures WithSuffix(Plain(dir, stem, suffix), tag) == Tagged(dir, stem, tag, suffix)
  {
    if suffix == "" {
      assert stem + suffix == stem;
      assert Paths.Suffix(stem) == "" && Paths.Stem(stem) == stem;
    } else {
      Paths.SplitIsRecovered(stem, suffix);
    }
  }

  /** Every name is of this form, or has no extension: no dot, or only a dot in front or behind the last character. */
  lemma NamesSplit(name: string)
    ensures Paths.Stem(name) + Paths.Suffix(name) == name
    ensures Paths.Suffix(name) != "" ==> IsExtension(Paths.Suffix(name)) && Paths.Stem(name) != ""
  {
  }

  // ---- Fallback names do not meet ----

  /** Different tags give different paths, and none of them is the path itself. */
  lemma TagsAreApart(p: FilePath, tag: string, other: string)
    ensures WithSuffix(p, tag) != p
    ensures tag != other ==> WithSuffix(p, tag) != WithSuffix(p, other)
  {
    var stem, suffix := Paths.Stem(p.name), Paths.Suffix(p.name);
    assert stem + suffix == p.name;
    if WithSuffix(p, tag) == WithSuffix(p, other) {
      MiddleIsRecovered(stem + "_", tag, other, suffix);
    }
  }

  lemma MiddleIsRecovered(front: string, a: string, b: string, back: string)
    requires front + a + back == front + b + back
    ensures a == b
  {
    assert |a| == |b|;
    assert (front + a + back)[|front|..|front| + |a|] == a;
    assert (front + b + back)[|front|..|front| + |b|] == b;
  }

  /** In one folder different photo names have different fallbacks for one tag. */
  lemma FallbacksAreApart(p: FilePath, q: FilePath, tag: string)
    requires p != q && Paths.Suffix(p.name) != "" && Paths.Suffix(q.name) != ""
    ensures WithSuffix(p, tag) != WithSuffix(q, tag)
  {
    NamesSplit(p.name);
    NamesSplit(q.name);
    if WithSuffix(p, tag) == WithSuffix(q, tag) {
      TaggedNameSplits(Paths.Stem(p.name), Paths.Suffix(p.name), Paths.Stem(q.name), Paths.Suffix(q.name), tag);
    }
  }

  lemma TaggedNameSplits(a: string, x: string, b: string, y: string, tag: string)
    requires IsExtension(x) && IsExtension(y)
    requires a + "_" + tag + x == b + "_" + tag + y
    ensures a == b && x == y
  {
    Paths.SplitIsRecovered(a + "_" + tag, x);
    Paths.SplitIsRecovered(b + "_" + tag, y);
    assert a + ("_" + tag) == a + "_" + tag == b + "_" + tag == b + ("_" + tag);
    FrontIsRecovered(a, b, "_" + tag);
  }

  lemma FrontIsRecovered(a: string, b: string, back: string)
    requires a + back == b + back
    ensures a == b
  {
    assert |a| == |b|;
    assert (a + back)[..|a|] == a && (b + back)[..|b|] == b;
  }

  /** It takes an extension: with a name that ends in a dot, two names can share a fallback. */
  lemma OddNamesShareAFallback(dir: string, stem: string, tag: string)
    requires stem != "" && '.' !in tag && tag != ""
    ensures var p, q := FilePath(dir, stem + "_" + tag + "."), FilePath(dir, stem + "._" + tag);
            p != q && WithSuffix(p, tag) == WithSuffix(q, tag) == FilePath(dir, stem + "_" + tag + "._" + tag)
  {
    var p, q := FilePath(dir, stem + "_" + tag + "."), FilePath(dir, stem + "._" + tag);
    DotBehindIsNoExtension(stem + "_" + tag);
    assert q.name == stem + ("._" + tag) && ("._" + tag)[1..] == "_" + tag;
    FallbackIs(dir, stem, "._" + tag, tag);
    assert p.name[|stem|] == '_' && q.name[|stem|] == '.';
    assert stem + "_" + tag + "." + "_" + tag + "" == stem + "_" + tag + "._" + tag == stem + "_" + tag + ("._" + tag);
  }

  lemma DotBehindIsNoExtension(front: string)
    ensures Paths.Suffix(front + ".") == "" && Paths.Stem(front + ".") == front + "."
  {
    var name := front + ".";
    assert name[|front| + 1..] == "";
    Paths.RFindIs(name, '.', |front|);
  }

  // ---- Where a request moves a photo ----

  /** The file at `from` is at `to` now, in place of what was there, and nothing else has changed. */
  predicate Moved(before: FileMap, after: FileMap, from: FilePath, to: FilePath) {
    && from in before && to in after && after[to] == before[from] && (from != to ==> from !in after)
    && (forall p :: p in before && p != from && p != to ==> p in after && after[p] == before[p])
    && (forall p :: p in after && p != to ==> p in before)
  }

  /** `free` if nothing is there, otherwise `other`. */
  predicate FirstFree(files: FileMap, chosen: FilePath, free: FilePath, other: FilePath) {
    chosen == if free !in files then free else other
  }

  /** A delete moves the photo into its trash folder, under its name or its name with the inode, and records it. */
  lemma DeletePuts(l: Layout, s: State, dir: string, stem: string, suffix: string, inode: string, id: string, to: FilePath)
    requires stem != "" && IsExtension(suffix) && Plain(dir, stem, suffix) in s.files
    requires var folder := l.trashDir(Plain(dir, stem, suffix));
             FirstFree(s.files, to, Plain(folder, stem, suffix), Tagged(folder, stem, inode, suffix))
    ensures var path := Plain(dir, stem, suffix);
            var t := Do(l, s, Delete(path, inode, id, NoFault));
            Moved(s.files, t.files, path, to) && t.table == s.table[id := Entry(path, to, stem + suffix)]
  {
    FallbackIs(l.trashDir(Plain(dir, stem, suffix)), stem, suffix, inode);
  }

  /** A restore moves the file back to where it was, or beside the photo that is there now, and drops the entry. */
  lemma RestorePuts(l: Layout, s: State, id: string, dir: string, stem: string, suffix: string, to: FilePath)
    requires stem != "" && IsExtension(suffix)
    requires id in s.table && s.table[id].trashPath in s.files && s.table[id].original == Plain(dir, stem, suffix)
    requires FirstFree(s.files, to, Plain(dir, stem, suffix), Tagged(dir, stem, "restored", suffix))
    ensures var t := Do(l, s, Restore(id, NoFault));
            Moved(s.files, t.files, s.table[id].trashPath, to) && t.table == s.table - {id}
  {
    FallbackIs(dir, stem, suffix, "restored");
  }

  /** A listing moves a file out of the old folder into the trash folder of its photo, under its name there or with the id. */
  lemma MigrationPuts(l: Layout, s: State, id: string, stem: string, suffix: string, to: FilePath)
    requires stem != "" && IsExtension(suffix) && id in s.table
    requires s.table[id].trashPath == Plain(l.legacyDir, stem, suffix) && s.table[id].trashPath in s.files
    requires var folder := l.trashDir(s.table[id].original);
             FirstFree(s.files, to, Plain(folder, stem, suffix), Tagged(folder, stem, id, suffix))
    ensures var t := Do(l, s, Migrate(id, NoFault));
            && Moved(s.files, t.files, s.table[id].trashPath, to)
            && t.table == s.table[id := Entry(s.table[id].original, to, s.table[id].filename)]
  {
    FallbackIs(l.trashDir(s.table[id].original), stem, suffix, id);
  }

  /** A listing copies the original of an entry without a file into the trash folder, under the recorded name or with the id. */
  lemma RecoveryPuts(l: Layout, s: State, id: string, stem: string, suffix: string, to: FilePath)
    requires stem != "" && IsExtension(suffix) && id in s.table && s.table[id].filename == stem + suffix
    requires s.table[id].trashPath !in s.files && s.table[id].original in s.files
    requires var folder := l.trashDir(s.table[id].original);
             FirstFree(s.files, to, Plain(folder, stem, suffix), Tagged(folder, stem, id, suffix))
    ensures var t := Do(l, s, Migrate(id, NoFault));
            && t.files == s.files[to := s.files[s.table[id].original]]
            && t.table == s.table[id := Entry(s.table[id].original, to, stem + suffix)]
  {
    FallbackIs(l.trashDir(s.table[id].original), stem, suffix, id);
  }

  /** A permanent delete takes away the file, if it is there, and the entry, and nothing else. */
  lemma PurgeTakes(l: Layout, s: State, id: string)
    requires id in s.table
    ensures var t := Do(l, s, Purge(id, NoFault));
            && t.table == s.table - {id} && s.table[id].trashPath !in t.files
            && (forall p :: p in s.files && p != s.table[id].trashPath ==> p in t.files && t.files[p] == s.files[p])
            && (forall p :: p in t.files ==> p in s.files)
  {
  }

  function EntryOf(op: Op): string {
    match op
    case Delete(_, _, id, _) => id
    case Restore(id, _) => id
    case Purge(id, _) => id
    case Migrate(id, _) => id
  }

  /** What raises leaves everything as it was, but that a restore whose file is gone drops the entry, and a file moved may lack its record. */
  lemma RaisingLeaves(l: Layout, s: State, op: Op)
    requires op.fault == FileFault
    ensures op.Restore? && EntryOf(op) in s.table && s.table[EntryOf(op)].trashPath !in s.files ==>
            Do(l, s, op) == State(s.files, s.table - {EntryOf(op)})
    ensures !op.Purge? && !(op.Restore? && EntryOf(op) in s.table && s.table[EntryOf(op)].trashPath !in s.files) ==> Do(l, s, op) == s
    ensures op.Purge? && EntryOf(op) in s.table && s.table[EntryOf(op)].trashPath in s.files ==> Do(l, s, op) == s
  {
  }

  /** Where only the record cannot be written, the file has moved all the same, and the table stays as it was. */
  lemma UnrecordedMoves(l: Layout, s: State, op: Op)
    requires op.fault == TableFault && !(op.Restore? && op.entry in s.table && s.table[op.entry].trashPath !in s.files)
    ensures Do(l, s, op) == State(Do(l, s, op.(fault := NoFault)).files, s.table)
  {
  }

  /** No photo, no entry, or an entry with a file in its place or nothing to recover it from: then nothing happens. */
  lemma NothingToDo(l: Layout, s: State, op: Op)
    requires op.Delete? ==> op.path !in s.files
    requires (op.Restore? || op.Purge?) ==> op.entry !in s.table
    requires op.Migrate? && op.entry in s.table ==>
               var e := s.table[op.entry];
               if e.trashPath in s.files then e.trashPath.dir != l.legacyDir else e.original !in s.files
    ensures Do(l, s, op) == s && !Succeeds(l, s, op) && !Fails(l, s, op)
  {
  }

  /** What is counted as done is what took an entry from the table or put one in; a restore without a file is an error. */
  lemma CountedIffDone(l: Layout, s: State, op: Op)
    requires !op.Migrate? && (op.Delete? ==> op.id !in s.table)
    ensures var t := Do(l, s, op);
            match op
            case Delete(path, _, id, _) =>
              (Succeeds(l, s, op) <==> id in t.table) && (Fails(l, s, op) <==> path in s.files && id !in t.table)
            case Restore(id, _) =>
              && (Succeeds(l, s, op) <==> id in s.table && id !in t.table && s.table[id].trashPath in s.files)
              && (Fails(l, s, op) <==> id in s.table && (id in t.table || s.table[id].trashPath !in s.files))
            case Purge(id, _) =>
              (Succeeds(l, s, op) <==> id in s.table && id !in t.table) && (Fails(l, s, op) <==> id in s.table && id in t.table)
            case Migrate(_, _) => true
  {
  }

  /** A listing raises if and only if it has a file to move or to copy and an operation on the way fails. */
  lemma ListingRaisesIff(l: Layout, s: State, id: string, fault: Fault)
    requires id in s.table
    ensures var e := s.table[id];
            Fails(l, s, Migrate(id, fault)) <==>
            fault != NoFault && if e.trashPath in s.files then e.trashPath.dir == l.legacyDir else e.original in s.files
  {
  }

  /** `p` holds of the operation at `k` when its turn comes. */
  predicate HoldsThere(l: Layout, s: State, ops: seq<Op>, p: (Layout, State, Op) -> bool, k: nat)
    requires k < |ops|
  {
    p(l, DoAll(l, s, ops[..k]), ops[k])
  }

  function Positions(l: Layout, s: State, ops: seq<Op>, p: (Layout, State, Op) -> bool): set<nat> {
    set k: nat | k < |ops| && HoldsThere(l, s, ops, p, k)
  }

  /** Requests count these positions, each once. */
  lemma {:induction false} CountedOnce(l: Layout, s: State, ops: seq<Op>, p: (Layout, State, Op) -> bool)
    ensures HowMany(l, s, ops, p) == |Positions(l, s, ops, p)|
  {
    if ops == [] {
      assert Positions(l, s, ops, p) == {};
    } else {
      var n := |ops| - 1;
      CountedOnce(l, s, ops[..n], p);
      PositionsGrow(l, s, ops, p);
    }
  }

  lemma PositionsGrow(l: Layout, s: State, ops: seq<Op>, p: (Layout, State, Op) -> bool)
    requires ops != []
    ensures var n := |ops| - 1;
            |Positions(l, s, ops, p)| == |Positions(l, s, ops[..n], p)| + if p(l, DoAll(l, s, ops[..n]), ops[n]) then 1 else 0
  {
    var n := |ops| - 1;
    forall k: nat | k < n ensures HoldsThere(l, s, ops[..n], p, k) <==> HoldsThere(l, s, ops, p, k) {
      HoldsThereBefore(l, s, ops, p, n, k);
    }
    OneMore(Positions(l, s, ops[..n], p), Positions(l, s, ops, p), n, HoldsThere(l, s, ops, p, n));
  }

  lemma HoldsThereBefore(l: Layout, s: State, ops: seq<Op>, p: (Layout, State, Op) -> bool, n: nat, k: nat)
    requires k < n <= |ops|
    ensures HoldsThere(l, s, ops[..n], p, k) <==> HoldsThere(l, s, ops, p, k)
  {
    assert ops[..n][..k] == ops[..k];
  }

  lemma OneMore(before: set<nat>, after: set<nat>, n: nat, more: bool)
    requires n !in before && forall k: nat :: k in after <==> k in before || (more && k == n)
    ensures |after| == |before| + if more then 1 else 0
  {
    assert after == before + if more then {n} else {};
  }

  // ---- Two photos restored beside new ones ----

  /** The entry holds a file in the trash, and another photo is where it came from: `stem` + `suffix` in `dir`. */
  predicate Displaced(s: State, id: string, dir: string, stem: string, suffix: string) {
    && stem != "" && IsExtension(suffix) && id in s.table && s.table[id].original == Plain(dir, stem, suffix)
    && s.table[id].trashPath in s.files && s.table[id].trashPath != s.table[id].original && s.table[id].original in s.files
  }

  /** The photos of two entries come back beside the new ones, and all four have their contents, if the two literal names are free. */
  lemma TwoRestoresKeepAllFour(
    l: Layout, s: State, i: string, j: string, dir: string, stem: string, suffix: string, dir': string, stem': string, suffix': string)
    requires Displaced(s, i, dir, stem, suffix) && Displaced(s, j, dir', stem', suffix') && i != j
    requires s.table[i].original != s.table[j].original && s.table[i].trashPath != s.table[j].trashPath
    requires s.table[i].trashPath != s.table[j].original && s.table[j].trashPath != s.table[i].original
    requires Tagged(dir, stem, "restored", suffix) !in s.files && Tagged(dir', stem', "restored", suffix') !in s.files
    ensures var t := DoAll(l, s, Restores([i, j], [NoFault, NoFault]));
            && t.table == s.table - {i, j}
            && HoldsAt(t.files, Plain(dir, stem, suffix), s.files[Plain(dir, stem, suffix)])
            && HoldsAt(t.files, Plain(dir', stem', suffix'), s.files[Plain(dir', stem', suffix')])
            && HoldsAt(t.files, Tagged(dir, stem, "restored", suffix), s.files[s.table[i].trashPath])
            && HoldsAt(t.files, Tagged(dir', stem', "restored", suffix'), s.files[s.table[j].trashPath])
  {
    var ops := Restores([i, j], [NoFault, NoFault]);
    assert ops == [Restore(i, NoFault), Restore(j, NoFault)];
    assert ops[..1] == [ops[0]] && ops[..1][..0] == [];
    var t := Do(l, s, ops[0]);
    assert DoAll(l, s, ops[..1]) == t by {
      assert DoAll(l, s, ops[..1][..0]) == s;
    }
    RestorePuts(l, s, i, dir, stem, suffix, Tagged(dir, stem, "restored", suffix));
    RestorePuts(l, t, j, dir', stem', suffix', Tagged(dir', stem', "restored", suffix'));
    TaggedAreApart(dir, stem, suffix, dir', stem', suffix', "restored");
    assert s.table - {i} - {j} == s.table - {i, j};
  }

  predicate HoldsAt(files: FileMap, p: FilePath, c: Content) {
    p in files && files[p] == c
  }

  lemma TaggedAreApart(dir: string, stem: string, suffix: string, dir': string, stem': string, suffix': string, tag: string)
    requires IsExtension(suffix) && IsExtension(suffix') && Plain(dir, stem, suffix) != Plain(dir', stem', suffix')
    ensures Tagged(dir, stem, tag, suffix) != Tagged(dir', stem', tag, suffix')
  {
    if Tagged(dir, stem, tag, suffix) == Tagged(dir', stem', tag, suffix') {
      TaggedNameSplits(stem, suffix, stem', suffix', tag);
    }
  }

  /** Two photos of one path do not both come back beside a new one: the second to be restored replaces the first. */
  lemma SecondRestoreReplacesFirst(l: Layout, s: State, i: string, j: string, dir: string, stem: string, suffix: string)
    requires Displaced(s, i, dir, stem, suffix) && Displaced(s, j, dir, stem, suffix) && i != j
    requires s.table[i].trashPath != s.table[j].trashPath && Tagged(dir, stem, "restored", suffix) !in s.files
    ensures var t := DoAll(l, s, Restores([i, j], [NoFault, NoFault]));
            && t.table == s.table - {i, j}
            && HoldsAt(t.files, Plain(dir, stem, suffix), s.files[Plain(dir, stem, suffix)])
            && HoldsAt(t.files, Tagged(dir, stem, "restored", suffix), s.files[s.table[j].trashPath])
            && s.table[i].trashPath !in t.files && s.table[j].trashPath !in t.files
  {
    var ops := Restores([i, j], [NoFault, NoFault]);
    assert ops == [Restore(i, NoFault), Restore(j, NoFault)];
    assert ops[..1] == [ops[0]] && ops[..1][..0] == [];
    var t := Do(l, s, ops[0]);
    assert DoAll(l, s, ops[..1]) == t by {
      assert DoAll(l, s, ops[..1][..0]) == s;
    }
    RestorePuts(l, s, i, dir, stem, suffix, Tagged(dir, stem, "restored", suffix));
    RestorePuts(l, t, j, dir, stem, suffix, Tagged(dir, stem, "restored", suffix));
    assert s.table - {i} - {j} == s.table - {i, j};
  }
}
